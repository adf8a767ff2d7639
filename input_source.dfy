/**
 * `process_input_source` of generate/utils.py: how a command-line input (a file path, a URL,
 * a Tenor page URL, a Tenor GIF id, a search phrase or nothing) becomes the path or URL the
 * frames are read from, with the Tenor API request it may make.
 *
 * The file system test (`os.path.exists`, here `pathExists`) and the HTTP request with its JSON decoding are
 * parameters; the model returns, next to the result, the calls it made to them in order.
 */
module InputSource {
  import opened Wrappers
  import opened Strings

  type Byte = b: int | 0 <= b < 256

  const TENOR_VIEW: string := "https://tenor.com/view/"
  const TENOR_API: string := "https://api.tenor.com/v1/"

  /** A call the function makes to the outside world. */
  datatype Call = Exists(path: string) | Get(url: string)

  /**
   * What the request and `resp.json()` give back: an exception other than a JSON decoding
   * error (it propagates), a body that is not JSON, or a JSON object with its optional
   * `error` member and the media URLs of its `results`.
   */
  datatype Response = Raised(message: string) | NotJson | Json(error: Option<string>, results: seq<string>)

  /** The result of the call together with the calls it made, in order. */
  datatype Outcome = Outcome(result: Result<string>, calls: seq<Call>)

  // ----- urllib.parse.quote_plus -----

  /** The characters `quote_plus` never escapes: ASCII letters and digits and `_.-~`. */
  predicate Unreserved(c: char) {
    ('A' <= c <= 'Z') || ('a' <= c <= 'z') || ('0' <= c <= '9') || c == '_' || c == '.' || c == '-' || c == '~'
  }

  /** What may appear in a `quote_plus` result. */
  predicate UrlSafe(c: char) {
    Unreserved(c) || c == '+' || c == '%'
  }

  /** An upper-case hexadecimal digit, as `quote_plus` writes them. */
  predicate IsHexDigit(c: char) {
    ('0' <= c <= '9') || ('A' <= c <= 'F')
  }

  function HexDigit(v: nat): (c: char)
    requires v < 16
    ensures IsHexDigit(c)
  {
    if v < 10 then ('0' as int + v) as char else ('A' as int + v - 10) as char
  }

  /** The UTF-8 encoding of one character. */
  function Utf8(c: char): (bs: seq<Byte>)
    ensures 1 <= |bs| <= 4
    ensures |bs| == 1 <==> c as int < 0x80
    ensures |bs| == 1 ==> bs[0] == c as int
    ensures forall k :: 1 <= k < |bs| ==> 0x80 <= bs[k] < 0xC0
  {
    var n := c as int;
    var d0, n1 := n % 64, n / 64;
    var d1, n2 := n1 % 64, n1 / 64;
    var d2, n3 := n2 % 64, n2 / 64;
    if n < 0x80 then [n]
    else if n < 0x800 then [0xC0 + n1, 0x80 + d0]
    else if n < 0x10000 then [0xE0 + n2, 0x80 + d1, 0x80 + d0]
    else [0xF0 + n3, 0x80 + d2, 0x80 + d1, 0x80 + d0]
  }

  /** The UTF-8 encoding of a string. */
  function Utf8Encode(s: string): seq<Byte> {
    if |s| == 0 then [] else Utf8(s[0]) + Utf8Encode(s[1..])
  }

  /** `%XX` with upper-case hex digits. */
  function QuoteByte(b: Byte): (q: string)
    ensures |q| == 3 && q[0] == '%' && IsHexDigit(q[1]) && IsHexDigit(q[2])
  {
    ['%', HexDigit(b / 16), HexDigit(b % 16)]
  }

  function QuoteBytes(bs: seq<Byte>): (q: string)
    ensures forall i :: 0 <= i < |q| ==> UrlSafe(q[i])
  {
    if |bs| == 0 then "" else QuoteByte(bs[0]) + QuoteBytes(bs[1..])
  }

  /** One character as `quote_plus` writes it. */
  function QuoteChar(c: char): (q: string)
    ensures forall i :: 0 <= i < |q| ==> UrlSafe(q[i])
  {
    if Unreserved(c) then [c] else if c == ' ' then "+" else QuoteBytes(Utf8(c))
  }

  /**
   * `urllib.parse.quote_plus(s)`: unreserved characters as they are, a space as `+`, every
   * other character as the `%XX` escapes of its UTF-8 bytes. The result holds no `&`, `=`,
   * `?`, `#` or space, so it stays one query parameter.
   */
  function QuotePlus(s: string): (q: string)
    ensures forall i :: 0 <= i < |q| ==> UrlSafe(q[i])
  {
    if |s| == 0 then "" else QuoteChar(s[0]) + QuotePlus(s[1..])
  }

  /** A string of digits is left as it is. */
  lemma {:induction false} QuotePlusDigits(s: string)
    requires forall i :: 0 <= i < |s| ==> IsDigit(s[i])
    ensures QuotePlus(s) == s
  {
    if |s| > 0 {
      QuotePlusDigits(s[1..]);
    }
  }

  // ----- decoding, the partner of quote_plus -----

  function HexValue(c: char): (v: nat)
    requires IsHexDigit(c)
    ensures v < 16 && HexDigit(v) == c
  {
    if c <= '9' then c as int - '0' as int else c as int - 'A' as int + 10
  }

  /** Reading a written hex digit back gives its value. */
  lemma HexDigitValue(v: nat)
    requires v < 16
    ensures HexValue(HexDigit(v)) == v
  {
  }

  function PrependBytes(bs: seq<Byte>, rest: Option<seq<Byte>>): Option<seq<Byte>> {
    if rest.Some? then Some(bs + rest.value) else None
  }

  /** The bytes a `quote_plus` string stands for: `%XX` escapes, `+` for a space, ASCII as is. */
  function PercentDecode(q: string): Option<seq<Byte>>
    decreases |q|
  {
    if |q| == 0 then Some([])
    else if q[0] == '%' then
      if |q| >= 3 && IsHexDigit(q[1]) && IsHexDigit(q[2]) then
        PrependBytes([HexValue(q[1]) * 16 + HexValue(q[2])], PercentDecode(q[3..]))
      else None
    else if q[0] == '+' then PrependBytes([0x20], PercentDecode(q[1..]))
    else if q[0] as int < 0x80 then PrependBytes([q[0] as int], PercentDecode(q[1..]))
    else None
  }

  predicate IsScalar(v: int) {
    (0 <= v < 0xD800) || (0xE000 <= v < 0x11_0000)
  }

  function PrependChar(c: char, rest: Option<string>): Option<string> {
    if rest.Some? then Some([c] + rest.value) else None
  }

  predicate Continuation(b: Byte) {
    0x80 <= b < 0xC0
  }

  /** The length of the UTF-8 sequence a lead byte starts, or 0 for a byte that starts none. */
  function SequenceLength(b: Byte): nat {
    if b < 0x80 then 1
    else if 0xC0 <= b < 0xE0 then 2
    else if 0xE0 <= b < 0xF0 then 3
    else if 0xF0 <= b < 0xF8 then 4
    else 0
  }

  /** The code point of one UTF-8 sequence. */
  function SequenceValue(bs: seq<Byte>): int
    requires |bs| >= 1 && |bs| >= SequenceLength(bs[0]) >= 1
  {
    var len := SequenceLength(bs[0]);
    var b0: int := bs[0];
    if len == 1 then b0
    else
      var b1: int := bs[1];
      if len == 2 then (b0 - 0xC0) * 64 + (b1 - 0x80)
      else
        var b2: int := bs[2];
        if len == 3 then ((b0 - 0xE0) * 64 + (b1 - 0x80)) * 64 + (b2 - 0x80)
        else
          var b3: int := bs[3];
          (((b0 - 0xF0) * 64 + (b1 - 0x80)) * 64 + (b2 - 0x80)) * 64 + (b3 - 0x80)
  }

  /** UTF-8 decoding; `None` when the bytes are not a sequence of encoded characters. */
  function Utf8Decode(bs: seq<Byte>): Option<string>
    decreases |bs|
  {
    if |bs| == 0 then Some("")
    else
      var len := SequenceLength(bs[0]);
      if len == 0 || |bs| < len then None
      else if exists k :: 1 <= k < len && !Continuation(bs[k]) then None
      else
        var v := SequenceValue(bs);
        if IsScalar(v) then PrependChar(v as char, Utf8Decode(bs[len..])) else None
  }

  /** `urllib.parse.unquote_plus`, strict: the inverse of `QuotePlus`. */
  function UnquotePlus(q: string): Option<string> {
    var bs := PercentDecode(q);
    if bs.Some? then Utf8Decode(bs.value) else None
  }

  lemma QuoteByteDecodes(b: Byte, rest: string)
    ensures PercentDecode(QuoteByte(b) + rest) == PrependBytes([b], PercentDecode(rest))
  {
    var q := QuoteByte(b) + rest;
    assert q[1] == HexDigit(b / 16) && q[2] == HexDigit(b % 16);
    HexDigitValue(b / 16);
    HexDigitValue(b % 16);
    assert q[3..] == rest;
  }

  lemma {:induction false} QuoteBytesDecode(bs: seq<Byte>, rest: string)
    ensures PercentDecode(QuoteBytes(bs) + rest) == PrependBytes(bs, PercentDecode(rest))
  {
    if |bs| > 0 {
      QuoteBytesDecode(bs[1..], rest);
      assert QuoteBytes(bs) + rest == QuoteByte(bs[0]) + (QuoteBytes(bs[1..]) + rest);
      QuoteByteDecodes(bs[0], QuoteBytes(bs[1..]) + rest);
      if PercentDecode(rest).Some? {
        assert [bs[0]] + (bs[1..] + PercentDecode(rest).value) == bs + PercentDecode(rest).value;
      }
    } else {
      assert QuoteBytes(bs) + rest == rest;
      if PercentDecode(rest).Some? {
        assert bs + PercentDecode(rest).value == PercentDecode(rest).value;
      }
    }
  }

  lemma QuoteCharDecodes(c: char, rest: string)
    ensures PercentDecode(QuoteChar(c) + rest) == PrependBytes(Utf8(c), PercentDecode(rest))
  {
    if Unreserved(c) || c == ' ' {
      assert (QuoteChar(c) + rest)[1..] == rest;
    } else {
      QuoteBytesDecode(Utf8(c), rest);
    }
  }

  /** Percent-decoding a `quote_plus` result gives back the UTF-8 bytes of the input. */
  lemma {:induction false} QuotePlusDecodes(s: string)
    ensures PercentDecode(QuotePlus(s)) == Some(Utf8Encode(s))
  {
    if |s| > 0 {
      QuotePlusDecodes(s[1..]);
      QuoteCharDecodes(s[0], QuotePlus(s[1..]));
    }
  }

  /** The UTF-8 bytes of one character decode to that character. */
  lemma Utf8DecodesChar(c: char, rest: seq<Byte>)
    ensures Utf8Decode(Utf8(c) + rest) == PrependChar(c, Utf8Decode(rest))
  {
    var bs := Utf8(c) + rest;
    var n := c as int;
    var len := |Utf8(c)|;
    assert bs[..len] == Utf8(c);
    assert SequenceLength(bs[0]) == len;
    assert forall k :: 1 <= k < len ==> Continuation(bs[k]);
    assert SequenceValue(bs) == n;
    assert bs[len..] == rest;
  }

  lemma {:induction false} Utf8RoundTrip(s: string)
    ensures Utf8Decode(Utf8Encode(s)) == Some(s)
  {
    if |s| > 0 {
      Utf8RoundTrip(s[1..]);
      Utf8DecodesChar(s[0], Utf8Encode(s[1..]));
      assert [s[0]] + s[1..] == s;
    }
  }

  /** `unquote_plus(quote_plus(s)) == s`: the search phrase reaches the API unchanged. */
  lemma QuotePlusRoundTrip(s: string)
    ensures UnquotePlus(QuotePlus(s)) == Some(s)
  {
    QuotePlusDecodes(s);
    Utf8RoundTrip(s);
  }

  // ----- process_input_source -----

  predicate IsTenorPage(inputSource: string) {
    StartsWith(Strip(inputSource), TENOR_VIEW)
  }

  predicate IsUrl(s: string) {
    StartsWith(s, "http://") || StartsWith(s, "https://")
  }

  /** The API endpoint and query string for a GIF id, an empty input or a search phrase. */
  function Endpoint(s: string): string {
    if IsDigits(s) then "gifs" else if s == "" then "trending" else "search"
  }

  function Query(s: string): string {
    if IsDigits(s) then "ids=" + QuotePlus(s)
    else if s == "" then "limit=1"
    else "limit=1&q=" + QuotePlus(s)
  }

  /** The Tenor API URL requested for `s`. */
  function RequestUrl(s: string, apiKey: string): string {
    TENOR_API + Endpoint(s) + "?key=" + apiKey + "&" + Query(s)
  }

  /** What the function makes of the API's answer. */
  function Interpret(resp: Response): (r: Result<string>)
    ensures r.Ok? <==> resp.Json? && resp.error.None? && |resp.results| > 0
    ensures r.Ok? ==> r.value == resp.results[0]
    ensures resp.Raised? ==> r == Err(resp.message)
    ensures resp.NotJson? ==> r == Err("A server error occurred.")
    ensures resp.Json? && resp.error.Some? ==> r == Err("An error occurred: " + resp.error.value)
    ensures resp.Json? && resp.error.None? && |resp.results| == 0 ==> r == Err("Could not find GIF.")
  {
    match resp
    case Raised(m) => Err(m)
    case NotJson => Err("A server error occurred.")
    case Json(error, results) =>
      if error.Some? then Err("An error occurred: " + error.value)
      else if |results| == 0 then Err("Could not find GIF.")
      else Ok(results[0])
  }

  /**
   * `process_input_source(input_source, api_key)`, with `os.path.exists` as `pathExists` and the
   * request plus `resp.json()` as `fetch`.
   */
  function ProcessInputSource(inputSource: string, apiKey: string,
                              pathExists: string -> bool, fetch: string -> Response): (o: Outcome)
    ensures |o.calls| <= 2
    ensures |o.calls| == 0 <==> IsTenorPage(inputSource) && !IsDigits(AfterLast(inputSource, '-'))
    ensures |o.calls| == 0 ==> o.result == Err("Bad GIF URL.")
    ensures |o.calls| > 0 ==> o.calls[0].Exists?
    ensures |o.calls| == 2 ==> o.calls[1].Get? && o.calls[1].url == RequestUrl(o.calls[0].path, apiKey)
    ensures |o.calls| == 2 <==> |o.calls| > 0 && !pathExists(o.calls[0].path) && !IsUrl(o.calls[0].path)
    ensures |o.calls| == 1 ==> o.result == Ok(o.calls[0].path)
    ensures |o.calls| == 2 ==> o.result == Interpret(fetch(o.calls[1].url))
  {
    var source :=
      if IsTenorPage(inputSource) then
        var gifId := AfterLast(inputSource, '-');
        if IsDigits(gifId) then Ok(gifId) else Err("Bad GIF URL.")
      else Ok(inputSource);
    if source.Err? then Outcome(source, [])
    else
      var s := source.value;
      if !pathExists(s) && !IsUrl(s) then
        var url := RequestUrl(s, apiKey);
        Outcome(Interpret(fetch(url)), [Exists(s), Get(url)])
      else Outcome(Ok(s), [Exists(s)])
  }

  /** The path the function checks: the input itself, or the id of a Tenor page URL. */
  lemma CheckedPath(inputSource: string, apiKey: string, pathExists: string -> bool, fetch: string -> Response)
    ensures var o := ProcessInputSource(inputSource, apiKey, pathExists, fetch);
      |o.calls| > 0 ==> o.calls[0].path == if IsTenorPage(inputSource) then AfterLast(inputSource, '-') else inputSource
  {
  }

  /** A run of digits is neither a Tenor page URL nor an HTTP(S) URL. */
  lemma DigitsAreNotUrls(id: string)
    requires IsDigits(id)
    ensures !IsTenorPage(id) && !IsUrl(id)
  {
    assert IsDigit(id[0]) && IsDigit(id[|id| - 1]);
    assert Strip(id) == id;
    forall p: string | |p| > 0 && p[0] == 'h' ensures !StartsWith(id, p) {
      if |p| <= |id| {
        assert id[..|p|][0] == id[0];
      }
    }
  }

  /**
   * A Tenor page URL ending in a numeric id behaves exactly as that id given on its own.
   */
  lemma TenorPageIsId(inputSource: string, apiKey: string, pathExists: string -> bool, fetch: string -> Response)
    requires IsTenorPage(inputSource) && IsDigits(AfterLast(inputSource, '-'))
    ensures ProcessInputSource(inputSource, apiKey, pathExists, fetch)
      == ProcessInputSource(AfterLast(inputSource, '-'), apiKey, pathExists, fetch)
  {
    DigitsAreNotUrls(AfterLast(inputSource, '-'));
  }

  /** A GIF id asks the `gifs` endpoint for exactly that id. */
  lemma GifIdRequest(s: string, apiKey: string)
    requires IsDigits(s)
    ensures RequestUrl(s, apiKey) == TENOR_API + "gifs" + "?key=" + apiKey + "&" + ("ids=" + s)
  {
    QuotePlusDigits(s);
  }

  /** An empty input asks for the trending GIFs: `trending?key=<key>&limit=1`, with no phrase. */
  lemma TrendingRequest(apiKey: string)
    ensures RequestUrl("", apiKey) == TENOR_API + "trending" + "?key=" + apiKey + "&" + "limit=1"
  {
    assert !IsDigits("");
  }

  /**
   * Any other input is a search: the URL ends with the `q` parameter, and the phrase can be
   * read back from it.
   */
  lemma SearchRequest(s: string, apiKey: string)
    requires !IsDigits(s) && s != ""
    ensures Endpoint(s) == "search"
    ensures var url, q := RequestUrl(s, apiKey), QuotePlus(s);
      && EndsWith(url, "&q=" + q)
      && UnquotePlus(url[|url| - |q|..]) == Some(s)
  {
    var q := QuotePlus(s);
    var url := RequestUrl(s, apiKey);
    var head := TENOR_API + "search" + "?key=" + apiKey + "&";
    var tail := "&q=" + q;
    SearchQuery(s);
    LimitThenQ();
    assert url == head + (("limit=1" + "&q=") + q);
    Regroup(head, "limit=1", "&q=", q);
    SuffixOfAppend(head + "limit=1", tail);
    SuffixOfAppend(head + "limit=1" + "&q=", q);
    QuotePlusRoundTrip(s);
  }

  /** A search's query string: the fixed limit, then the quoted phrase as `q`. */
  lemma SearchQuery(s: string)
    requires !IsDigits(s) && s != ""
    ensures Endpoint(s) == "search"
    ensures Query(s) == "limit=1&q=" + QuotePlus(s)
  {
  }

  /** The search query's fixed part is the limit followed by the `q` key. */
  lemma LimitThenQ()
    ensures "limit=1&q=" == "limit=1" + "&q="
  {
  }

  /** Concatenation regrouped. */
  lemma Regroup(a: string, b: string, c: string, d: string)
    ensures a + ((b + c) + d) == (a + b) + (c + d) && (a + b) + (c + d) == ((a + b) + c) + d
  {
  }

  /** `b` is the tail of `a + b`. */
  lemma SuffixOfAppend(a: string, b: string)
    ensures EndsWith(a + b, b) && (a + b)[|a + b| - |b|..] == b
  {
  }
}
