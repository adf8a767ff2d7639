/**
 * The handful of Python `str` operations the program relies on: `join`, `split` on one
 * character, `rsplit(sep, 1)[-1]`, `startswith`/`endswith`/`in`, `strip` whitespace,
 * `lower`, `replace`, `isdigit`, `int()` and decimal formatting.
 */
module Strings {
  import opened Wrappers

  /** The escape character that starts every terminal control sequence. */
  const ESC: char := '\U{1b}'

  /** `sep.join(parts)`. */
  function Join(parts: seq<string>, sep: string): (r: string)
    ensures |parts| == 1 ==> r == parts[0]
    ensures |parts| == 0 ==> r == ""
  {
    if |parts| == 0 then ""
    else if |parts| == 1 then parts[0]
    else parts[0] + sep + Join(parts[1..], sep)
  }

  /** `''.join(parts)`. */
  function Concat(parts: seq<string>): (r: string)
    ensures |parts| == 0 ==> r == ""
  {
    if |parts| == 0 then "" else parts[0] + Concat(parts[1..])
  }

  lemma {:induction false} ConcatAppend(parts: seq<string>, last: string)
    ensures Concat(parts + [last]) == Concat(parts) + last
  {
    if |parts| == 0 {
      assert parts + [last] == [last];
    } else {
      assert (parts + [last])[1..] == parts[1..] + [last];
      ConcatAppend(parts[1..], last);
    }
  }

  lemma {:induction false} JoinAppend(parts: seq<string>, sep: string, last: string)
    requires |parts| >= 1
    ensures Join(parts + [last], sep) == Join(parts, sep) + sep + last
  {
    if |parts| == 1 {
      assert (parts + [last])[1..] == [last];
    } else {
      assert (parts + [last])[1..] == parts[1..] + [last];
      JoinAppend(parts[1..], sep, last);
    }
  }

  /** `s.split(sep)` for a one-character separator: never empty, no part contains `sep`. */
  function Split(s: string, sep: char): (r: seq<string>)
    ensures |r| >= 1
    ensures forall i :: 0 <= i < |r| ==> sep !in r[i]
  {
    if |s| == 0 then [""]
    else
      var rest := Split(s[1..], sep);
      if s[0] == sep then [""] + rest
      else [[s[0]] + rest[0]] + rest[1..]
  }

  /** Splitting undoes joining, provided no part contains the separator. */
  lemma {:induction false} SplitJoin(parts: seq<string>, sep: char)
    requires |parts| >= 1
    requires forall i :: 0 <= i < |parts| ==> sep !in parts[i]
    ensures Split(Join(parts, [sep]), sep) == parts
  {
    if |parts| == 1 {
      SplitPrefix(parts[0], "", sep);
      assert parts[0] + "" == parts[0];
    } else {
      var tail := Join(parts[1..], [sep]);
      SplitJoin(parts[1..], sep);
      assert Join(parts, [sep]) == parts[0] + ([sep] + tail);
      SplitPrefix(parts[0], [sep] + tail, sep);
      assert ([sep] + tail)[1..] == tail;
      assert parts[0] + "" == parts[0];
      assert parts == [parts[0]] + parts[1..];
    }
  }

  /** Joining undoes splitting. */
  lemma {:induction false} JoinSplit(s: string, sep: char)
    ensures Join(Split(s, sep), [sep]) == s
  {
    if |s| > 0 {
      var rest := Split(s[1..], sep);
      JoinSplit(s[1..], sep);
      if s[0] == sep {
        assert Split(s, sep) == [""] + rest;
        assert ([""] + rest)[1..] == rest;
        assert s == [sep] + s[1..];
      } else {
        var head := [s[0]] + rest[0];
        assert Split(s, sep) == [head] + rest[1..];
        if |rest| == 1 {
          assert s == [s[0]] + s[1..];
        } else {
          assert ([head] + rest[1..])[1..] == rest[1..];
          assert Join(rest, [sep]) == rest[0] + [sep] + Join(rest[1..], [sep]);
          assert s == [s[0]] + s[1..];
        }
      }
    }
  }

  lemma {:induction false} SplitPrefix(a: string, t: string, sep: char)
    requires sep !in a
    ensures Split(a + t, sep) == [a + Split(t, sep)[0]] + Split(t, sep)[1..]
  {
    if |a| > 0 {
      var st := Split(t, sep);
      assert (a + t)[1..] == a[1..] + t;
      SplitPrefix(a[1..], t, sep);
      var rest := Split(a[1..] + t, sep);
      assert rest == [a[1..] + st[0]] + st[1..];
      assert (a + t)[0] == a[0] && a[0] != sep;
      assert Split(a + t, sep) == [[a[0]] + rest[0]] + rest[1..];
      assert [a[0]] + (a[1..] + st[0]) == a + st[0];
    } else {
      assert a + t == t;
      assert a + Split(t, sep)[0] == Split(t, sep)[0];
      assert Split(t, sep) == [Split(t, sep)[0]] + Split(t, sep)[1..];
    }
  }

  /** `s.startswith(prefix)`. */
  predicate StartsWith(s: string, prefix: string) {
    |prefix| <= |s| && s[..|prefix|] == prefix
  }

  /** `s.endswith(suffix)`. */
  predicate EndsWith(s: string, suffix: string) {
    |suffix| <= |s| && s[|s| - |suffix|..] == suffix
  }

  /** `sub in s`. */
  predicate Contains(s: string, sub: string)
    decreases |s|
  {
    StartsWith(s, sub) || (|s| > 0 && Contains(s[1..], sub))
  }

  /** The characters Python's `str.isspace` accepts (and `\s` matches in a `str` pattern). */
  predicate IsSpace(c: char) {
    var n := c as int;
    (9 <= n <= 13) || (0x1c <= n <= 0x20) || n == 0x85 || n == 0xa0 || n == 0x1680
    || (0x2000 <= n <= 0x200a) || n == 0x2028 || n == 0x2029 || n == 0x202f || n == 0x205f
    || n == 0x3000
  }

  /** `s.lstrip()`: what `s.strip().startswith(p)` looks at. */
  function LStrip(s: string): (r: string)
    ensures |r| > 0 ==> !IsSpace(r[0])
  {
    if |s| > 0 && IsSpace(s[0]) then LStrip(s[1..]) else s
  }

  /** `s.rstrip()`. */
  function RStrip(s: string): (r: string)
    ensures |r| <= |s| && r == s[..|r|]
    ensures |r| > 0 ==> !IsSpace(r[|r| - 1])
  {
    if |s| > 0 && IsSpace(s[|s| - 1]) then RStrip(s[..|s| - 1]) else s
  }

  /** `s.strip()`: leading and trailing whitespace removed. */
  function Strip(s: string): (r: string)
    ensures |r| > 0 ==> !IsSpace(r[0]) && !IsSpace(r[|r| - 1])
    ensures |s| > 0 && !IsSpace(s[0]) && !IsSpace(s[|s| - 1]) ==> r == s
  {
    var l := LStrip(s);
    var r := RStrip(l);
    if |r| > 0 then
      assert r[0] == l[0];
      r
    else
      r
  }

  /** Lower-casing of the ASCII letters, as `str.lower` does for them. */
  function LowerAscii(s: string): (r: string)
    ensures |r| == |s|
    ensures forall i :: 0 <= i < |s| ==> r[i] == if 'A' <= s[i] <= 'Z' then (s[i] as int + 32) as char else s[i]
  {
    if |s| == 0 then ""
    else [if 'A' <= s[0] <= 'Z' then (s[0] as int + 32) as char else s[0]] + LowerAscii(s[1..])
  }

  predicate IsDigit(c: char) {
    '0' <= c <= '9'
  }

  /** `s.isdigit()`, on ASCII digits: false for the empty string. */
  predicate IsDigits(s: string) {
    |s| > 0 && forall i :: 0 <= i < |s| ==> IsDigit(s[i])
  }

  /** `s.rsplit(sep, 1)[-1]`: everything after the last `sep`, or all of `s` when there is none. */
  function AfterLast(s: string, sep: char): (r: string)
    ensures sep !in r && EndsWith(s, r)
    ensures |r| < |s| ==> s[|s| - |r| - 1] == sep
  {
    if |s| == 0 then ""
    else if s[|s| - 1] == sep then ""
    else
      var r := AfterLast(s[..|s| - 1], sep) + [s[|s| - 1]];
      assert s[..|s| - 1][|s| - |r|..] == s[|s| - |r|..|s| - 1];
      r
  }

  /** `s.replace(placeholder, with)` for a one-character `placeholder`. */
  function Replace(s: string, placeholder: char, with: string): (r: string)
    ensures placeholder !in s ==> r == s
  {
    if |s| == 0 then ""
    else (if s[0] == placeholder then with else [s[0]]) + Replace(s[1..], placeholder, with)
  }

  lemma {:induction false} ReplaceConcat(a: string, b: string, placeholder: char, with: string)
    ensures Replace(a + b, placeholder, with) == Replace(a, placeholder, with) + Replace(b, placeholder, with)
  {
    if |a| > 0 {
      assert (a + b)[1..] == a[1..] + b;
      ReplaceConcat(a[1..], b, placeholder, with);
    } else {
      assert a + b == b;
    }
  }

  /** `s.replace(p, with) == with.join(s.split(p))`: the text between placeholders is kept, each placeholder becomes `with`. */
  lemma {:induction false} ReplaceIsJoinSplit(s: string, placeholder: char, with: string)
    ensures Replace(s, placeholder, with) == Join(Split(s, placeholder), with)
  {
    if |s| > 0 {
      var rest := Split(s[1..], placeholder);
      ReplaceIsJoinSplit(s[1..], placeholder, with);
      if s[0] == placeholder {
        assert Split(s, placeholder) == [""] + rest;
        assert ([""] + rest)[1..] == rest;
      } else {
        var head := [s[0]] + rest[0];
        assert Split(s, placeholder) == [head] + rest[1..];
        if |rest| > 1 {
          assert ([head] + rest[1..])[1..] == rest[1..];
          assert Join(rest, with) == rest[0] + with + Join(rest[1..], with);
        }
      }
    }
  }

  /**
   * With a one-character replacement, `replace` changes exactly the placeholder positions
   * and leaves every other character where it was.
   */
  lemma {:induction false} ReplaceOneChar(s: string, placeholder: char, c: char)
    ensures |Replace(s, placeholder, [c])| == |s|
    ensures forall i :: 0 <= i < |s| ==>
      Replace(s, placeholder, [c])[i] == if s[i] == placeholder then c else s[i]
  {
    if |s| > 0 {
      ReplaceOneChar(s[1..], placeholder, c);
    }
  }

  /** A replacement that does not itself contain the placeholder leaves none behind. */
  lemma {:induction false} ReplaceRemovesPlaceholder(s: string, placeholder: char, with: string)
    requires placeholder !in with
    ensures placeholder !in Replace(s, placeholder, with)
  {
    if |s| > 0 {
      ReplaceRemovesPlaceholder(s[1..], placeholder, with);
    }
  }

  function DigitChar(d: nat): (c: char)
    requires d < 10
    ensures IsDigit(c)
  {
    ('0' as int + d) as char
  }

  /** `str(n)` for a natural number: its decimal digits, without leading zeros. */
  function NatToString(n: nat): (s: string)
    ensures IsDigits(s)
    ensures |s| > 1 ==> s[0] != '0'
  {
    if n < 10 then [DigitChar(n)] else NatToString(n / 10) + [DigitChar(n % 10)]
  }

  /** `str(i)` for any integer. */
  function IntToString(i: int): (s: string)
    ensures i >= 0 ==> s == NatToString(i)
    ensures i < 0 ==> s == "-" + NatToString(-i)
  {
    if i < 0 then "-" + NatToString(-i) else NatToString(i)
  }

  /** The value of a string of decimal digits. */
  function DigitsValue(s: string): nat
    requires forall i :: 0 <= i < |s| ==> IsDigit(s[i])
  {
    if |s| == 0 then 0
    else
      assert IsDigit(s[|s| - 1]);
      10 * DigitsValue(s[..|s| - 1]) + (s[|s| - 1] as int - '0' as int)
  }

  /** Reading a formatted number back gives the number. */
  lemma {:induction false} NatToStringValue(n: nat)
    ensures DigitsValue(NatToString(n)) == n
  {
    if n >= 10 {
      var s := NatToString(n);
      NatToStringValue(n / 10);
      assert s[..|s| - 1] == NatToString(n / 10);
    }
  }

  /**
   * A numeral `int()` accepts in base 10: ASCII digits, with single underscores allowed
   * between two digits.
   */
  predicate IsNumeral(s: string) {
    && |s| > 0 && IsDigit(s[0]) && IsDigit(s[|s| - 1])
    && forall i :: 0 <= i < |s| ==> IsDigit(s[i]) || (s[i] == '_' && i + 1 < |s| && IsDigit(s[i + 1]))
  }

  /** The characters of `s` other than underscores, in order. */
  function DropUnderscores(s: string): (d: string)
    ensures (forall i :: 0 <= i < |s| ==> IsDigit(s[i]) || s[i] == '_') ==> forall i :: 0 <= i < |d| ==> IsDigit(d[i])
  {
    if |s| == 0 then ""
    else (if s[0] == '_' then "" else [s[0]]) + DropUnderscores(s[1..])
  }

  /** A numeral holds only digits and underscores. */
  lemma NumeralChars(s: string)
    requires IsNumeral(s)
    ensures forall i :: 0 <= i < |s| ==> IsDigit(s[i]) || s[i] == '_'
  {
    forall i | 0 <= i < |s|
      ensures IsDigit(s[i]) || s[i] == '_'
    {
      assert IsDigit(s[i]) || (s[i] == '_' && i + 1 < |s| && IsDigit(s[i + 1]));
    }
  }

  /** The value of a numeral: its digits read in order, the underscores skipped. */
  function NumeralValue(s: string): nat
    requires IsNumeral(s)
  {
    NumeralChars(s);
    DigitsValue(DropUnderscores(s))
  }

  /** A text without underscores loses nothing when they are dropped. */
  lemma {:induction false} DropNoUnderscores(s: string)
    requires forall i :: 0 <= i < |s| ==> s[i] != '_'
    ensures DropUnderscores(s) == s
  {
    if |s| > 0 {
      DropNoUnderscores(s[1..]);
      assert s == [s[0]] + s[1..];
    }
  }

  /** Without underscores a numeral's value is its digits' value. */
  lemma NumeralOfDigits(s: string)
    requires IsDigits(s)
    ensures IsNumeral(s) && NumeralValue(s) == DigitsValue(s)
  {
    DropNoUnderscores(s);
  }

  /** `repr(s)` for the strings the model quotes: the text between single quotes. */
  function Repr(s: string): string {
    "'" + s + "'"
  }

  /**
   * `int()` on text already stripped of whitespace: an optional sign and a numeral, or
   * `None` for anything else.
   */
  function ParseStripped(t: string): Option<int> {
    if IsNumeral(t) then Some(NumeralValue(t))
    else if |t| > 1 && t[0] == '-' && IsNumeral(t[1..]) then Some(-(NumeralValue(t[1..]) as int))
    else if |t| > 1 && t[0] == '+' && IsNumeral(t[1..]) then Some(NumeralValue(t[1..]))
    else None
  }

  /**
   * `int(s)`: surrounding whitespace is stripped, then an optional sign and a numeral;
   * anything else is the `ValueError`, whose text quotes the input.
   */
  function ParseInt(s: string): (r: Result<int>)
    ensures IsDigits(s) ==> r == Ok(DigitsValue(s))
    ensures r.Ok? ==> |Strip(s)| > 0
    ensures r.Err? ==> r.message == "invalid literal for int() with base 10: " + Repr(s)
  {
    DigitsParse(s);
    match ParseStripped(Strip(s))
    case Some(v) => Ok(v)
    case None => Err("invalid literal for int() with base 10: " + Repr(s))
  }

  /** A string of decimal digits has nothing to strip and reads as their value. */
  lemma DigitsParse(s: string)
    ensures IsDigits(s) ==> ParseStripped(Strip(s)) == Some(DigitsValue(s))
  {
    if IsDigits(s) {
      StripDigitEnds(s);
      NumeralOfDigits(s);
    }
  }

  /** `int()` ignores the whitespace around its argument: only the stripped text decides the value. */
  lemma ParseIntIgnoresSpace(s: string)
    ensures ParseInt(s).Ok? <==> ParseInt(Strip(s)).Ok?
    ensures ParseInt(s).Ok? ==> ParseInt(s).value == ParseInt(Strip(s)).value
  {
    var t := Strip(s);
    assert Strip(t) == t by {
      if |t| > 0 {
        assert !IsSpace(t[0]) && !IsSpace(t[|t| - 1]);
      }
    }
  }

  /** A stripped numeral reads as its value. */
  lemma ParseIntOfNumeral(s: string)
    requires Strip(s) == s && IsNumeral(s)
    ensures ParseInt(s) == Ok(NumeralValue(s))
  {
  }

  /** A text with a digit at each end has nothing to strip. */
  lemma StripDigitEnds(s: string)
    requires |s| > 0 && IsDigit(s[0]) && IsDigit(s[|s| - 1])
    ensures Strip(s) == s
  {
  }

  /** A one-digit text is worth its digit. */
  lemma DigitValue(c: char)
    requires IsDigit(c)
    ensures DigitsValue([c]) == c as int - '0' as int
  {
    assert [c][..0] == "";
  }

  /** A blank before a digit is stripped. */
  lemma StripSpaceDigit(c: char)
    requires IsDigit(c)
    ensures Strip([' ', c]) == [c]
  {
    var s := [' ', c];
    assert LStrip(s) == [c] by {
      assert IsSpace(s[0]) && s[1..] == [c];
    }
    assert RStrip([c]) == [c];
  }

  /** `int(' ' + c)` for a digit `c` is the digit's value: leading whitespace is stripped. */
  lemma ParseIntSpaceDigit(c: char)
    requires IsDigit(c)
    ensures ParseInt([' ', c]) == Ok(c as int - '0' as int)
  {
    StripSpaceDigit(c);
    DigitValue(c);
    NumeralOfDigits([c]);
    StripDigitEnds([c]);
    ParseIntOfNumeral([c]);
  }

  /** Two digits around one underscore form a numeral whose digits are the two digits. */
  lemma UnderscorePair(a: char, b: char)
    requires IsDigit(a) && IsDigit(b)
    ensures IsNumeral([a, '_', b]) && DropUnderscores([a, '_', b]) == [a, b]
  {
    var s := [a, '_', b];
    assert DropUnderscores([b]) == [b] by { assert [b][1..] == ""; }
    assert DropUnderscores(['_', b]) == [b] by { assert ['_', b][1..] == [b]; }
    assert DropUnderscores(s) == [a] + DropUnderscores(['_', b]) by { assert s[1..] == ['_', b]; }
    assert [a] + [b] == [a, b];
  }

  /** Two digits read as a two-digit number. */
  lemma PairValue(a: char, b: char)
    requires IsDigit(a) && IsDigit(b)
    ensures DigitsValue([a, b]) == 10 * (a as int - '0' as int) + (b as int - '0' as int)
  {
    DigitValue(a);
    assert [a, b][..1] == [a];
  }

  /** `int(a + '_' + b)` for digits `a` and `b` is the two-digit number: the underscore is skipped. */
  lemma ParseIntUnderscoreDigits(a: char, b: char)
    requires IsDigit(a) && IsDigit(b)
    ensures ParseInt([a, '_', b]) == Ok(10 * (a as int - '0' as int) + (b as int - '0' as int))
  {
    UnderscorePair(a, b);
    PairValue(a, b);
    StripDigitEnds([a, '_', b]);
    ParseIntOfNumeral([a, '_', b]);
  }

  /** `int(a + '__' + b)` fails: two underscores in a row are not a numeral. */
  lemma ParseIntDoubleUnderscore(a: char, b: char)
    requires IsDigit(a) && IsDigit(b)
    ensures ParseInt([a, '_', '_', b]) == Err("invalid literal for int() with base 10: " + Repr([a, '_', '_', b]))
  {
    var s := [a, '_', '_', b];
    StripDigitEnds(s);
    assert !IsNumeral(s) by {
      assert s[1] == '_' && !IsDigit(s[2]);
    }
  }

  /** A minus sign before a numeral reads as the negated numeral. */
  lemma ParseStrippedNegative(t: string)
    requires |t| > 1 && t[0] == '-' && IsNumeral(t[1..])
    ensures ParseStripped(t) == Some(-(NumeralValue(t[1..]) as int))
  {
    assert !IsDigit(t[0]);
  }

  /** A stripped text that reads as an integer gives that integer. */
  lemma ParseIntOfStripped(t: string, v: int)
    requires Strip(t) == t && ParseStripped(t) == Some(v)
    ensures ParseInt(t) == Ok(v)
  {
  }

  /** A minus sign followed by digits worth `v` reads as `-v`. */
  lemma ParseIntNegativeDigits(t: string, d: string, v: nat)
    requires IsDigits(d) && DigitsValue(d) == v && |t| > 1 && t[0] == '-' && t[1..] == d
    ensures ParseInt(t) == Ok(-(v as int))
  {
    assert Strip(t) == t by {
      assert t[|t| - 1] == d[|d| - 1];
    }
    assert !IsDigit(t[0]);
    NumeralOfDigits(d);
    ParseStrippedNegative(t);
    ParseIntOfStripped(t, -(v as int));
  }

  /** `int(str(-n)) == -n`: the sign, then the digits. */
  lemma ParseIntOfNegative(n: nat)
    ensures ParseInt("-" + NatToString(n)) == Ok(-(n as int))
  {
    var d := NatToString(n);
    var t := "-" + d;
    assert t[0] == '-' && t[1..] == d;
    NatToStringValue(n);
    ParseIntNegativeDigits(t, d, n);
  }

  /** `int(str(n)) == n`. */
  lemma ParseIntOfNatToString(n: nat)
    ensures ParseInt(NatToString(n)) == Ok(n)
  {
    NatToStringValue(n);
  }
}
