/**
 * The rest of gif_for_cli/generate/__init__.py: `_run_ffmpeg` (the decode command and the
 * reading of ffmpeg's report on stderr), `_save_config` (the record stored as `config.json`),
 * the one-process branch of `_convert_frames`, and `generate`, which runs the three in turn.
 */
module GenerateRun {
  import opened Wrappers
  import opened Strings
  import opened Effects
  import opened Utils
  import opened CellRender
  import opened Generate

  // ----- _run_ffmpeg: the decode command -----

  /** The `-vf` argument: scale to fit `width` by `height`, keeping the aspect ratio. */
  function ScaleFilter(width: int, height: int): string {
    "scale=w=" + IntToString(width) + ":h=" + IntToString(height) + ":force_original_aspect_ratio=decrease"
  }

  /** The command `_run_ffmpeg` starts: the input's frames as numbered JPEG files in the `jpg` directory. */
  function DecodeCommand(inputSourceFile: string, dirs: map<string, string>, cols: int, rows: int,
                         cellWidth: int, cellHeight: int): seq<string>
    requires "jpg" in dirs
  {
    ["ffmpeg", "-i", inputSourceFile, "-vf", ScaleFilter(cols * cellWidth, rows * cellHeight),
     dirs["jpg"] + "/%04d.jpg"]
  }

  /** `int(str(i)) == i` for every integer. */
  lemma IntToStringParses(i: int)
    ensures ParseInt(IntToString(i)) == Ok(i)
  {
    if i >= 0 {
      ParseIntOfNatToString(i);
    } else {
      ParseIntOfNegative(-i);
    }
  }

  /** `str(i)` holds no `:`. */
  lemma IntToStringNoColon(i: int)
    ensures ':' !in IntToString(i)
  {
    var s := IntToString(i);
    assert !IsDigit(':');
    if i < 0 {
      assert s[1..] == NatToString(-i);
      assert ':' !in s[1..];
      assert s == [s[0]] + s[1..];
    }
  }

  /**
   * ffmpeg reads back from the `-vf` argument the width `cols * cell_width` and the height
   * `rows * cell_height`: the argument splits on `:` into exactly the three scale options.
   */
  lemma DecodeCommandScale(inputSourceFile: string, dirs: map<string, string>, cols: int, rows: int,
                           cellWidth: int, cellHeight: int)
    requires "jpg" in dirs
    ensures var cmd := DecodeCommand(inputSourceFile, dirs, cols, rows, cellWidth, cellHeight);
      var opts := Split(cmd[4], ':');
      && |cmd| == 6 && cmd[0] == "ffmpeg" && cmd[1] == "-i" && cmd[2] == inputSourceFile && cmd[3] == "-vf"
      && |opts| == 3
      && StartsWith(opts[0], "scale=w=") && ParseInt(opts[0][8..]) == Ok(cols * cellWidth)
      && StartsWith(opts[1], "h=") && ParseInt(opts[1][2..]) == Ok(rows * cellHeight)
      && opts[2] == "force_original_aspect_ratio=decrease"
  {
    ScaleFilterOptions(cols * cellWidth, rows * cellHeight);
  }

  lemma JoinThree(a: string, b: string, c: string, sep: char)
    ensures Join([a, b, c], [sep]) == a + [sep] + b + [sep] + c
  {
    assert [a, b, c][1..] == [b, c] && [b, c][1..] == [c];
  }

  /** The three options of the scale filter. */
  function ScaleParts(width: int, height: int): seq<string> {
    ["scale=w=" + IntToString(width), "h=" + IntToString(height), "force_original_aspect_ratio=decrease"]
  }

  lemma ScaleFilterJoin(width: int, height: int)
    ensures Join(ScaleParts(width, height), [':']) == ScaleFilter(width, height)
  {
    var parts := ScaleParts(width, height);
    JoinThree(parts[0], parts[1], parts[2], ':');
    ForceOption();
    FormatJoin(IntToString(width), IntToString(height), parts[2]);
  }

  lemma ForceOption()
    ensures ":force_original_aspect_ratio=decrease" == [':'] + "force_original_aspect_ratio=decrease"
  {
  }

  lemma FormatJoin(w: string, h: string, f: string)
    ensures "scale=w=" + w + ":h=" + h + ([':'] + f) == ("scale=w=" + w) + [':'] + ("h=" + h) + [':'] + f
  {
    assert ":h=" == [':'] + "h=";
    var a := "scale=w=" + w;
    calc {
      a + ":h=" + h + ([':'] + f);
      a + ([':'] + "h=") + h + ([':'] + f);
      a + [':'] + ("h=" + h) + [':'] + f;
    }
  }

  /** Splitting the scale filter on `:` gives back its three options. */
  lemma ScaleFilterSplit(width: int, height: int)
    ensures Split(ScaleFilter(width, height), ':') == ScaleParts(width, height)
  {
    var parts := ScaleParts(width, height);
    IntToStringNoColon(width);
    IntToStringNoColon(height);
    ScaleFilterJoin(width, height);
    assert ':' !in "scale=w=" && ':' !in "h=" && ':' !in parts[2];
    SplitJoin(parts, ':');
  }

  /** The scale filter splits on `:` into the three options, and the two sizes read back. */
  lemma ScaleFilterOptions(width: int, height: int)
    ensures var opts := Split(ScaleFilter(width, height), ':');
      && |opts| == 3
      && StartsWith(opts[0], "scale=w=") && ParseInt(opts[0][8..]) == Ok(width)
      && StartsWith(opts[1], "h=") && ParseInt(opts[1][2..]) == Ok(height)
      && opts[2] == "force_original_aspect_ratio=decrease"
  {
    var w := IntToString(width);
    var h := IntToString(height);
    var parts := ScaleParts(width, height);
    ScaleFilterSplit(width, height);
    assert parts[0][8..] == w && parts[1][2..] == h;
    assert ParseInt(w) == Ok(width) by { IntToStringParses(width); }
    assert ParseInt(h) == Ok(height) by { IntToStringParses(height); }
  }

  /** `'%04d' % n`: the decimal digits of `n`, zero-padded on the left to four. */
  function FrameStem(n: nat): (stem: string)
    ensures IsDigits(stem) && |stem| >= 4
  {
    LeftPadZeros(NatToString(n), 4)
  }

  function LeftPadZeros(s: string, width: nat): (r: string)
    requires IsDigits(s)
    ensures IsDigits(r) && |r| >= width && |r| >= |s|
    decreases width - |s|
  {
    if |s| >= width then s else LeftPadZeros("0" + s, width)
  }

  /** `filename.split('.')[0]`: the frame name of a listed JPEG file. */
  function FrameName(filename: string): (name: string)
    ensures '.' !in name && StartsWith(filename, name)
  {
    SplitFirst(filename, '.');
    Split(filename, '.')[0]
  }

  lemma {:induction false} SplitFirst(s: string, sep: char)
    ensures StartsWith(s, Split(s, sep)[0])
  {
    if |s| > 0 && s[0] != sep {
      SplitFirst(s[1..], sep);
      var r0 := Split(s[1..], sep)[0];
      assert Split(s, sep)[0] == [s[0]] + r0;
      assert s[..|r0| + 1] == [s[0]] + s[1..][..|r0|];
    }
  }

  /**
   * A file `<stem>.jpg` with no dot in `stem` has the frame name `stem`, and `convert_frame`
   * loads exactly that file back.
   */
  lemma FrameNameOfJpg(dirs: map<string, string>, stem: string)
    requires "jpg" in dirs && '.' !in stem
    ensures FrameName(stem + ".jpg") == stem
    ensures JpgPath(dirs, FrameName(stem + ".jpg")) == dirs["jpg"] + "/" + stem + ".jpg"
  {
    SplitPrefix(stem, ".jpg", '.');
    assert Split(".jpg", '.')[0] == "";
    assert stem + "" == stem;
  }

  /**
   * The file ffmpeg writes for frame `n` through the `%04d.jpg` pattern has the frame name
   * `'%04d' % n`, which `convert_frame` loads back from the same path.
   */
  lemma DecodedFrameFile(dirs: map<string, string>, n: nat)
    requires "jpg" in dirs
    ensures FrameName(FrameStem(n) + ".jpg") == FrameStem(n)
    ensures JpgPath(dirs, FrameName(FrameStem(n) + ".jpg")) == dirs["jpg"] + "/" + FrameStem(n) + ".jpg"
  {
    var stem := FrameStem(n);
    assert '.' !in stem by {
      assert !IsDigit('.');
    }
    FrameNameOfJpg(dirs, stem);
  }

  // ----- _run_ffmpeg: reading ffmpeg's report -----

  /** The two patterns `_run_ffmpeg` searches ffmpeg's error output for. */
  datatype Pattern =
    | FramePattern  // frame=\s*(\d+)
    | TimePattern   // time=(\d{2}):(\d{2}):(\d{2}.\d{2})

  /** The end of the run of whitespace that starts at `i`. */
  function SpacesEnd(s: string, i: nat): (j: nat)
    requires i <= |s|
    ensures i <= j <= |s| && (j < |s| ==> !IsSpace(s[j]))
    ensures forall k :: i <= k < j ==> IsSpace(s[k])
    decreases |s| - i
  {
    if i < |s| && IsSpace(s[i]) then SpacesEnd(s, i + 1) else i
  }

  /** The end of the run of decimal digits that starts at `i`. */
  function DigitsEnd(s: string, i: nat): (j: nat)
    requires i <= |s|
    ensures i <= j <= |s| && (j < |s| ==> !IsDigit(s[j]))
    ensures forall k :: i <= k < j ==> IsDigit(s[k])
    decreases |s| - i
  {
    if i < |s| && IsDigit(s[i]) then DigitsEnd(s, i + 1) else i
  }

  /**
   * The pattern matches `s` at position `i`. For `frame=\s*\d+` it is enough to look after the
   * whole whitespace run (see `FrameMatchSpaces`); the `.` of the time pattern is any character
   * but a newline.
   */
  predicate MatchAt(p: Pattern, s: string, i: nat) {
    match p
    case FramePattern =>
      i + 6 <= |s| && s[i..i + 6] == "frame=" && SpacesEnd(s, i + 6) < |s| && IsDigit(s[SpacesEnd(s, i + 6)])
    case TimePattern =>
      && i + 16 <= |s| && s[i..i + 5] == "time="
      && IsDigit(s[i + 5]) && IsDigit(s[i + 6]) && s[i + 7] == ':'
      && IsDigit(s[i + 8]) && IsDigit(s[i + 9]) && s[i + 10] == ':'
      && IsDigit(s[i + 11]) && IsDigit(s[i + 12]) && s[i + 13] != '\n'
      && IsDigit(s[i + 14]) && IsDigit(s[i + 15])
  }

  /**
   * `frame=\s*\d+` matches at `i` exactly when some run of whitespace after `frame=` is followed
   * by a digit: the greedy `\s*` taking the whole run loses no match.
   */
  lemma FrameMatchSpaces(s: string, i: nat)
    ensures MatchAt(FramePattern, s, i) <==>
      && i + 6 <= |s| && s[i..i + 6] == "frame="
      && exists j :: i + 6 <= j < |s| && IsDigit(s[j]) && forall k :: i + 6 <= k < j ==> IsSpace(s[k])
  {
    if i + 6 <= |s| && s[i..i + 6] == "frame=" {
      var e := SpacesEnd(s, i + 6);
      if j :| i + 6 <= j < |s| && IsDigit(s[j]) && forall k :: i + 6 <= k < j ==> IsSpace(s[k]) {
        assert e == j;
      }
    }
  }

  /** A whitespace run from `i` that ends before a non-space at `j` ends at `j`. */
  lemma {:induction false} SpacesEndAt(s: string, i: nat, j: nat)
    requires i <= j < |s| && !IsSpace(s[j])
    requires forall k :: i <= k < j ==> IsSpace(s[k])
    ensures SpacesEnd(s, i) == j
    decreases j - i
  {
    if i < j {
      SpacesEndAt(s, i + 1, j);
    }
  }

  /** A digit run from `i` that ends at the end of `s` or before a non-digit at `j` ends at `j`. */
  lemma {:induction false} DigitsEndAt(s: string, i: nat, j: nat)
    requires i <= j <= |s| && (j < |s| ==> !IsDigit(s[j]))
    requires forall k :: i <= k < j ==> IsDigit(s[k])
    ensures DigitsEnd(s, i) == j
    decreases j - i
  {
    if i < j {
      DigitsEndAt(s, i + 1, j);
    }
  }

  /** `re.search`: the leftmost position from `i` on where the pattern matches, if any. */
  function Search(p: Pattern, s: string, i: nat): (r: Option<nat>)
    requires i <= |s|
    ensures r.Some? ==> i <= r.value <= |s| && MatchAt(p, s, r.value)
    ensures r.Some? ==> forall k :: i <= k < r.value ==> !MatchAt(p, s, k)
    ensures r.None? ==> forall k :: i <= k <= |s| ==> !MatchAt(p, s, k)
    decreases |s| - i
  {
    if MatchAt(p, s, i) then Some(i)
    else if i == |s| then None
    else Search(p, s, i + 1)
  }

  /** The first match is at `i` when the pattern matches there and nowhere before. */
  lemma SearchFinds(p: Pattern, s: string, i: nat)
    requires i <= |s| && MatchAt(p, s, i)
    requires forall k :: 0 <= k < i ==> !MatchAt(p, s, k)
    ensures Search(p, s, 0) == Some(i)
  {
    var r := Search(p, s, 0);
  }

  /** The digits captured by `(\d+)` in a match of `frame=\s*(\d+)` at `i`. */
  function FrameDigits(s: string, i: nat): (d: string)
    requires MatchAt(FramePattern, s, i)
    ensures IsDigits(d)
  {
    var j := SpacesEnd(s, i + 6);
    s[j..DigitsEnd(s, j)]
  }

  /**
   * `int(re.search(r'frame=\s*(\d+)', err).group(1))`; without a match the call of `group` on
   * `None` raises.
   */
  function FrameCount(err: string): (r: Result<nat>)
    ensures r.Ok? <==> exists i :: 0 <= i <= |err| && MatchAt(FramePattern, err, i)
  {
    match Search(FramePattern, err, 0)
    case None => Err("'NoneType' object has no attribute 'group'")
    case Some(i) => Ok(DigitsValue(FrameDigits(err, i)))
  }

  /** `10 ** n`. */
  function Pow10(n: nat): (p: nat)
    ensures p >= 1
  {
    if n == 0 then 1 else 10 * Pow10(n - 1)
  }

  /**
   * `float(t)` on the five characters `\d{2}.\d{2}` matched, in hundredths of a second. The
   * middle character may be a point, a digit, an underscore between digits or an exponent mark;
   * `float` rejects anything else.
   */
  function SecondsField(t: string): (r: Result<nat>)
    requires |t| == 5 && IsDigit(t[0]) && IsDigit(t[1]) && IsDigit(t[3]) && IsDigit(t[4])
    ensures r.Ok? <==> t[2] == '.' || IsDigit(t[2]) || t[2] == '_' || t[2] == 'e' || t[2] == 'E'
  {
    var whole := DigitsValue(t[..2]);
    var low := DigitsValue(t[3..]);
    if t[2] == '.' then Ok(whole * 100 + low)
    else if IsDigit(t[2]) then Ok(DigitsValue(t) * 100)
    else if t[2] == '_' then Ok((whole * 100 + low) * 100)
    else if t[2] == 'e' || t[2] == 'E' then Ok(whole * Pow10(low) * 100)
    else Err("could not convert string to float: '" + t + "'")
  }

  /**
   * The duration in hundredths of a second: `seconds + minutes * 60 + hours * 3600` read from
   * the first `time=HH:MM:SS.hh`; without a match the call of `groups` on `None` raises.
   */
  function Duration(err: string): (r: Result<nat>)
    ensures (forall i :: 0 <= i <= |err| ==> !MatchAt(TimePattern, err, i)) ==> r.Err?
  {
    match Search(TimePattern, err, 0)
    case None => Err("'NoneType' object has no attribute 'groups'")
    case Some(i) =>
      var hours := DigitsValue(err[i + 5..i + 7]);
      var minutes := DigitsValue(err[i + 8..i + 10]);
      match SecondsField(err[i + 11..i + 16])
      case Err(e) => Err(e)
      case Ok(seconds) =>
        var total: nat := seconds + minutes * 6000 + hours * 360000;
        Ok(total)
  }

  /** What `_run_ffmpeg` returns: the frame count and the duration in hundredths of a second. */
  datatype Decoded = Decoded(numFrames: nat, hundredths: nat)

  /** `_run_ffmpeg`'s reading of `err`: the frame count is read first, so its failure is reported first. */
  function ReadReport(err: string): (r: Result<Decoded>)
    ensures r.Ok? <==> FrameCount(err).Ok? && Duration(err).Ok?
    ensures r.Ok? ==> r.value.numFrames == FrameCount(err).value && r.value.hundredths == Duration(err).value
  {
    match FrameCount(err)
    case Err(e) => Err(e)
    case Ok(n) =>
      match Duration(err)
      case Err(e) => Err(e)
      case Ok(h) => Ok(Decoded(n, h))
  }

  /** `'%02d' % n`. */
  function TwoDigits(n: nat): (s: string)
    requires n < 100
    ensures IsDigits(s) && |s| == 2 && DigitsValue(s) == n
  {
    var s := [DigitChar(n / 10), DigitChar(n % 10)];
    assert s[..1] == [DigitChar(n / 10)] && s[..1][..0] == [];
    assert DigitsValue(s[..1]) == n / 10;
    s
  }

  /** ffmpeg's progress field `time=HH:MM:SS.hh`. */
  function TimeField(hh: nat, mm: nat, ss: nat, cs: nat): string
    requires hh < 100 && mm < 100 && ss < 100 && cs < 100
  {
    "time=" + TwoDigits(hh) + ":" + TwoDigits(mm) + ":" + TwoDigits(ss) + "." + TwoDigits(cs)
  }

  /** A `time=HH:MM:SS.hh` field is its pieces at fixed offsets. */
  lemma TimeFieldLayout(hh: nat, mm: nat, ss: nat, cs: nat)
    requires hh < 100 && mm < 100 && ss < 100 && cs < 100
    ensures var t := TimeField(hh, mm, ss, cs);
      && |t| == 16 && t[..5] == "time=" && t[5..7] == TwoDigits(hh) && t[7] == ':'
      && t[8..10] == TwoDigits(mm) && t[10] == ':' && t[11..13] == TwoDigits(ss) && t[13] == '.'
      && t[14..16] == TwoDigits(cs)
  {
    FieldLayout(TwoDigits(hh), TwoDigits(mm), TwoDigits(ss), TwoDigits(cs));
  }

  /** The offsets of `time=HH:MM:SS.hh` for any four two-character pieces. */
  lemma FieldLayout(h: string, m: string, x: string, c: string)
    requires |h| == 2 && |m| == 2 && |x| == 2 && |c| == 2
    ensures var t := "time=" + h + ":" + m + ":" + x + "." + c;
      && |t| == 16 && t[..5] == "time=" && t[5..7] == h && t[7] == ':'
      && t[8..10] == m && t[10] == ':' && t[11..13] == x && t[13] == '.' && t[14..16] == c
  {
    var t := "time=" + h + ":" + m + ":" + x + "." + c;
    assert |t| == 16;
    assert t[..5] == "time=" by { assert forall k | 0 <= k < 5 :: t[k] == "time="[k]; }
    assert t[5..7] == h by { assert t[5] == h[0] && t[6] == h[1]; }
    assert t[8..10] == m by { assert t[8] == m[0] && t[9] == m[1]; }
    assert t[11..13] == x by { assert t[11] == x[0] && t[12] == x[1]; }
    assert t[14..16] == c by { assert t[14] == c[0] && t[15] == c[1]; }
  }

  /** The field `t` sits in `s` at `i`. */
  lemma SliceOfSlice(s: string, t: string, i: nat, a: nat, b: nat)
    requires i + |t| <= |s| && s[i..i + |t|] == t && a <= b <= |t|
    ensures s[i + a..i + b] == t[a..b]
  {
    forall k | 0 <= k < b - a
      ensures s[i + a..i + b][k] == t[a..b][k]
    {
      assert s[i + a + k] == s[i..i + |t|][a + k];
    }
  }

  /**
   * A report whose first `time=` field is written from `hh:mm:ss.cs` reads back as
   * `hh * 3600 + mm * 60 + ss + cs / 100` seconds, in hundredths.
   */
  lemma DurationOfField(prefix: string, hh: nat, mm: nat, ss: nat, cs: nat, rest: string)
    requires hh < 100 && mm < 100 && ss < 100 && cs < 100
    requires forall k :: 0 <= k < |prefix| ==> !MatchAt(TimePattern, prefix + TimeField(hh, mm, ss, cs) + rest, k)
    ensures Duration(prefix + TimeField(hh, mm, ss, cs) + rest) == Ok(hh * 360000 + mm * 6000 + ss * 100 + cs)
  {
    var t := TimeField(hh, mm, ss, cs);
    var s := prefix + t + rest;
    var i := |prefix|;
    TimeFieldLayout(hh, mm, ss, cs);
    assert s[i..i + 16] == t;
    SliceOfSlice(s, t, i, 0, 5);
    SliceOfSlice(s, t, i, 5, 7);
    SliceOfSlice(s, t, i, 8, 10);
    SliceOfSlice(s, t, i, 11, 13);
    SliceOfSlice(s, t, i, 14, 16);
    SliceOfSlice(s, t, i, 11, 16);
    assert t[11..16] == TwoDigits(ss) + "." + TwoDigits(cs);
    assert MatchAt(TimePattern, s, i);
    SearchFinds(TimePattern, s, i);
    var field := s[i + 11..i + 16];
    assert field[..2] == TwoDigits(ss) && field[3..] == TwoDigits(cs) && field[2] == '.';
  }

  /**
   * A report whose first `frame=` field is `n`, after any padding of whitespace, reads back
   * as `n`.
   */
  lemma FrameCountOfField(prefix: string, pad: string, n: nat, rest: string)
    requires forall k :: 0 <= k < |pad| ==> IsSpace(pad[k])
    requires |rest| > 0 ==> !IsDigit(rest[0])
    requires forall k :: 0 <= k < |prefix| ==> !MatchAt(FramePattern, prefix + "frame=" + pad + NatToString(n) + rest, k)
    ensures FrameCount(prefix + "frame=" + pad + NatToString(n) + rest) == Ok(n)
  {
    var digits := NatToString(n);
    var s := prefix + "frame=" + pad + digits + rest;
    var i := |prefix|;
    var j := i + 6 + |pad|;
    var e := j + |digits|;
    assert s[i..i + 6] == "frame=";
    assert forall k :: i + 6 <= k < j ==> s[k] == pad[k - i - 6];
    assert forall k :: j <= k < e ==> s[k] == digits[k - j];
    assert e < |s| ==> s[e] == rest[0];
    assert IsDigit(s[j]) by {
      assert s[j] == digits[0];
    }
    SpacesEndAt(s, i + 6, j);
    assert MatchAt(FramePattern, s, i);
    SearchFinds(FramePattern, s, i);
    DigitsEndAt(s, j, e);
    assert s[j..e] == digits;
    NatToStringValue(n);
  }

  /** Before position `n` no `time=` field can start when no `t` occurs there. */
  lemma NoTimeBefore(s: string, n: nat)
    requires n <= |s| && 't' !in s[..n]
    ensures forall k :: 0 <= k < n ==> !MatchAt(TimePattern, s, k)
  {
    forall k | 0 <= k < n ensures !MatchAt(TimePattern, s, k) {
      assert s[k] == s[..n][k];
    }
  }

  /** The first `time=` field is the one read when no `t` comes before it. */
  lemma DurationAfterNoT(prefix: string, hh: nat, mm: nat, ss: nat, cs: nat, rest: string)
    requires hh < 100 && mm < 100 && ss < 100 && cs < 100 && 't' !in prefix
    ensures Duration(prefix + TimeField(hh, mm, ss, cs) + rest) == Ok(hh * 360000 + mm * 6000 + ss * 100 + cs)
  {
    var s := prefix + TimeField(hh, mm, ss, cs) + rest;
    assert s[..|prefix|] == prefix;
    NoTimeBefore(s, |prefix|);
    DurationOfField(prefix, hh, mm, ss, cs, rest);
  }

  /** The progress line of the decoder run in the program's own test (see `ReadReportExample`). */
  const TEST_PROGRESS_LINE: string :=
    "frame=" + "   " + "11" + " fps=0.0 q=20.2 Lsize=N/A "
    + ("time=" + "00" + ":" + "00" + ":" + "01" + "." + "10") + " bitrate=N/A speed=3.21x"

  lemma FrameCountExample()
    ensures FrameCount(TEST_PROGRESS_LINE) == Ok(11)
  {
    var rest := " fps=0.0 q=20.2 Lsize=N/A "
      + ("time=" + "00" + ":" + "00" + ":" + "01" + "." + "10") + " bitrate=N/A speed=3.21x";
    assert NatToString(11) == "11";
    assert TEST_PROGRESS_LINE == "" + "frame=" + "   " + NatToString(11) + rest;
    FrameCountOfField("", "   ", 11, rest);
  }

  lemma DurationExample()
    ensures Duration(TEST_PROGRESS_LINE) == Ok(110)
  {
    TimeFieldExample();
    NoTBeforeExample();
    DurationOfLine(TEST_PROGRESS_LINE, "frame=" + "   " + "11" + " fps=0.0 q=20.2 Lsize=N/A ",
                   0, 0, 1, 10, " bitrate=N/A speed=3.21x");
  }

  lemma TimeFieldExample()
    ensures TimeField(0, 0, 1, 10) == "time=" + "00" + ":" + "00" + ":" + "01" + "." + "10"
  {
    assert TwoDigits(0) == "00" && TwoDigits(1) == "01" && TwoDigits(10) == "10";
  }

  lemma NoTBeforeExample()
    ensures 't' !in "frame=" + "   " + "11" + " fps=0.0 q=20.2 Lsize=N/A "
  {
    assert 't' !in "frame=" && 't' !in "   " && 't' !in "11" && 't' !in " fps=0.0 q=20.2 Lsize=N/A ";
  }

  /** `DurationAfterNoT` for a line given as a whole. */
  lemma DurationOfLine(line: string, prefix: string, hh: nat, mm: nat, ss: nat, cs: nat, rest: string)
    requires hh < 100 && mm < 100 && ss < 100 && cs < 100 && 't' !in prefix
    requires line == prefix + TimeField(hh, mm, ss, cs) + rest
    ensures Duration(line) == Ok(hh * 360000 + mm * 6000 + ss * 100 + cs)
  {
    DurationAfterNoT(prefix, hh, mm, ss, cs, rest);
  }

  /**
   * The progress line of the decoder run in the program's own test,
   * `frame=   11 fps=0.0 q=20.2 Lsize=N/A time=00:00:01.10 bitrate=N/A speed=3.21x`, reads as
   * 11 frames and 1.1 seconds.
   */
  lemma ReadReportExample()
    ensures ReadReport(TEST_PROGRESS_LINE) == Ok(Decoded(11, 110))
  {
    FrameCountExample();
    DurationExample();
  }

  // ----- _save_config -----

  /** The option values `_save_config` copies into the record; a float duration is kept in hundredths. */
  datatype Value = Null | Str(s: string) | Int(i: int) | Seconds(hundredths: nat)

  /** The options `_save_config` copies, in order. */
  const CONFIG_KEYS: seq<string> := ["input_source", "input_source_file", "cols", "cell_width", "cell_height"]

  /** `options.get(key)`: `None` for a missing key. */
  function Get(options: map<string, Value>, key: string): Value {
    if key in options then options[key] else Null
  }

  /** Where the record is stored and its entries in insertion order. */
  datatype SavedConfig = SavedConfig(path: string, record: seq<(string, Value)>)

  /** `_save_config(num_frames, seconds, **options)`, with `options['output_dirnames']` as `dirs`. */
  function SaveConfig(numFrames: int, hundredths: nat, options: map<string, Value>, dirs: map<string, string>): SavedConfig
    requires "." in dirs
  {
    SavedConfig(dirs["."] + "/config.json",
      [ ("input_source", Get(options, "input_source")),
        ("input_source_file", Get(options, "input_source_file")),
        ("cols", Get(options, "cols")),
        ("cell_width", Get(options, "cell_width")),
        ("cell_height", Get(options, "cell_height")),
        ("num_frames", Int(numFrames)),
        ("seconds", Seconds(hundredths)) ])
  }

  /** The value a JSON reader finds under `key` in a record: that of the first entry with the key. */
  function Lookup(record: seq<(string, Value)>, key: string): Option<Value> {
    if |record| == 0 then None
    else if record[0].0 == key then Some(record[0].1)
    else Lookup(record[1..], key)
  }

  /**
   * The stored record has seven distinct keys: the five copied options (null when absent),
   * `num_frames` and `seconds`; every other key, `output_dirnames` and `rows` among them, is
   * absent. It is stored as `config.json` in the cache directory.
   */
  lemma ConfigLookup(numFrames: int, hundredths: nat, options: map<string, Value>, dirs: map<string, string>, key: string)
    requires "." in dirs
    ensures var c := SaveConfig(numFrames, hundredths, options, dirs);
      && c.path == dirs["."] + "/config.json"
      && |c.record| == 7
      && (forall i, j :: 0 <= i < j < |c.record| ==> c.record[i].0 != c.record[j].0)
      && Lookup(c.record, key) ==
           if key in CONFIG_KEYS then Some(Get(options, key))
           else if key == "num_frames" then Some(Int(numFrames))
           else if key == "seconds" then Some(Seconds(hundredths))
           else None
  {
    var rec := SaveConfig(numFrames, hundredths, options, dirs).record;
    ConfigKeysDistinct(numFrames, hundredths, options, dirs);
    assert forall j :: 0 <= j < 5 ==> rec[j].0 == CONFIG_KEYS[j];
    if i :| 0 <= i < |rec| && rec[i].0 == key {
      LookupAt(rec, i);
      if i < 5 {
        assert CONFIG_KEYS[i] == key;
      } else {
        assert key !in CONFIG_KEYS by {
          forall j | 0 <= j < 5 ensures CONFIG_KEYS[j] != key {
            assert rec[j].0 != rec[i].0;
          }
        }
      }
    } else {
      LookupAbsent(rec, key);
      assert key !in CONFIG_KEYS by {
        forall j | 0 <= j < 5 ensures CONFIG_KEYS[j] != key {
          assert rec[j].0 != key;
        }
      }
      assert rec[5].0 != key && rec[6].0 != key;
    }
  }

  /** The seven keys of the record are distinct. */
  lemma ConfigKeysDistinct(numFrames: int, hundredths: nat, options: map<string, Value>, dirs: map<string, string>)
    requires "." in dirs
    ensures var rec := SaveConfig(numFrames, hundredths, options, dirs).record;
      |rec| == 7 && forall i, j :: 0 <= i < j < |rec| ==> rec[i].0 != rec[j].0
  {
  }

  /** A key that occurs once reads back the value stored with it. */
  lemma {:induction false} LookupAt(record: seq<(string, Value)>, i: nat)
    requires i < |record| && forall j :: 0 <= j < i ==> record[j].0 != record[i].0
    ensures Lookup(record, record[i].0) == Some(record[i].1)
  {
    if i > 0 {
      LookupAt(record[1..], i - 1);
    }
  }

  /** A key that does not occur reads back as absent. */
  lemma {:induction false} LookupAbsent(record: seq<(string, Value)>, key: string)
    requires forall j :: 0 <= j < |record| ==> record[j].0 != key
    ensures Lookup(record, key) == None
  {
    if |record| > 0 {
      LookupAbsent(record[1..], key);
    }
  }

  // ----- _convert_frames, one process -----

  /** The frame names `_convert_frames` converts: each sorted `.jpg` file name cut at its first dot. */
  function FrameNames(entries: seq<DirEntry>): (names: seq<string>)
    ensures |names| == |SortedFilenames(entries, "jpg")|
    ensures forall k :: 0 <= k < |names| ==> names[k] == FrameName(SortedFilenames(entries, "jpg")[k])
  {
    var files := SortedFilenames(entries, "jpg");
    seq(|files|, k requires 0 <= k < |files| => FrameName(files[k]))
  }

  /** The image decoder can read every frame that will be converted. */
  predicate Loadable(names: seq<string>, load: string -> Image, dirs: map<string, string>)
    requires "jpg" in dirs
  {
    forall k :: 0 <= k < |names| ==> ValidImage(load(JpgPath(dirs, names[k])))
  }

  /** The frame `convert_frame` cuts into cells for the frame name `name`. */
  function FrameOf(name: string, load: string -> Image, cellHeight: nat, cellWidth: nat, dirs: map<string, string>): Frame
    requires "jpg" in dirs
  {
    Frame(load(JpgPath(dirs, name)), cellHeight, cellWidth)
  }

  /** What converting each frame does: its three text files. */
  function FrameResults(names: seq<string>, load: string -> Image, cellHeight: nat, cellWidth: nat,
                        dirs: map<string, string>, rd: Rendering): (rs: seq<seq<Event>>)
    requires HasFrameDirs(dirs) && ValidRendering(rd) && cellHeight > 0 && cellWidth > 0
    requires Loadable(names, load, dirs)
    ensures |rs| == |names|
  {
    seq(|names|, k requires 0 <= k < |names| =>
      FrameFiles(FrameOf(names[k], load, cellHeight, cellWidth, dirs), rd, dirs, names[k]))
  }

  /** The log of the one-process `_convert_frames`: the frames converted as the progress report draws them. */
  function FramesLog(names: seq<string>, load: string -> Image, cellHeight: nat, cellWidth: nat,
                     dirs: map<string, string>, rd: Rendering): seq<Event>
    requires HasFrameDirs(dirs) && ValidRendering(rd) && cellHeight > 0 && cellWidth > 0
    requires Loadable(names, load, dirs)
  {
    ProgressEvents(|names|, FrameResults(names, load, cellHeight, cellWidth, dirs, rd), |names| + 1) + [Write("\n")]
  }

  /**
   * `_convert_frames` with `cpu_pool_size == 1`: the frame names are read from the `jpg`
   * directory's listing `entries`, and each frame is converted when the progress report draws it.
   */
  method ConvertFrames(entries: seq<DirEntry>, load: string -> Image, cellHeight: nat, cellWidth: nat,
                       dirs: map<string, string>, rd: Rendering) returns (events: seq<Event>)
    requires HasFrameDirs(dirs) && ValidRendering(rd) && cellHeight > 0 && cellWidth > 0
    requires Loadable(FrameNames(entries), load, dirs)
    ensures events == FramesLog(FrameNames(entries), load, cellHeight, cellWidth, dirs, rd)
  {
    var names := FrameNames(entries);
    var results := ConvertEach(names, load, cellHeight, cellWidth, dirs, rd);
    events := LogFrameProgress(|names|, results);
  }

  /** The generator of `_convert_frames`: `convert_frame` on each name in turn. */
  method ConvertEach(names: seq<string>, load: string -> Image, cellHeight: nat, cellWidth: nat,
                     dirs: map<string, string>, rd: Rendering) returns (results: seq<seq<Event>>)
    requires HasFrameDirs(dirs) && ValidRendering(rd) && cellHeight > 0 && cellWidth > 0
    requires Loadable(names, load, dirs)
    ensures results == FrameResults(names, load, cellHeight, cellWidth, dirs, rd)
  {
    ghost var all := FrameResults(names, load, cellHeight, cellWidth, dirs, rd);
    results := [];
    for i := 0 to |names|
      invariant results == all[..i]
    {
      var converted := ConvertFrame(names[i], load, cellHeight, cellWidth, dirs, rd);
      var frameEvents := converted.value;
      FrameResultsAt(names, load, cellHeight, cellWidth, dirs, rd, i);
      PrefixStep(all, i, frameEvents);
      results := results + [frameEvents];
    }
    assert all[..|names|] == all;
  }

  /** Entry `i` of `FrameResults` is `convert_frame` on the `i`-th name. */
  lemma FrameResultsAt(names: seq<string>, load: string -> Image, cellHeight: nat, cellWidth: nat,
                       dirs: map<string, string>, rd: Rendering, i: nat)
    requires HasFrameDirs(dirs) && ValidRendering(rd) && cellHeight > 0 && cellWidth > 0
    requires Loadable(names, load, dirs) && i < |names|
    ensures FrameResults(names, load, cellHeight, cellWidth, dirs, rd)[i]
         == FrameFiles(Frame(load(JpgPath(dirs, names[i])), cellHeight, cellWidth), rd, dirs, names[i])
  {
  }

  /** Appending entry `i` to the first `i` entries gives the first `i + 1`. */
  lemma PrefixStep<T>(all: seq<T>, i: nat, x: T)
    requires i < |all| && all[i] == x
    ensures all[..i] + [x] == all[..i + 1]
  {
  }

  /** The three text files of a frame: path and content of its nocolor, 256-colour and truecolor renderings. */
  function FrameTexts(f: Frame, rd: Rendering, dirs: map<string, string>, name: string): seq<(string, string)>
    requires ValidFrame(f) && ValidRendering(rd) && HasFrameDirs(dirs)
  {
    [ (TxtPath(dirs, "nocolor", name), Join(NocolorLines(f, rd), "\n")),
      (TxtPath(dirs, "256", name), Join(Lines256(f, rd), "\n")),
      (TxtPath(dirs, "truecolor", name), Join(LinesTruecolor(f, rd), "\n")) ]
  }

  /** Converting a frame writes its three files and nothing to stdout. */
  lemma FrameFilesQuiet(f: Frame, rd: Rendering, dirs: map<string, string>, name: string)
    requires ValidFrame(f) && ValidRendering(rd) && HasFrameDirs(dirs)
    ensures var events := FrameFiles(f, rd, dirs, name);
      Output(events) == "" && Flushes(events) == 0 && FilesWritten(events) == FrameTexts(f, rd, dirs, name)
  {
    var texts := FrameTexts(f, rd, dirs, name);
    ThreeWrites(texts[0].0, texts[0].1, texts[1].0, texts[1].1, texts[2].0, texts[2].1);
  }

  /** Three file writes write those files, in order, and nothing to stdout. */
  lemma ThreeWrites(p1: string, c1: string, p2: string, c2: string, p3: string, c3: string)
    ensures var events := [WriteFile(p1, c1), WriteFile(p2, c2), WriteFile(p3, c3)];
      Output(events) == "" && Flushes(events) == 0 && FilesWritten(events) == [(p1, c1), (p2, c2), (p3, c3)]
  {
    var a, b, c := [WriteFile(p1, c1)], [WriteFile(p2, c2)], [WriteFile(p3, c3)];
    assert [WriteFile(p1, c1), WriteFile(p2, c2), WriteFile(p3, c3)] == a + b + c;
    Append3(a, b, c);
    Single(a[0]);
    Single(b[0]);
    Single(c[0]);
    FilesWrittenAppend(a + b, c);
    FilesWrittenAppend(a, b);
    assert a[..0] == [] && b[..0] == [] && c[..0] == [];
  }

  /**
   * What the one-process `_convert_frames` writes to stdout: the messages `Processed k/n
   * frames...` for `k` from 0 to the number of frames, separated by the clear-line sequence, then
   * one newline; stdout is flushed once per message.
   */
  lemma FramesLogOutput(names: seq<string>, load: string -> Image, cellHeight: nat, cellWidth: nat,
                        dirs: map<string, string>, rd: Rendering)
    requires HasFrameDirs(dirs) && ValidRendering(rd) && cellHeight > 0 && cellWidth > 0
    requires Loadable(names, load, dirs)
    ensures var events := FramesLog(names, load, cellHeight, cellWidth, dirs, rd);
      && Output(events) == Join(Messages(|names|, |names|), CLEAR_LINE) + "\n"
      && Flushes(events) == |names| + 1
  {
    var results := FrameResults(names, load, cellHeight, cellWidth, dirs, rd);
    ResultsQuiet(names, load, cellHeight, cellWidth, dirs, rd);
    QuietProgressLog(results);
  }

  /** No frame's conversion writes to stdout or flushes it. */
  lemma ResultsQuiet(names: seq<string>, load: string -> Image, cellHeight: nat, cellWidth: nat,
                     dirs: map<string, string>, rd: Rendering)
    requires HasFrameDirs(dirs) && ValidRendering(rd) && cellHeight > 0 && cellWidth > 0
    requires Loadable(names, load, dirs)
    ensures var results := FrameResults(names, load, cellHeight, cellWidth, dirs, rd);
      forall k :: 0 <= k < |results| ==> Output(results[k]) == "" && Flushes(results[k]) == 0
  {
    var results := FrameResults(names, load, cellHeight, cellWidth, dirs, rd);
    forall k | 0 <= k < |results| ensures Output(results[k]) == "" && Flushes(results[k]) == 0 {
      FrameFilesQuiet(FrameOf(names[k], load, cellHeight, cellWidth, dirs), rd, dirs, names[k]);
    }
  }

  /** The progress report over quiet work, closed by its newline: the messages and one flush each. */
  lemma QuietProgressLog(results: seq<seq<Event>>)
    requires forall k :: 0 <= k < |results| ==> Output(results[k]) == "" && Flushes(results[k]) == 0
    ensures var events := ProgressEvents(|results|, results, |results| + 1) + [Write("\n")];
      && Output(events) == Join(Messages(|results|, |results|), CLEAR_LINE) + "\n"
      && Flushes(events) == |results| + 1
  {
    var progress := ProgressEvents(|results|, results, |results| + 1);
    var tail := [Write("\n")];
    assert Output(progress) == Join(Messages(|results|, |results|), CLEAR_LINE) by {
      ProgressOutput(|results|, results, |results| + 1);
    }
    assert Flushes(progress) == |results| + 1 by {
      ProgressFlushes(|results|, results, |results| + 1);
    }
    assert Output(tail) == "\n" && Flushes(tail) == 0 by {
      Single(Write("\n"));
    }
    OutputAppend(progress, tail);
    FlushesAppend(progress, tail);
  }

  /** The files the work of the first `n` items writes, in item order. */
  function ResultFiles(results: seq<seq<Event>>, n: nat): seq<(string, string)>
    requires n <= |results|
  {
    if n == 0 then [] else ResultFiles(results, n - 1) + FilesWritten(results[n - 1])
  }

  /** A log without file writes writes no file. */
  lemma {:induction false} NoFiles(events: seq<Event>)
    requires forall k :: 0 <= k < |events| ==> !events[k].WriteFile?
    ensures FilesWritten(events) == []
  {
    if |events| > 0 {
      NoFiles(events[..|events| - 1]);
    }
  }

  /** The progress report writes no file itself: the files written are those of the work it draws. */
  lemma {:induction false} ProgressFiles(total: int, results: seq<seq<Event>>, count: nat)
    requires 1 <= count <= |results| + 1
    ensures FilesWritten(ProgressEvents(total, results, count)) == ResultFiles(results, count - 1)
  {
    var prev := ProgressEvents(total, results, count - 1);
    var message := ProgressMessage(count - 1, total);
    if count == 1 {
      assert ProgressEvents(total, results, count) == prev + [] + [Write(message), Flush];
      StepFiles(prev, [], message);
    } else {
      assert ProgressEvents(total, results, count)
          == prev + (results[count - 2] + [Write(CLEAR_LINE)]) + [Write(message), Flush];
      ProgressFiles(total, results, count - 1);
      FilesWrittenAppend(results[count - 2], [Write(CLEAR_LINE)]);
      NoFiles([Write(CLEAR_LINE)]);
      StepFiles(prev, results[count - 2] + [Write(CLEAR_LINE)], message);
    }
  }

  /** One turn of the report adds the files of the work it draws and nothing else. */
  lemma StepFiles(prev: seq<Event>, work: seq<Event>, message: string)
    ensures FilesWritten(prev + work + [Write(message), Flush]) == FilesWritten(prev) + FilesWritten(work)
  {
    var tail := [Write(message), Flush];
    FilesWrittenAppend(prev + work, tail);
    FilesWrittenAppend(prev, work);
    NoFiles(tail);
  }

  /** With three files per item, item `k`'s files are entries `3k` to `3k + 2`. */
  lemma {:induction false} ResultFilesChunks(results: seq<seq<Event>>, n: nat)
    requires n <= |results|
    requires forall k :: 0 <= k < |results| ==> |FilesWritten(results[k])| == 3
    ensures |ResultFiles(results, n)| == 3 * n
    ensures forall k :: 0 <= k < n ==> ResultFiles(results, n)[3 * k..3 * k + 3] == FilesWritten(results[k])
  {
    if n > 0 {
      ResultFilesChunks(results, n - 1);
      var before := ResultFiles(results, n - 1);
      var all := ResultFiles(results, n);
      assert all == before + FilesWritten(results[n - 1]);
      forall k | 0 <= k < n ensures all[3 * k..3 * k + 3] == FilesWritten(results[k]) {
        if k < n - 1 {
          assert all[3 * k..3 * k + 3] == before[3 * k..3 * k + 3];
        } else {
          assert all[3 * k..3 * k + 3] == all[|before|..];
        }
      }
    }
  }

  /**
   * With one process, `_convert_frames` converts every listed frame once, in listing order: the
   * files written are, frame by frame, its nocolor, 256-colour and truecolor text files, and no
   * other file is written.
   */
  lemma FramesLogFiles(names: seq<string>, load: string -> Image, cellHeight: nat, cellWidth: nat,
                       dirs: map<string, string>, rd: Rendering)
    requires HasFrameDirs(dirs) && ValidRendering(rd) && cellHeight > 0 && cellWidth > 0
    requires Loadable(names, load, dirs)
    ensures var files := FilesWritten(FramesLog(names, load, cellHeight, cellWidth, dirs, rd));
      && |files| == 3 * |names|
      && forall k :: 0 <= k < |names| ==>
           files[3 * k..3 * k + 3] == FrameTexts(FrameOf(names[k], load, cellHeight, cellWidth, dirs), rd, dirs, names[k])
  {
    var results := FrameResults(names, load, cellHeight, cellWidth, dirs, rd);
    FrameResultsTexts(names, load, cellHeight, cellWidth, dirs, rd);
    LogFilesChunks(|names|, results);
  }

  /** After the whole report, with three files per item, item `k`'s files are entries `3k` to `3k + 2`. */
  lemma LogFilesChunks(total: int, results: seq<seq<Event>>)
    requires forall k :: 0 <= k < |results| ==> |FilesWritten(results[k])| == 3
    ensures var files := FilesWritten(ProgressEvents(total, results, |results| + 1) + [Write("\n")]);
      && |files| == 3 * |results|
      && forall k :: 0 <= k < |results| ==> files[3 * k..3 * k + 3] == FilesWritten(results[k])
  {
    var progress := ProgressEvents(total, results, |results| + 1);
    var tail := [Write("\n")];
    ProgressFiles(total, results, |results| + 1);
    ResultFilesChunks(results, |results|);
    FilesWrittenAppend(progress, tail);
    NoFiles(tail);
    assert FilesWritten(progress + tail) == ResultFiles(results, |results|);
  }

  /** Each frame's work writes that frame's three text files. */
  lemma FrameResultsTexts(names: seq<string>, load: string -> Image, cellHeight: nat, cellWidth: nat,
                          dirs: map<string, string>, rd: Rendering)
    requires HasFrameDirs(dirs) && ValidRendering(rd) && cellHeight > 0 && cellWidth > 0
    requires Loadable(names, load, dirs)
    ensures var results := FrameResults(names, load, cellHeight, cellWidth, dirs, rd);
      forall k :: 0 <= k < |names| ==>
        FilesWritten(results[k]) == FrameTexts(FrameOf(names[k], load, cellHeight, cellWidth, dirs), rd, dirs, names[k])
  {
    var results := FrameResults(names, load, cellHeight, cellWidth, dirs, rd);
    forall k | 0 <= k < |names|
      ensures FilesWritten(results[k]) == FrameTexts(FrameOf(names[k], load, cellHeight, cellWidth, dirs), rd, dirs, names[k])
    {
      FrameFilesQuiet(FrameOf(names[k], load, cellHeight, cellWidth, dirs), rd, dirs, names[k]);
    }
  }

  // ----- generate -----

  /** The options `generate` passes on (the ones read by the three steps). */
  datatype Options = Options(inputSource: string, inputSourceFile: string, dirs: map<string, string>,
                             cols: int, rows: int, cellWidth: int, cellHeight: int)

  /** The options as the keyword dictionary `_save_config` reads with `get`. */
  function OptionValues(o: Options): map<string, Value> {
    map["input_source" := Str(o.inputSource), "input_source_file" := Str(o.inputSourceFile),
        "cols" := Int(o.cols), "rows" := Int(o.rows),
        "cell_width" := Int(o.cellWidth), "cell_height" := Int(o.cellHeight)]
  }

  /**
   * `generate(**options)` with one process. ffmpeg is outside the model: `err` is its error
   * output and `entries` the listing of the `jpg` directory it fills. When the report cannot be
   * read, the exception leaves no config record and converts no frame.
   */
  method GenerateCache(o: Options, err: string, entries: seq<DirEntry>, load: string -> Image, rd: Rendering)
    returns (cmd: seq<string>, config: Result<SavedConfig>, events: seq<Event>)
    requires HasFrameDirs(o.dirs) && "." in o.dirs && ValidRendering(rd) && o.cellWidth > 0 && o.cellHeight > 0
    requires Loadable(FrameNames(entries), load, o.dirs)
    ensures cmd == DecodeCommand(o.inputSourceFile, o.dirs, o.cols, o.rows, o.cellWidth, o.cellHeight)
    ensures config.Ok? <==> ReadReport(err).Ok?
    ensures config.Err? ==> config.message == ReadReport(err).message && events == []
    ensures config.Ok? ==>
      && config.value == SaveConfig(ReadReport(err).value.numFrames, ReadReport(err).value.hundredths, OptionValues(o), o.dirs)
      && events == FramesLog(FrameNames(entries), load, o.cellHeight, o.cellWidth, o.dirs, rd)
  {
    cmd := DecodeCommand(o.inputSourceFile, o.dirs, o.cols, o.rows, o.cellWidth, o.cellHeight);
    var report := ReadReport(err);
    if report.Err? {
      config := Err(report.message);
      events := [];
      return;
    }
    config := Ok(SaveConfig(report.value.numFrames, report.value.hundredths, OptionValues(o), o.dirs));
    events := ConvertFrames(entries, load, o.cellHeight, o.cellWidth, o.dirs, rd);
  }

  /**
   * The record `generate` stores holds the input, its file, the column count and the cell size
   * it was called with, and the frame count and duration ffmpeg reported; the row count is not
   * stored.
   */
  lemma GenerateConfig(o: Options, numFrames: nat, hundredths: nat)
    requires "." in o.dirs
    ensures var rec := SaveConfig(numFrames, hundredths, OptionValues(o), o.dirs).record;
      && Lookup(rec, "input_source") == Some(Str(o.inputSource))
      && Lookup(rec, "input_source_file") == Some(Str(o.inputSourceFile))
      && Lookup(rec, "cols") == Some(Int(o.cols))
      && Lookup(rec, "cell_width") == Some(Int(o.cellWidth))
      && Lookup(rec, "cell_height") == Some(Int(o.cellHeight))
      && Lookup(rec, "num_frames") == Some(Int(numFrames))
      && Lookup(rec, "seconds") == Some(Seconds(hundredths))
      && Lookup(rec, "rows") == None
  {
    var values := OptionValues(o);
    ConfigLookup(numFrames, hundredths, values, o.dirs, "input_source");
    ConfigLookup(numFrames, hundredths, values, o.dirs, "input_source_file");
    ConfigLookup(numFrames, hundredths, values, o.dirs, "cols");
    ConfigLookup(numFrames, hundredths, values, o.dirs, "cell_width");
    ConfigLookup(numFrames, hundredths, values, o.dirs, "cell_height");
    ConfigLookup(numFrames, hundredths, values, o.dirs, "num_frames");
    ConfigLookup(numFrames, hundredths, values, o.dirs, "seconds");
    ConfigLookup(numFrames, hundredths, values, o.dirs, "rows");
  }
}
