/**
 * The truecolor text frames written by gif_for_cli/generate/__init__.py and read back by
 * `export_txt_frame` in gif_for_cli/export.py: exporting such a frame draws every cell, in
 * row-major order, with the cell's exact average colour on the default black background.
 */
module TruecolorRoundTrip {
  import opened Wrappers
  import opened Strings
  import opened X256Fgbg
  import opened CellRender
  import opened Generate
  import opened Export

  /**
   * A placeholder the escape sequences of a `truecolor` token cannot contain, so that
   * replacing it touches only the cell characters, and that does not split a line.
   */
  predicate PlainChar(ch: char) {
    ch != ESC && ch != '\n' && ch != 'm' && ch != ';' && ch != '[' && !IsDigit(ch)
  }

  /** The `truecolor` tokens of one row of cell colours. */
  function TruecolorTokens(cs: seq<Rgb>, ch: char): (ts: seq<string>)
    ensures |ts| == |cs|
  {
    seq(|cs|, i requires 0 <= i < |cs| => GetTruecolorCell(cs[i], ch))
  }

  /** What the scanner should draw for one row: cell `i` in the colour `cs[i]` on `bg`. */
  function TruecolorDraws(row: nat, cs: seq<Rgb>, ch: char, bg: Colour): (ds: seq<Draw>)
    ensures |ds| == |cs|
  {
    seq(|cs|, i requires 0 <= i < |cs| => Draw(i, row, ch, bg, Channels(cs[i])))
  }

  /** The colours of one row of cells of a frame. */
  function RowColours(f: Frame, row: nat): (cs: seq<Rgb>)
    requires ValidFrame(f) && row < Rows(f)
    ensures |cs| == Cols(f)
  {
    seq(Cols(f), c requires 0 <= c < Cols(f) => CellColour(f, row, c))
  }

  /** The lines of a file of `truecolor` tokens, one line per row of colours. */
  function TokenLines(rows: seq<seq<Rgb>>, ch: char): (ls: seq<string>)
    ensures |ls| == |rows|
  {
    seq(|rows|, r requires 0 <= r < |rows| => Concat(TruecolorTokens(rows[r], ch)))
  }

  /** What the scanner should draw for such a file, row by row, on the default black background. */
  function RowsDraws(rows: seq<seq<Rgb>>, ch: char): (ds: seq<seq<Draw>>)
    ensures |ds| == |rows| && forall r :: 0 <= r < |rows| ==> |ds[r]| == |rows[r]|
  {
    seq(|rows|, r requires 0 <= r < |rows| => TruecolorDraws(r, rows[r], ch, BLACK_BG))
  }

  /** The colours of a frame's cells, row by row. */
  function FrameColours(f: Frame): (rows: seq<seq<Rgb>>)
    requires ValidFrame(f)
    ensures |rows| == Rows(f) && forall r :: 0 <= r < Rows(f) ==> |rows[r]| == Cols(f)
  {
    seq(Rows(f), r requires 0 <= r < Rows(f) => RowColours(f, r))
  }

  /** The decimal form of a number holds nothing but digits. */
  lemma NotInDigits(n: nat, ch: char)
    requires !IsDigit(ch)
    ensures ch !in NatToString(n)
  {
    var s := NatToString(n);
    forall i | 0 <= i < |s| ensures s[i] != ch {
      assert IsDigit(s[i]);
    }
  }

  /** Replacing the placeholder of a `truecolor` token swaps its cell character and nothing else. */
  lemma ReplaceTruecolorCell(c: Rgb, p: char, cc: char)
    requires PlainChar(p)
    ensures Replace(GetTruecolorCell(c, p), p, [cc]) == GetTruecolorCell(c, cc)
  {
    var prefix := [ESC] + "[38;2;" + NatToString(c.r) + ";" + NatToString(c.g) + ";" + NatToString(c.b) + "m";
    NotInDigits(c.r, p);
    NotInDigits(c.g, p);
    NotInDigits(c.b, p);
    assert p !in prefix;
    assert GetTruecolorCell(c, p) == prefix + [p];
    ReplaceConcat(prefix, [p], p, [cc]);
    assert Replace([p], p, [cc]) == [cc] + Replace([], p, [cc]);
  }

  /** `replace` distributes over the concatenation of a row's tokens. */
  lemma {:induction false} ReplaceConcatAll(ts: seq<string>, us: seq<string>, p: char, cc: char)
    requires |ts| == |us| && forall i :: 0 <= i < |ts| ==> Replace(ts[i], p, [cc]) == us[i]
    ensures Replace(Concat(ts), p, [cc]) == Concat(us)
  {
    if |ts| > 0 {
      var n := |ts| - 1;
      assert ts == ts[..n] + [ts[n]] && us == us[..n] + [us[n]];
      ReplaceConcatAll(ts[..n], us[..n], p, cc);
      ConcatAppend(ts[..n], ts[n]);
      ConcatAppend(us[..n], us[n]);
      ReplaceConcat(Concat(ts[..n]), ts[n], p, [cc]);
    }
  }

  /** `replace` distributes over the lines of a file when the placeholder is not a newline. */
  lemma {:induction false} ReplaceJoin(ls: seq<string>, ms: seq<string>, p: char, cc: char)
    requires p != '\n'
    requires |ls| == |ms| && forall i :: 0 <= i < |ls| ==> Replace(ls[i], p, [cc]) == ms[i]
    ensures Replace(Join(ls, "\n"), p, [cc]) == Join(ms, "\n")
  {
    if |ls| > 1 {
      var n := |ls| - 1;
      assert ls == ls[..n] + [ls[n]] && ms == ms[..n] + [ms[n]];
      ReplaceJoin(ls[..n], ms[..n], p, cc);
      JoinAppend(ls[..n], "\n", ls[n]);
      JoinAppend(ms[..n], "\n", ms[n]);
      ReplaceConcat(Join(ls[..n], "\n") + "\n", ls[n], p, [cc]);
      ReplaceConcat(Join(ls[..n], "\n"), "\n", p, [cc]);
      assert Replace("\n", p, [cc]) == "\n" + Replace([], p, [cc]);
    }
  }

  /** A character that no part contains is not in their concatenation. */
  lemma {:induction false} NotInConcat(ts: seq<string>, x: char)
    requires forall i :: 0 <= i < |ts| ==> x !in ts[i]
    ensures x !in Concat(ts)
  {
    if |ts| > 0 {
      NotInConcat(ts[1..], x);
      assert x !in ts[0];
    }
  }

  /** A row of `truecolor` tokens holds no newline, so splitting the file recovers its lines. */
  lemma NoNewlineInTokens(cs: seq<Rgb>, ch: char)
    requires ch != '\n'
    ensures '\n' !in Concat(TruecolorTokens(cs, ch))
  {
    var ts := TruecolorTokens(cs, ch);
    forall i | 0 <= i < |ts| ensures '\n' !in ts[i] {
      var c := cs[i];
      NotInDigits(c.r, '\n');
      NotInDigits(c.g, '\n');
      NotInDigits(c.b, '\n');
    }
    NotInConcat(ts, '\n');
  }

  /** Scanning one more `truecolor` token after a scan that left the pen settled draws one more cell. */
  lemma ScanTruecolorStep(s: Scan, row: nat, ts: seq<string>, k: nat, t: Scan, c: Rgb, ch: char, toRgb: int -> Colour)
    requires 0 < k <= |ts| && ts[k - 1] == GetTruecolorCell(c, ch)
    requires ScanLine(s, row, Concat(ts[..k - 1]), toRgb) == Ok(t) && Settled(t.pen) && ch != ESC
    ensures ScanLine(s, row, Concat(ts[..k]), toRgb)
      == Ok(Scan(Pen(t.pen.bg, Channels(c), false, ""), t.col + 1, t.draws + [Draw(t.col, row, ch, t.pen.bg, Channels(c))]))
  {
    assert ts[..k] == ts[..k - 1] + [ts[k - 1]];
    ConcatAppend(ts[..k - 1], ts[k - 1]);
    ScanLineAppend(s, row, Concat(ts[..k - 1]), ts[k - 1], toRgb);
    ScanTruecolorCell(t, row, c, ch, toRgb);
  }

  /** The state after scanning the first `k` tokens of a row from column 0 (see `ScanTruecolorPrefix`). */
  function AfterTokens(s: Scan, row: nat, cs: seq<Rgb>, ch: char, k: nat): Scan
    requires k <= |cs|
  {
    Scan(Pen(s.pen.bg, if k == 0 then s.pen.fg else Channels(cs[k - 1]), false, ""),
         k, s.draws + TruecolorDraws(row, cs, ch, s.pen.bg)[..k])
  }

  /** One more token of the row extends the state by one cell. */
  lemma ScanTruecolorNext(s: Scan, row: nat, cs: seq<Rgb>, ch: char, k: nat, toRgb: int -> Colour)
    requires ch != ESC && 0 < k <= |cs|
    requires ScanLine(s, row, Concat(TruecolorTokens(cs, ch)[..k - 1]), toRgb) == Ok(AfterTokens(s, row, cs, ch, k - 1))
    ensures ScanLine(s, row, Concat(TruecolorTokens(cs, ch)[..k]), toRgb) == Ok(AfterTokens(s, row, cs, ch, k))
  {
    var ts := TruecolorTokens(cs, ch);
    var ds := TruecolorDraws(row, cs, ch, s.pen.bg);
    var t := AfterTokens(s, row, cs, ch, k - 1);
    var d := Draw(k - 1, row, ch, s.pen.bg, Channels(cs[k - 1]));
    assert AfterTokens(s, row, cs, ch, k) == Scan(Pen(t.pen.bg, Channels(cs[k - 1]), false, ""), t.col + 1, t.draws + [d]) by {
      assert ds[k - 1] == d;
      assert ds[..k] == ds[..k - 1] + [d];
    }
    ScanTruecolorStep(s, row, ts, k, t, cs[k - 1], ch, toRgb);
  }

  /**
   * Scanning the first `k` tokens of a row from column 0 draws the first `k` cells, each in
   * its own colour on the pen's background, and leaves the pen settled on the last colour.
   */
  lemma {:induction false} ScanTruecolorPrefix(s: Scan, row: nat, cs: seq<Rgb>, ch: char, k: nat, toRgb: int -> Colour)
    requires Settled(s.pen) && s.col == 0 && ch != ESC && k <= |cs|
    ensures ScanLine(s, row, Concat(TruecolorTokens(cs, ch)[..k]), toRgb) == Ok(AfterTokens(s, row, cs, ch, k))
  {
    if k == 0 {
      var ts := TruecolorTokens(cs, ch);
      var ds := TruecolorDraws(row, cs, ch, s.pen.bg);
      assert ts[..0] == [] && ds[..0] == [];
      assert Concat(ts[..0]) == "";
      assert s == AfterTokens(s, row, cs, ch, 0);
    } else {
      ScanTruecolorPrefix(s, row, cs, ch, k - 1, toRgb);
      ScanTruecolorNext(s, row, cs, ch, k, toRgb);
    }
  }

  /** The draws of the first `n` rows are those of the first `n - 1` rows, then row `n - 1`'s. */
  lemma RowsDrawsNext(rows: seq<seq<Rgb>>, ch: char, n: nat)
    requires 0 < n <= |rows|
    ensures Flatten(RowsDraws(rows, ch)[..n - 1]) + TruecolorDraws(n - 1, rows[n - 1], ch, BLACK_BG)[..|rows[n - 1]|]
      == Flatten(RowsDraws(rows, ch)[..n])
  {
    var all := RowsDraws(rows, ch);
    var ds := TruecolorDraws(n - 1, rows[n - 1], ch, BLACK_BG);
    assert ds[..|rows[n - 1]|] == ds && all[n - 1] == ds;
    FlattenSnoc(all, n - 1);
  }

  /** Scanning one more line of `truecolor` tokens from where the previous lines left off. */
  lemma ScanTruecolorRow(lines: seq<string>, rows: seq<seq<Rgb>>, ch: char, n: nat, t: Scan, toRgb: int -> Colour)
    requires |lines| == |rows| && 0 < n <= |lines| && ch != ESC
    requires lines[n - 1] == Concat(TruecolorTokens(rows[n - 1], ch))
    requires ScanLines(lines, n - 1, toRgb) == Ok(t) && Settled(t.pen)
    ensures ScanLines(lines, n, toRgb) == Ok(AfterTokens(Scan(t.pen, 0, t.draws), n - 1, rows[n - 1], ch, |rows[n - 1]|))
  {
    var cs := rows[n - 1];
    var ts := TruecolorTokens(cs, ch);
    assert ts[..|cs|] == ts;
    ScanTruecolorPrefix(Scan(t.pen, 0, t.draws), n - 1, cs, ch, |cs|, toRgb);
  }

  /**
   * Scanning the first `n` lines of a file whose every line is a row of `truecolor` tokens:
   * the draws are those rows' cells in order, the background is still black, the pen is
   * settled, and the column counter stands at the length of the last line scanned.
   */
  lemma {:induction false} ScanTruecolorRows(lines: seq<string>, rows: seq<seq<Rgb>>, ch: char, n: nat, toRgb: int -> Colour)
    requires |lines| == |rows| && n <= |lines| && ch != ESC
    requires forall r :: 0 <= r < |rows| ==> lines[r] == Concat(TruecolorTokens(rows[r], ch))
    ensures ScanLines(lines, n, toRgb).Ok?
    ensures var t := ScanLines(lines, n, toRgb).value;
      && Settled(t.pen) && t.pen.bg == BLACK_BG
      && t.draws == Flatten(RowsDraws(rows, ch)[..n])
      && (n > 0 ==> t.col == |rows[n - 1]|)
  {
    if n == 0 {
      assert RowsDraws(rows, ch)[..0] == [];
    } else {
      ScanTruecolorRows(lines, rows, ch, n - 1, toRgb);
      var t := ScanLines(lines, n - 1, toRgb).value;
      ScanTruecolorRow(lines, rows, ch, n, t, toRgb);
      RowsDrawsNext(rows, ch, n);
    }
  }

  /**
   * After the placeholder is replaced, a frame's `truecolor` file is the rows of tokens of its
   * cell colours for the new character.
   */
  lemma ReplacedTruecolorFile(f: Frame, rd: Rendering, cc: char)
    requires ValidFrame(f) && PlainChar(rd.cellChar) && cc != '\n'
    ensures Replace(Join(LinesTruecolor(f, rd), "\n"), rd.cellChar, [cc]) == Join(TokenLines(FrameColours(f), cc), "\n")
  {
    var rd' := rd.(cellChar := cc);
    var ls, ms := LinesTruecolor(f, rd), LinesTruecolor(f, rd');
    forall r | 0 <= r < Rows(f) ensures Replace(ls[r], rd.cellChar, [cc]) == ms[r] {
      var ts, us := CellsTruecolor(f, rd, r), CellsTruecolor(f, rd', r);
      forall c | 0 <= c < Cols(f) ensures Replace(ts[c], rd.cellChar, [cc]) == us[c] {
        ReplaceTruecolorCell(CellColour(f, r, c), rd.cellChar, cc);
      }
      ReplaceConcatAll(ts, us, rd.cellChar, cc);
    }
    ReplaceJoin(ls, ms, rd.cellChar, cc);
    TruecolorLinesAreTokens(f, rd');
  }

  /** The lines of a frame's `truecolor` file are the rows of tokens of its cell colours. */
  lemma TruecolorLinesAreTokens(f: Frame, rd: Rendering)
    requires ValidFrame(f)
    ensures LinesTruecolor(f, rd) == TokenLines(FrameColours(f), rd.cellChar)
  {
    forall r | 0 <= r < Rows(f)
      ensures LinesTruecolor(f, rd)[r] == TokenLines(FrameColours(f), rd.cellChar)[r]
    {
      assert CellsTruecolor(f, rd, r) == TruecolorTokens(RowColours(f, r), rd.cellChar);
    }
  }

  /**
   * Exporting text whose placeholder-replaced form is a non-empty list of rows of `truecolor`
   * tokens succeeds: it draws every row's cells in order in their own colours on black, and
   * crops to the length of the last row and the number of rows.
   */
  lemma ExportTruecolorText(path: string, text: string, p: char, cc: char, rows: seq<seq<Rgb>>, layout: Layout, toRgb: int -> Colour)
    requires |rows| > 0 && cc != ESC && cc != '\n'
    requires Replace(text, p, [cc]) == Join(TokenLines(rows, cc), "\n")
    ensures var pic := ExportedPicture(path, text, p, [cc], layout, toRgb);
      && pic.Ok? && pic.value.path == path + ".png"
      && pic.value.width == layout.cols * layout.cellWidth && pic.value.height == layout.rows * layout.cellHeight
      && pic.value.draws == Flatten(RowsDraws(rows, cc))
      && pic.value.cropWidth == |rows[|rows| - 1]| * layout.cellWidth && pic.value.cropHeight == |rows| * layout.cellHeight
  {
    var lines := TokenLines(rows, cc);
    forall r | 0 <= r < |lines| ensures '\n' !in lines[r] {
      NoNewlineInTokens(rows[r], cc);
    }
    SplitJoin(lines, '\n');
    assert Split(Replace(text, p, [cc]), '\n') == lines;
    ScanTruecolorRows(lines, rows, cc, |lines|, toRgb);
    var all := RowsDraws(rows, cc);
    assert all[..|rows|] == all;
  }

  /**
   * Exporting the `truecolor` file of a frame with at least one row succeeds and crops the
   * picture to the frame's grid of cells; the draws are the frame's cells row by row.
   */
  lemma ExportTruecolorFrame(f: Frame, rd: Rendering, cc: char, path: string, layout: Layout, toRgb: int -> Colour)
    requires ValidFrame(f) && Rows(f) > 0 && PlainChar(rd.cellChar) && cc != ESC && cc != '\n'
    ensures var p := ExportedPicture(path, Join(LinesTruecolor(f, rd), "\n"), rd.cellChar, [cc], layout, toRgb);
      && p.Ok? && p.value.path == path + ".png"
      && p.value.width == layout.cols * layout.cellWidth && p.value.height == layout.rows * layout.cellHeight
      && p.value.draws == Flatten(RowsDraws(FrameColours(f), cc))
      && p.value.cropWidth == Cols(f) * layout.cellWidth && p.value.cropHeight == Rows(f) * layout.cellHeight
  {
    ReplacedTruecolorFile(f, rd, cc);
    ExportTruecolorText(path, Join(LinesTruecolor(f, rd), "\n"), rd.cellChar, cc, FrameColours(f), layout, toRgb);
  }

  /** In the exported picture of a frame, draw `r * cols + c` is cell `(r, c)` in its exact average colour on black. */
  lemma FrameDrawAt(f: Frame, cc: char, r: nat, c: nat)
    requires ValidFrame(f) && r < Rows(f) && c < Cols(f)
    ensures |Flatten(RowsDraws(FrameColours(f), cc))| == Rows(f) * Cols(f)
    ensures r * Cols(f) + c < |Flatten(RowsDraws(FrameColours(f), cc))|
    ensures Flatten(RowsDraws(FrameColours(f), cc))[r * Cols(f) + c] == Draw(c, r, cc, BLACK_BG, Channels(CellColour(f, r, c)))
  {
    FlattenLength(RowsDraws(FrameColours(f), cc), Cols(f));
    FlattenAt(RowsDraws(FrameColours(f), cc), Cols(f), r, c);
  }
}
