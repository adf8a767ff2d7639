/**
 * The logic of gif_for_cli/export.py: the escape-sequence scanner of `export_txt_frame`,
 * which reads a stored text frame back into coloured character cells, the crop box of the
 * exported picture, the list of frame files, and the message after the final ffmpeg run.
 */
module Export {
  import opened Wrappers
  import opened Strings
  import opened X256Fgbg
  import opened CellRender
  import opened Sorting
  import opened Effects
  import opened Utils

  /** A colour as the scanner holds it: a tuple of integers. */
  type Colour = seq<int>

  const BLACK_BG: Colour := [0, 0, 0]
  const WHITE_FG: Colour := [255, 255, 255]

  /**
   * The scanner's state between characters: the background and foreground colours, whether
   * an escape sequence is open (`escaped`) and what it has collected (`escape_seq`).
   */
  datatype Pen = Pen(bg: Colour, fg: Colour, escaped: bool, escSeq: string)

  const START: Pen := Pen(BLACK_BG, WHITE_FG, false, "")

  /** No sequence is open and nothing is collected. */
  predicate Settled(p: Pen) {
    !p.escaped && p.escSeq == ""
  }

  /**
   * One drawn character: cell `(col, row)`, that is the rectangle at
   * `(col * cellWidth, row * cellHeight)` filled with `bg`, and the character in `fg`.
   */
  datatype Draw = Draw(col: nat, row: nat, ch: char, bg: Colour, fg: Colour)

  /** The scanner within a line: the pen, the column counter, and every draw so far. */
  datatype Scan = Scan(pen: Pen, col: nat, draws: seq<Draw>)

  /** `[int(c) for c in parts]`: the first part `int()` rejects is the error. */
  function ParseInts(parts: seq<string>): (r: Result<seq<int>>)
    ensures r.Ok? ==> |r.value| == |parts| && forall i :: 0 <= i < |parts| ==> ParseInt(parts[i]) == Ok(r.value[i])
    ensures (forall i :: 0 <= i < |parts| ==> ParseInt(parts[i]).Ok?) ==> r.Ok?
  {
    if |parts| == 0 then Ok([])
    else
      match ParseInt(parts[0])
      case Err(e) => Err(e)
      case Ok(n) =>
        match ParseInts(parts[1..])
        case Err(e) =>
          assert forall i :: 1 <= i < |parts| ==> parts[1..][i - 1] == parts[i];
          Err(e)
        case Ok(ns) => Ok([n] + ns)
  }

  /**
   * Acting on a finished sequence `s` (everything between ESC and `m`): `[0` resets both
   * colours, `[48;5;N` and `[38;5;N` set the background and the foreground to palette entry
   * `N`, `[38;2;r;g;b` sets the foreground to the listed integers, anything else changes
   * nothing; `int()` failures propagate.
   */
  function Apply(bg: Colour, fg: Colour, s: string, toRgb: int -> Colour): Result<(Colour, Colour)> {
    if s == "[0" then Ok((BLACK_BG, WHITE_FG))
    else if StartsWith(s, "[48;5;") then
      match ParseInt(s[6..])
      case Err(e) => Err(e)
      case Ok(n) => Ok((toRgb(n), fg))
    else if StartsWith(s, "[38;5;") then
      match ParseInt(s[6..])
      case Err(e) => Err(e)
      case Ok(n) => Ok((bg, toRgb(n)))
    else if StartsWith(s, "[38;2;") then
      match ParseInts(Split(s[6..], ';'))
      case Err(e) => Err(e)
      case Ok(ns) => Ok((bg, ns))
    else Ok((bg, fg))
  }

  /** The scanner's reaction to one character `c` of line `row`. */
  function Step(s: Scan, row: nat, c: char, toRgb: int -> Colour): Result<Scan> {
    if c == ESC then Ok(s.(pen := s.pen.(escaped := true)))
    else if s.pen.escaped then
      if c == 'm' then
        match Apply(s.pen.bg, s.pen.fg, s.pen.escSeq, toRgb)
        case Err(e) => Err(e)
        case Ok(colours) => Ok(s.(pen := Pen(colours.0, colours.1, false, "")))
      else Ok(s.(pen := s.pen.(escSeq := s.pen.escSeq + [c])))
    else Ok(Scan(s.pen, s.col + 1, s.draws + [Draw(s.col, row, c, s.pen.bg, s.pen.fg)]))
  }

  /** The scanner after the characters of `line`, from `s`. */
  function ScanLine(s: Scan, row: nat, line: string, toRgb: int -> Colour): Result<Scan> {
    if |line| == 0 then Ok(s)
    else
      match ScanLine(s, row, line[..|line| - 1], toRgb)
      case Err(e) => Err(e)
      case Ok(t) => Step(t, row, line[|line| - 1], toRgb)
  }

  /** The scanner after the first `n` lines; each line starts at column 0, the pen carries over. */
  function ScanLines(lines: seq<string>, n: nat, toRgb: int -> Colour): Result<Scan>
    requires n <= |lines|
  {
    if n == 0 then Ok(Scan(START, 0, []))
    else
      match ScanLines(lines, n - 1, toRgb)
      case Err(e) => Err(e)
      case Ok(t) => ScanLine(Scan(t.pen, 0, t.draws), n - 1, lines[n - 1], toRgb)
  }

  /**
   * The exported picture: its file, the canvas of `cols` by `rows` cells, the draws, and the
   * crop box of `actual_cols` by `actual_rows` cells, both in pixels.
   */
  datatype Picture = Picture(path: string, width: nat, height: nat, draws: seq<Draw>, cropWidth: nat, cropHeight: nat)

  /** The geometry `export_txt_frame` works with: the cell counts and the pixel size of a cell. */
  datatype Layout = Layout(rows: nat, cols: nat, cellWidth: nat, cellHeight: nat)

  /** What `export_txt_frame` produces from the frame's text, once the placeholder is replaced. */
  function ExportedPicture(txtFilename: string, text: string, placeholder: char, cellChar: string,
                           layout: Layout, toRgb: int -> Colour): Result<Picture>
  {
    var lines := Split(Replace(text, placeholder, cellChar), '\n');
    match ScanLines(lines, |lines|, toRgb)
    case Err(e) => Err(e)
    case Ok(t) =>
      Ok(Picture(txtFilename + ".png", layout.cols * layout.cellWidth, layout.rows * layout.cellHeight,
                 t.draws, t.col * layout.cellWidth, |lines| * layout.cellHeight))
  }

  /**
   * `export_txt_frame(txt_filename, cell_char, rows, cols)`: `text` is the file's contents,
   * `placeholder` is `STORED_CELL_CHAR` and `toRgb` is `x256.to_rgb`; the nested loops scan
   * the lines character by character. An `int()` failure is the error.
   */
  method ExportTxtFrame(txtFilename: string, text: string, placeholder: char, cellChar: string,
                        layout: Layout, toRgb: int -> Colour) returns (r: Result<Picture>)
    ensures r == ExportedPicture(txtFilename, text, placeholder, cellChar, layout, toRgb)
  {
    var txt := Replace(text, placeholder, cellChar);
    var lines := Split(txt, '\n');
    var pen := START;
    var draws: seq<Draw> := [];
    var row := 0;
    var col: nat := 0;
    while row < |lines|
      invariant row <= |lines|
      invariant ScanLines(lines, row, toRgb) == Ok(Scan(pen, col, draws))
    {
      var scanned := ScanRow(Scan(pen, 0, draws), row, lines[row], toRgb);
      if scanned.Err? {
        ScanLinesFail(lines, row + 1, |lines|, toRgb);
        return Err(scanned.message);
      }
      pen, col, draws := scanned.value.pen, scanned.value.col, scanned.value.draws;
      row := row + 1;
    }
    r := Ok(Picture(txtFilename + ".png", layout.cols * layout.cellWidth, layout.rows * layout.cellHeight,
                    draws, col * layout.cellWidth, |lines| * layout.cellHeight));
  }

  /** The inner loop of `export_txt_frame`: line `row` scanned character by character from `start`. */
  method ScanRow(start: Scan, row: nat, line: string, toRgb: int -> Colour) returns (r: Result<Scan>)
    ensures r == ScanLine(start, row, line, toRgb)
  {
    var pen, col, draws := start.pen, start.col, start.draws;
    var i := 0;
    while i < |line|
      invariant i <= |line|
      invariant ScanLine(start, row, line[..i], toRgb) == Ok(Scan(pen, col, draws))
    {
      var c := line[i];
      assert line[..i + 1][..i] == line[..i];
      if c == ESC {
        pen := pen.(escaped := true);
      } else if pen.escaped {
        if c == 'm' {
          var applied := Apply(pen.bg, pen.fg, pen.escSeq, toRgb);
          if applied.Err? {
            assert ScanLine(start, row, line[..i + 1], toRgb) == Err(applied.message);
            ScanLineFails(start, row, line, i + 1, toRgb);
            return Err(applied.message);
          }
          pen := Pen(applied.value.0, applied.value.1, false, "");
        } else {
          pen := pen.(escSeq := pen.escSeq + [c]);
        }
      } else {
        draws := draws + [Draw(col, row, c, pen.bg, pen.fg)];
        col := col + 1;
      }
      i := i + 1;
    }
    assert line[..i] == line;
    r := Ok(Scan(pen, col, draws));
  }

  /** Once a line's scan fails, the rest of the line does not change the error. */
  lemma {:induction false} ScanLineFails(s: Scan, row: nat, line: string, k: nat, toRgb: int -> Colour)
    requires k <= |line| && ScanLine(s, row, line[..k], toRgb).Err?
    ensures ScanLine(s, row, line, toRgb) == ScanLine(s, row, line[..k], toRgb)
    decreases |line| - k
  {
    if k < |line| {
      assert line[..k + 1][..k] == line[..k];
      ScanLineFails(s, row, line, k + 1, toRgb);
    } else {
      assert line[..k] == line;
    }
  }

  /** Once a line fails, the later lines do not change the error. */
  lemma {:induction false} ScanLinesFail(lines: seq<string>, k: nat, n: nat, toRgb: int -> Colour)
    requires k <= n <= |lines| && ScanLines(lines, k, toRgb).Err?
    ensures ScanLines(lines, n, toRgb) == ScanLines(lines, k, toRgb)
    decreases n - k
  {
    if k < n {
      ScanLinesFail(lines, k, n - 1, toRgb);
    }
  }

  // ----- scanning the tokens the generator writes -----

  /** Scanning `a + b` is scanning `a`, then `b` from where `a` left off. */
  lemma {:induction false} ScanLineAppend(s: Scan, row: nat, a: string, b: string, toRgb: int -> Colour)
    ensures ScanLine(s, row, a + b, toRgb)
      == match ScanLine(s, row, a, toRgb)
         case Err(e) => Err(e)
         case Ok(t) => ScanLine(t, row, b, toRgb)
    decreases |b|
  {
    if |b| == 0 {
      assert a + b == a;
    } else {
      assert (a + b)[..|a + b| - 1] == a + b[..|b| - 1];
      ScanLineAppend(s, row, a, b[..|b| - 1], toRgb);
    }
  }

  /** Inside an open sequence, characters other than ESC and `m` are collected and nothing is drawn. */
  lemma {:induction false} CollectSequence(s: Scan, row: nat, body: string, toRgb: int -> Colour)
    requires s.pen.escaped && ESC !in body && 'm' !in body
    ensures ScanLine(s, row, body, toRgb) == Ok(s.(pen := s.pen.(escSeq := s.pen.escSeq + body)))
    decreases |body|
  {
    if |body| > 0 {
      var init, c := body[..|body| - 1], body[|body| - 1];
      assert c in body && forall x :: x in init ==> x in body;
      CollectSequence(s, row, init, toRgb);
      assert s.pen.escSeq + init + [c] == s.pen.escSeq + body;
    } else {
      assert s.pen.escSeq + body == s.pen.escSeq;
    }
  }

  /**
   * From a settled pen, `ESC + body + m` (with no ESC or `m` inside `body`) applies `body`
   * to the colours, leaves the pen settled, and draws nothing.
   */
  lemma ScanEscape(s: Scan, row: nat, body: string, toRgb: int -> Colour)
    requires Settled(s.pen) && ESC !in body && 'm' !in body
    ensures ScanLine(s, row, [ESC] + body + "m", toRgb)
      == match Apply(s.pen.bg, s.pen.fg, body, toRgb)
         case Err(e) => Err(e)
         case Ok(colours) => Ok(Scan(Pen(colours.0, colours.1, false, ""), s.col, s.draws))
  {
    var open := s.(pen := s.pen.(escaped := true));
    assert ScanLine(s, row, [ESC], toRgb) == Ok(open) by {
      assert [ESC][..0] == [];
    }
    ScanLineAppend(s, row, [ESC], body, toRgb);
    CollectSequence(open, row, body, toRgb);
    assert "" + body == body;
    ScanLineAppend(s, row, [ESC] + body, "m", toRgb);
    assert "m"[..0] == [];
  }

  /** From a settled pen, a character other than ESC is drawn at the current column in the current colours. */
  lemma ScanVisible(s: Scan, row: nat, ch: char, toRgb: int -> Colour)
    requires !s.pen.escaped && ch != ESC
    ensures ScanLine(s, row, [ch], toRgb) == Ok(Scan(s.pen, s.col + 1, s.draws + [Draw(s.col, row, ch, s.pen.bg, s.pen.fg)]))
  {
    assert [ch][..0] == [];
  }

  /** The draws of plain text from column `col`: one cell per character, in the pen's colours. */
  function PlainDraws(col: nat, row: nat, text: string, pen: Pen): (ds: seq<Draw>)
    ensures |ds| == |text|
  {
    seq(|text|, k requires 0 <= k < |text| => Draw(col + k, row, text[k], pen.bg, pen.fg))
  }

  /**
   * Outside a sequence, text without ESC (a `cell_char` of any length, say) is drawn
   * character by character, each in its own cell, and the column advances by its length.
   */
  lemma {:induction false} ScanPlainText(s: Scan, row: nat, text: string, toRgb: int -> Colour)
    requires !s.pen.escaped && ESC !in text
    ensures ScanLine(s, row, text, toRgb) == Ok(Scan(s.pen, s.col + |text|, s.draws + PlainDraws(s.col, row, text, s.pen)))
    decreases |text|
  {
    if |text| > 0 {
      var init, c := text[..|text| - 1], text[|text| - 1];
      assert c in text && forall x :: x in init ==> x in text;
      ScanPlainText(s, row, init, toRgb);
      var ds := PlainDraws(s.col, row, init, s.pen);
      assert PlainDraws(s.col, row, text, s.pen) == ds + [Draw(s.col + |init|, row, c, s.pen.bg, s.pen.fg)];
      assert s.draws + ds + [Draw(s.col + |init|, row, c, s.pen.bg, s.pen.fg)]
        == s.draws + PlainDraws(s.col, row, text, s.pen);
    } else {
      assert s.draws + PlainDraws(s.col, row, text, s.pen) == s.draws;
    }
  }

  /** The three channels of a colour as the truecolor sequence lists them. */
  function Channels(c: Rgb): Colour {
    [c.r, c.g, c.b]
  }

  /** The decimal channels of a colour parse back to the colour. */
  lemma ParseChannels(c: Rgb)
    ensures ParseInts([NatToString(c.r), NatToString(c.g), NatToString(c.b)]) == Ok(Channels(c))
  {
    ParseIntOfNatToString(c.r);
    ParseIntOfNatToString(c.g);
    ParseIntOfNatToString(c.b);
    ParseThree(NatToString(c.r), NatToString(c.g), NatToString(c.b), c.r, c.g, c.b);
  }

  /** Three parts that each parse give their three values. */
  lemma ParseThree(a: string, b: string, c: string, x: int, y: int, z: int)
    requires ParseInt(a) == Ok(x) && ParseInt(b) == Ok(y) && ParseInt(c) == Ok(z)
    ensures ParseInts([a, b, c]) == Ok([x, y, z])
  {
    var parts := [a, b, c];
    assert parts[0] == a && parts[1] == b && parts[2] == c;
    var ns := ParseInts(parts);
    assert ns.Ok?;
    assert ns.value == [x, y, z];
  }

  /** The sequence of a `truecolor` token sets the foreground to the token's exact channels. */
  lemma ApplyTruecolor(bg: Colour, fg: Colour, c: Rgb, toRgb: int -> Colour)
    ensures var parts := [NatToString(c.r), NatToString(c.g), NatToString(c.b)];
      Apply(bg, fg, "[38;2;" + Join(parts, ";"), toRgb) == Ok((bg, Channels(c)))
  {
    var parts := [NatToString(c.r), NatToString(c.g), NatToString(c.b)];
    var body := Join(parts, ";");
    assert Split(body, ';') == parts by {
      NoSemicolonInDigits(c.r);
      NoSemicolonInDigits(c.g);
      NoSemicolonInDigits(c.b);
      SplitJoin(parts, ';');
    }
    ParseChannels(c);
    ApplyTruecolorBody(bg, fg, body, Channels(c), toRgb);
  }

  /** A `[38;2;` sequence whose `;`-separated rest parses sets the foreground to the values. */
  lemma ApplyTruecolorBody(bg: Colour, fg: Colour, body: string, ns: seq<int>, toRgb: int -> Colour)
    requires ParseInts(Split(body, ';')) == Ok(ns)
    ensures Apply(bg, fg, "[38;2;" + body, toRgb) == Ok((bg, ns))
  {
    TruecolorPrefix(body);
  }

  /** A `[38;2;` sequence is none of the other sequences `Apply` knows. */
  lemma TruecolorPrefix(body: string)
    ensures var s := "[38;2;" + body;
      && s != "[0" && !StartsWith(s, "[48;5;") && !StartsWith(s, "[38;5;")
      && StartsWith(s, "[38;2;") && s[6..] == body
  {
    var s := "[38;2;" + body;
    assert s[..6] == "[38;2;" && s[6..] == body;
    assert s[1] == '3' && s[4] == '2' && |s| > 2;
  }

  /** The sequence of a `256` foreground token sets the foreground to palette entry `n`. */
  lemma Apply256Foreground(bg: Colour, fg: Colour, n: nat, toRgb: int -> Colour)
    ensures Apply(bg, fg, "[38;5;" + NatToString(n), toRgb) == Ok((bg, toRgb(n)))
  {
    var s := "[38;5;" + NatToString(n);
    assert s[..6] == "[38;5;" && s[6..] == NatToString(n);
    assert s[1] == '3' && |s| > 2;
    ParseIntOfNatToString(n);
  }

  /** The sequence of a `256fgbg` background token sets the background to palette entry `n`. */
  lemma Apply256Background(bg: Colour, fg: Colour, n: nat, toRgb: int -> Colour)
    ensures Apply(bg, fg, "[48;5;" + NatToString(n), toRgb) == Ok((toRgb(n), fg))
  {
    var s := "[48;5;" + NatToString(n);
    assert s[..6] == "[48;5;" && s[6..] == NatToString(n);
    assert |s| > 2;
    ParseIntOfNatToString(n);
  }

  /** An escape sequence whose body applies cleanly, followed by one visible character: the pen settles and the character is drawn in the new colours. */
  lemma ScanCellToken(s: Scan, row: nat, body: string, ch: char, colours: (Colour, Colour), toRgb: int -> Colour)
    requires Settled(s.pen) && ch != ESC && ESC !in body && 'm' !in body
    requires Apply(s.pen.bg, s.pen.fg, body, toRgb) == Ok(colours)
    ensures ScanLine(s, row, [ESC] + body + "m" + [ch], toRgb)
      == Ok(Scan(Pen(colours.0, colours.1, false, ""), s.col + 1, s.draws + [Draw(s.col, row, ch, colours.0, colours.1)]))
  {
    ScanLineAppend(s, row, [ESC] + body + "m", [ch], toRgb);
    ScanEscape(s, row, body, toRgb);
    ScanVisible(Scan(Pen(colours.0, colours.1, false, ""), s.col, s.draws), row, ch, toRgb);
  }

  /** The layout of a `truecolor` token: ESC, a body free of delimiters, `m`, the placeholder. */
  lemma TruecolorTokenLayout(c: Rgb, ch: char)
    ensures var body := "[38;2;" + Join([NatToString(c.r), NatToString(c.g), NatToString(c.b)], ";");
      && ESC !in body && 'm' !in body
      && GetTruecolorCell(c, ch) == [ESC] + body + "m" + [ch]
  {
    var r, g, b := NatToString(c.r), NatToString(c.g), NatToString(c.b);
    JoinThree(r, g, b);
    NoSemicolonInDigits(c.r);
    NoSemicolonInDigits(c.g);
    NoSemicolonInDigits(c.b);
    TokenRegroup([ESC], "[38;2;", r, g, b, "m", [ch]);
  }

  /** Three parts joined by `;`. */
  lemma JoinThree(r: string, g: string, b: string)
    ensures Join([r, g, b], ";") == r + ";" + g + ";" + b
  {
    assert [r, g, b][1..][1..] == [b];
  }

  /** A token's pieces regrouped around the parameter list. */
  lemma TokenRegroup(e: string, p: string, r: string, g: string, b: string, m: string, x: string)
    ensures e + p + r + ";" + g + ";" + b + m + x == e + (p + (r + ";" + g + ";" + b)) + m + x
  {
  }

  /** A `truecolor` token, from a settled pen: the foreground becomes the cell's exact colour and the placeholder is drawn in it. */
  lemma ScanTruecolorCell(s: Scan, row: nat, c: Rgb, ch: char, toRgb: int -> Colour)
    requires Settled(s.pen) && ch != ESC
    ensures ScanLine(s, row, GetTruecolorCell(c, ch), toRgb)
      == Ok(Scan(Pen(s.pen.bg, Channels(c), false, ""), s.col + 1, s.draws + [Draw(s.col, row, ch, s.pen.bg, Channels(c))]))
  {
    var body := "[38;2;" + Join([NatToString(c.r), NatToString(c.g), NatToString(c.b)], ";");
    TruecolorTokenLayout(c, ch);
    ApplyTruecolor(s.pen.bg, s.pen.fg, c, toRgb);
    ScanCellToken(s, row, body, ch, (s.pen.bg, Channels(c)), toRgb);
  }

  /** A `256` token, from a settled pen: the foreground becomes the palette entry `from_rgb` chose. */
  lemma Scan256Cell(s: Scan, row: nat, c: Rgb, fromRgb: Rgb -> nat, ch: char, toRgb: int -> Colour)
    requires Settled(s.pen) && ch != ESC
    ensures var fg := toRgb(fromRgb(c));
      ScanLine(s, row, Get256Cell(c, fromRgb, ch), toRgb)
      == Ok(Scan(Pen(s.pen.bg, fg, false, ""), s.col + 1, s.draws + [Draw(s.col, row, ch, s.pen.bg, fg)]))
  {
    var fg := toRgb(fromRgb(c));
    var body := "[38;5;" + NatToString(fromRgb(c));
    NoSemicolonInDigits(fromRgb(c));
    assert ESC !in body && 'm' !in body;
    assert Get256Cell(c, fromRgb, ch) == ([ESC] + body + "m") + [ch];
    ScanLineAppend(s, row, [ESC] + body + "m", [ch], toRgb);
    ScanEscape(s, row, body, toRgb);
    Apply256Foreground(s.pen.bg, s.pen.fg, fromRgb(c), toRgb);
    ScanVisible(Scan(Pen(s.pen.bg, fg, false, ""), s.col, s.draws), row, ch, toRgb);
  }

  /**
   * A `256fgbg` token, from a settled pen: the background becomes `best`'s palette entry, the
   * foreground `second`'s, and the token's glyph is drawn in them.
   */
  lemma ScanFgbgToken(s: Scan, row: nat, best: Match, second: Match, glyphs: string, toRgb: int -> Colour)
    requires Settled(s.pen) && |glyphs| > 0 && second.distance >= best.distance && ESC !in glyphs
    ensures var bg, fg, g := toRgb(best.index), toRgb(second.index), FgbgGlyph(best, second, glyphs);
      ScanLine(s, row, FgbgToken(best, second, glyphs), toRgb)
      == Ok(Scan(Pen(bg, fg, false, ""), s.col + 1, s.draws + [Draw(s.col, row, g, bg, fg)]))
  {
    var bg, fg, g := toRgb(best.index), toRgb(second.index), FgbgGlyph(best, second, glyphs);
    var back := "[48;5;" + NatToString(best.index);
    var fore := "[38;5;" + NatToString(second.index);
    NoSemicolonInDigits(best.index);
    NoSemicolonInDigits(second.index);
    assert ESC !in back && 'm' !in back && ESC !in fore && 'm' !in fore;
    var first := [ESC] + back + "m";
    var middle := [ESC] + fore + "m";
    assert FgbgToken(best, second, glyphs) == first + (middle + [g]);
    assert g != ESC;
    ScanLineAppend(s, row, first, middle + [g], toRgb);
    ScanEscape(s, row, back, toRgb);
    Apply256Background(s.pen.bg, s.pen.fg, best.index, toRgb);
    var t := Scan(Pen(bg, s.pen.fg, false, ""), s.col, s.draws);
    ScanLineAppend(t, row, middle, [g], toRgb);
    ScanEscape(t, row, fore, toRgb);
    Apply256Foreground(bg, s.pen.fg, second.index, toRgb);
    ScanVisible(Scan(Pen(bg, fg, false, ""), s.col, s.draws), row, g, toRgb);
  }

  /** A common prefix does not change the order of two strings. */
  lemma {:induction false} LexLePrefix(p: string, a: string, b: string)
    requires LexLe(a, b)
    ensures LexLe(p + a, p + b)
  {
    if |p| > 0 {
      assert (p + a)[1..] == p[1..] + a && (p + b)[1..] == p[1..] + b;
      LexLePrefix(p[1..], a, b);
    } else {
      assert p + a == a && p + b == b;
    }
  }

  /** `_get_txt_frames(display_dirname)`: the directory's `.txt` files, sorted, as paths under it. */
  function TxtFrames(dirname: string, entries: seq<DirEntry>): (paths: seq<string>)
    ensures |paths| == |SortedFilenames(entries, "txt")|
  {
    var names := SortedFilenames(entries, "txt");
    seq(|names|, i requires 0 <= i < |names| => dirname + "/" + names[i])
  }

  /**
   * The frame list holds exactly the paths of the directory's `.txt` files, one per file, in
   * lexicographic order.
   */
  lemma TxtFramesFiles(dirname: string, entries: seq<DirEntry>)
    ensures var paths := TxtFrames(dirname, entries);
      && (forall i, j :: 0 <= i < j < |paths| ==> LexLe(paths[i], paths[j]))
      && (forall p :: p in paths <==> exists e :: e in entries && Keep(e, "txt") && p == dirname + "/" + e.name)
  {
    var names := SortedFilenames(entries, "txt");
    var paths := TxtFrames(dirname, entries);
    forall i, j | 0 <= i < j < |paths| ensures LexLe(paths[i], paths[j]) {
      LexLePrefix(dirname + "/", names[i], names[j]);
    }
    forall p ensures p in paths <==> exists e :: e in entries && Keep(e, "txt") && p == dirname + "/" + e.name {
      TxtFrameMember(dirname, entries, p);
    }
  }

  /** A path is listed exactly when it names a `.txt` file of the directory. */
  lemma TxtFrameMember(dirname: string, entries: seq<DirEntry>, p: string)
    ensures p in TxtFrames(dirname, entries) <==> exists e :: e in entries && Keep(e, "txt") && p == dirname + "/" + e.name
  {
    var names := SortedFilenames(entries, "txt");
    var paths := TxtFrames(dirname, entries);
    KeptNamesMembers(entries, "txt");
    if p in paths {
      var i :| 0 <= i < |paths| && paths[i] == p;
      assert names[i] in multiset(names);
      assert names[i] in KeptNames(entries, "txt");
    }
    if exists e :: e in entries && Keep(e, "txt") && p == dirname + "/" + e.name {
      var e :| e in entries && Keep(e, "txt") && p == dirname + "/" + e.name;
      assert e.name in KeptNames(entries, "txt");
      assert e.name in multiset(KeptNames(entries, "txt"));
      assert e.name in names;
      var i :| 0 <= i < |names| && names[i] == e.name;
      assert paths[i] == p;
    }
  }

  /** `export_filename` made absolute: a relative name is taken under the working directory. */
  function ExportPath(exportFilename: string, cwd: string): string {
    if StartsWith(exportFilename, "/") then exportFilename else cwd + "/" + exportFilename
  }

  /**
   * Under an absolute working directory the export path is absolute, ends with the name that
   * was given, and making it absolute again changes nothing.
   */
  lemma ExportPathAbsolute(exportFilename: string, cwd: string)
    requires StartsWith(cwd, "/")
    ensures var path := ExportPath(exportFilename, cwd);
      && StartsWith(path, "/") && EndsWith(path, exportFilename)
      && ExportPath(path, cwd) == path
      && (StartsWith(exportFilename, "/") ==> path == exportFilename)
  {
    var path := ExportPath(exportFilename, cwd);
    if !StartsWith(exportFilename, "/") {
      assert path[..1] == cwd[..1];
      assert path[|path| - |exportFilename|..] == exportFilename;
    }
  }

  /** The ffmpeg command line: overwrite, the frame rate, the numbered PNG frames, the output file. */
  function FfmpegCommand(exportPath: string, displayDirname: string, framerate: string): seq<string> {
    ["ffmpeg", "-y", "-framerate", framerate, "-i", displayDirname + "/%04d.txt.png", exportPath]
  }

  /** What `_run_ffmpeg` writes once ffmpeg has exited with `returncode` and error output `err`. */
  function FfmpegReport(exportPath: string, returncode: int, err: string): (message: string)
    ensures |message| > 0 && message[|message| - 1] == '\n'
  {
    if returncode == 0 then "Exported to:\n" + exportPath + "\n"
    else "ffmpeg encountered an error: " + err + "\n"
  }

  /** The report names the exported file exactly when ffmpeg succeeded. */
  lemma FfmpegReportCases(exportPath: string, returncode: int, err: string)
    ensures var m := FfmpegReport(exportPath, returncode, err);
      && (returncode == 0 <==> StartsWith(m, "Exported to:\n"))
      && (returncode == 0 ==> m[13..|m| - 1] == exportPath)
      && (returncode != 0 ==> m[29..|m| - 1] == err)
  {
    var m := FfmpegReport(exportPath, returncode, err);
    if returncode != 0 {
      assert m[..13] == "ffmpeg encoun";
      assert m[..13] != "Exported to:\n" by {
        assert m[0] == 'f';
      }
    }
  }

  /**
   * `_run_ffmpeg(export_filename, display_dirname, stdout, seconds_per_frame)`: the process
   * is outside the model, so its exit code and error output are parameters, and `framerate`
   * is the text of `str(1.0 / seconds_per_frame)`. Returns the command it runs and what it writes.
   */
  method RunFfmpeg(exportFilename: string, cwd: string, displayDirname: string, framerate: string,
                   returncode: int, err: string) returns (cmd: seq<string>, events: seq<Event>)
    ensures cmd == FfmpegCommand(ExportPath(exportFilename, cwd), displayDirname, framerate)
    ensures events == [Write(FfmpegReport(ExportPath(exportFilename, cwd), returncode, err))]
  {
    var path := exportFilename;
    if !StartsWith(path, "/") {
      path := cwd + "/" + path;
    }
    cmd := ["ffmpeg", "-y", "-framerate", framerate, "-i", displayDirname + "/%04d.txt.png", path];
    if returncode == 0 {
      events := [Write("Exported to:\n" + path + "\n")];
    } else {
      events := [Write("ffmpeg encountered an error: " + err + "\n")];
    }
  }

  /**
   * `export(...)` with a pool of one process: `export_txt_frame` runs on every frame file in
   * order, with the progress report around it, and then ffmpeg assembles the pictures.
   */
  method ExportFrames(exportFilename: string, cwd: string, displayDirname: string, entries: seq<DirEntry>,
                      framerate: string, returncode: int, err: string) returns (cmd: seq<string>, events: seq<Event>)
    ensures Invoked(events) == TxtFrames(displayDirname, entries)
    ensures cmd == FfmpegCommand(ExportPath(exportFilename, cwd), displayDirname, framerate)
    ensures events == ProgressEvents(|TxtFrames(displayDirname, entries)|, CallEach(TxtFrames(displayDirname, entries)),
                                     |TxtFrames(displayDirname, entries)| + 1)
                      + [Write("\n"), Write(FfmpegReport(ExportPath(exportFilename, cwd), returncode, err))]
  {
    var frames := TxtFrames(displayDirname, entries);
    var progress := PoolAbstractionSequential(frames);
    var ffmpeg;
    cmd, ffmpeg := RunFfmpeg(exportFilename, cwd, displayDirname, framerate, returncode, err);
    events := progress + ffmpeg;
    ReportAfterProgress(progress, ffmpeg[0], ProgressEvents(|frames|, CallEach(frames), |frames| + 1), frames);
  }

  /** Appending the one-write report to the progress log invokes nothing more. */
  lemma ReportAfterProgress(progress: seq<Event>, report: Event, before: seq<Event>, items: seq<string>)
    requires progress == before + [Write("\n")] && Invoked(progress) == items && report.Write?
    ensures Invoked(progress + [report]) == items
    ensures progress + [report] == before + [Write("\n"), report]
  {
    Single(report);
    InvokedAppend(progress, [report]);
  }

}
