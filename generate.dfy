/**
 * The frame pipeline of generate/__init__.py: the ffmpeg call and the parse of its report,
 * the saved configuration, the conversion of one extracted JPEG frame into the three text
 * renderings (`nocolor`, `256`, `truecolor`), and the conversion of every frame with the
 * progress report.
 */
module Generate {
  import opened Wrappers
  import opened Strings
  import opened Sorting
  import opened Effects
  import opened X256Fgbg
  import opened CellRender
  import opened Buckets
  import opened Utils

  // ----- arithmetic on the cell grid -----

  /** `k * d < n * d` exactly when `k < n`, for a positive `d`. */
  lemma ScaledLess(k: nat, n: nat, d: nat)
    requires d > 0
    ensures k * d < n * d <==> k < n
  {
    if k < n {
      MulMonotone(k + 1, n, d);
      assert (k + 1) * d == k * d + d;
    } else {
      MulMonotone(n, k, d);
    }
  }

  /** Indexing into a concatenation. */
  lemma AppendIndex<T>(a: seq<T>, b: seq<T>, k: nat)
    requires k < |a| + |b|
    ensures (a + b)[k] == if k < |a| then a[k] else b[k - |a|]
  {
  }

  /** A prefix one longer is the prefix and the next element. */
  lemma PrefixSnoc<T>(s: seq<T>, k: nat)
    requires k < |s|
    ensures s[..k + 1] == s[..k] + [s[k]]
  {
  }

  /** One more cell of size `d` adds `d`. */
  lemma MulSucc(k: int, d: int)
    ensures (k + 1) * d == k * d + d
  {
  }

  /** Cell `k` of `n` cells of size `d` ends inside the `n * d` span. */
  lemma CellFits(k: nat, n: nat, d: nat)
    requires k < n
    ensures k * d + d <= n * d
  {
    MulMonotone(k + 1, n, d);
    assert (k + 1) * d == k * d + d;
  }

  /** Division and remainder of `q * d + r` for `r < d`. */
  lemma ModOffset(q: nat, d: nat, r: nat)
    requires r < d
    ensures (q * d + r) % d == r && (q * d + r) / d == q
  {
    var x := q * d + r;
    var q', r' := x / d, x % d;
    assert x == q' * d + r';
    var k := q' - q;
    assert k * d == r - r' by {
      assert k * d == q' * d - q * d;
    }
    if k >= 1 {
      MulAtLeast(k, d);
    } else if k <= -1 {
      MulAtLeast(-k, d);
    }
  }

  /** `x == q * d + r` with `r < d` means `x % d == r` and `x / d == q`. */
  lemma DivMod(x: nat, q: nat, d: nat, r: nat)
    requires r < d && x == q * d + r
    ensures x % d == r && x / d == q
  {
    ModOffset(q, d, r);
  }

  /** The position of cell `(r, c)` in a row-major list of `n` rows of `cols` cells. */
  lemma GridIndex(r: nat, c: nat, n: nat, cols: nat)
    requires r < n && c < cols
    ensures r * cols + c < n * cols
  {
    CellFits(r, n, cols);
  }

  // ----- the frame and its cells -----

  /** A decoded frame with the cell size it is cut into. */
  datatype Frame = Frame(img: Image, cellHeight: nat, cellWidth: nat)

  predicate ValidFrame(f: Frame) {
    ValidImage(f.img) && f.cellHeight > 0 && f.cellWidth > 0
  }

  /**
   * The constants and the palette lookup the conversion depends on: `x256.from_rgb`,
   * `STORED_CELL_CHAR` and `NOCOLOR_CHARS`.
   */
  datatype Rendering = Rendering(fromRgb: Rgb -> nat, cellChar: char, nocolorChars: string)

  predicate ValidRendering(rd: Rendering) {
    |rd.nocolorChars| > 0
  }

  /** The number of whole cells along a side of `size` pixels, after trimming the remainder. */
  function CellCount(size: nat, cell: nat): nat
    requires cell > 0
    decreases size
  {
    if size < cell then 0 else 1 + CellCount(size - cell, cell)
  }

  /** The whole cells along a side span exactly the trimmed side: `size // cell` cells. */
  lemma {:induction false} CellSpan(size: nat, cell: nat)
    requires cell > 0
    ensures CellCount(size, cell) * cell == size - size % cell
    ensures CellCount(size, cell) * cell <= size
    ensures CellCount(size, cell) == size / cell
    decreases size
  {
    if size >= cell {
      CellSpan(size - cell, cell);
      MulSucc(CellCount(size - cell, cell), cell);
      ModOffset(CellCount(size - cell, cell), cell, (size - cell) % cell);
      ModOffset(CellCount(size, cell), cell, (size - cell) % cell);
    }
  }

  function Cols(f: Frame): nat
    requires ValidFrame(f)
  {
    CellCount(f.img.width, f.cellWidth)
  }

  function Rows(f: Frame): nat
    requires ValidFrame(f)
  {
    CellCount(f.img.height, f.cellHeight)
  }

  /** The averaged colour of cell `(row, col)`. */
  function CellColour(f: Frame, row: nat, col: nat): Rgb
    requires ValidFrame(f) && row < Rows(f) && col < Cols(f)
  {
    CellFits(row, Rows(f), f.cellHeight);
    CellFits(col, Cols(f), f.cellWidth);
    CellSpan(f.img.height, f.cellHeight);
    CellSpan(f.img.width, f.cellWidth);
    AvgForEm(f.img, col * f.cellWidth, row * f.cellHeight, f.cellHeight, f.cellWidth)
  }

  /** The `256` tokens of one row of cells. */
  function Cells256(f: Frame, rd: Rendering, row: nat): (ts: seq<string>)
    requires ValidFrame(f) && row < Rows(f)
    ensures |ts| == Cols(f)
  {
    seq(Cols(f), c requires 0 <= c < Cols(f) => Get256Cell(CellColour(f, row, c), rd.fromRgb, rd.cellChar))
  }

  /** The `truecolor` tokens of one row of cells. */
  function CellsTruecolor(f: Frame, rd: Rendering, row: nat): (ts: seq<string>)
    requires ValidFrame(f) && row < Rows(f)
    ensures |ts| == Cols(f)
  {
    seq(Cols(f), c requires 0 <= c < Cols(f) => GetTruecolorCell(CellColour(f, row, c), rd.cellChar))
  }

  function Lines256(f: Frame, rd: Rendering): (ls: seq<string>)
    requires ValidFrame(f)
    ensures |ls| == Rows(f)
  {
    seq(Rows(f), r requires 0 <= r < Rows(f) => Concat(Cells256(f, rd, r)))
  }

  function LinesTruecolor(f: Frame, rd: Rendering): (ls: seq<string>)
    requires ValidFrame(f)
    ensures |ls| == Rows(f)
  {
    seq(Rows(f), r requires 0 <= r < Rows(f) => Concat(CellsTruecolor(f, rd, r)))
  }

  /** The grey keys of one row of cells. */
  function RowGrays(f: Frame, row: nat): (gs: seq<int>)
    requires ValidFrame(f) && row < Rows(f)
    ensures |gs| == Cols(f)
  {
    seq(Cols(f), c requires 0 <= c < Cols(f) => GrayKey(CellColour(f, row, c)))
  }

  /** The rows of a grid, one after the other. */
  function Flatten<T>(rs: seq<seq<T>>): seq<T> {
    if |rs| == 0 then [] else Flatten(rs[..|rs| - 1]) + rs[|rs| - 1]
  }

  /** Flattening one more row appends that row. */
  lemma FlattenSnoc<T>(rs: seq<seq<T>>, k: nat)
    requires k < |rs|
    ensures Flatten(rs[..k + 1]) == Flatten(rs[..k]) + rs[k]
  {
    assert rs[..k + 1][..k] == rs[..k];
  }

  /** `n` rows of `cols` entries flatten to `n * cols` entries. */
  lemma {:induction false} FlattenLength<T>(rs: seq<seq<T>>, cols: nat)
    requires forall i :: 0 <= i < |rs| ==> |rs[i]| == cols
    ensures |Flatten(rs)| == |rs| * cols
  {
    if |rs| > 0 {
      FlattenLength(rs[..|rs| - 1], cols);
      MulSucc(|rs| - 1, cols);
    }
  }

  /** Entry `c` of row `r` sits at position `r * cols + c` of the flattened grid. */
  lemma {:induction false} FlattenAt<T>(rs: seq<seq<T>>, cols: nat, r: nat, c: nat)
    requires forall i :: 0 <= i < |rs| ==> |rs[i]| == cols
    requires r < |rs| && c < cols
    ensures r * cols + c < |Flatten(rs)| && Flatten(rs)[r * cols + c] == rs[r][c]
  {
    var n := |rs|;
    var prev := rs[..n - 1];
    FlattenLength(rs, cols);
    FlattenLength(prev, cols);
    GridIndex(r, c, n, cols);
    AppendIndex(Flatten(prev), rs[n - 1], r * cols + c);
    if r < n - 1 {
      FlattenAt(prev, cols, r, c);
    } else {
      MulSucc(n - 1, cols);
    }
  }

  /** The grey keys of the cells, one row of keys per row of cells. */
  function GrayRows(f: Frame): (rs: seq<seq<int>>)
    requires ValidFrame(f)
    ensures |rs| == Rows(f) && forall i :: 0 <= i < |rs| ==> |rs[i]| == Cols(f)
  {
    seq(Rows(f), r requires 0 <= r < Rows(f) => RowGrays(f, r))
  }

  /** The grey keys of all cells, row after row: the list `chars_nocolor`. */
  function AllGrays(f: Frame): seq<int>
    requires ValidFrame(f)
  {
    Flatten(GrayRows(f))
  }

  /** There is one grey key per cell. */
  lemma AllGraysLength(f: Frame)
    requires ValidFrame(f)
    ensures |AllGrays(f)| == Rows(f) * Cols(f)
  {
    FlattenLength(GrayRows(f), Cols(f));
  }

  /** Cell `(r, c)` has its grey key at position `r * cols + c` of `chars_nocolor`. */
  lemma GraysAt(f: Frame, r: nat, c: nat)
    requires ValidFrame(f) && r < Rows(f) && c < Cols(f)
    ensures r * Cols(f) + c < |AllGrays(f)| && AllGrays(f)[r * Cols(f) + c] == GrayKey(CellColour(f, r, c))
  {
    FlattenAt(GrayRows(f), Cols(f), r, c);
  }

  /** The `nocolor` glyph of the `k`-th cell among `grays`: `NOCOLOR_CHARS[char_idxs[gray]]`. */
  function NocolorGlyph(grays: seq<int>, glyphs: string, k: nat): char
    requires |glyphs| > 0 && k < |grays|
  {
    glyphs[GlyphIndexAt(grays, |glyphs|, k)]
  }

  /** The glyphs of row `row` of a grid of `rows` rows of `cols` cells, listed row after row in `grays`. */
  function NocolorRowOf(grays: seq<int>, rows: nat, cols: nat, glyphs: string, row: nat): (line: string)
    requires |glyphs| > 0 && |grays| == rows * cols && row < rows
    ensures |line| == cols
  {
    seq(cols, c requires 0 <= c < cols => GridIndex(row, c, rows, cols); NocolorGlyph(grays, glyphs, row * cols + c))
  }

  /** One glyph row per row of cells. */
  function NocolorRowsOf(grays: seq<int>, rows: nat, cols: nat, glyphs: string): (ls: seq<string>)
    requires |glyphs| > 0 && |grays| == rows * cols
    ensures |ls| == rows
  {
    seq(rows, r requires 0 <= r < rows => NocolorRowOf(grays, rows, cols, glyphs, r))
  }

  /**
   * The `nocolor` lines: one per row of cells. With no columns there are no cells, the
   * line-closing test never runs, and there is no line at all.
   */
  function NocolorLinesOf(grays: seq<int>, rows: nat, cols: nat, glyphs: string): seq<string>
    requires |glyphs| > 0 && |grays| == rows * cols
  {
    if cols == 0 then [] else NocolorRowsOf(grays, rows, cols, glyphs)
  }

  function NocolorLines(f: Frame, rd: Rendering): seq<string>
    requires ValidFrame(f) && ValidRendering(rd)
  {
    AllGraysLength(f);
    NocolorLinesOf(AllGrays(f), Rows(f), Cols(f), rd.nocolorChars)
  }

  function TxtPath(dirs: map<string, string>, key: string, frameName: string): string
    requires key in dirs
  {
    dirs[key] + "/" + frameName + ".txt"
  }

  function JpgPath(dirs: map<string, string>, frameName: string): string
    requires "jpg" in dirs
  {
    dirs["jpg"] + "/" + frameName + ".jpg"
  }

  predicate HasFrameDirs(dirs: map<string, string>) {
    "jpg" in dirs && "nocolor" in dirs && "256" in dirs && "truecolor" in dirs
  }

  /** The three files `convert_frame` writes, in order. */
  function FrameFiles(f: Frame, rd: Rendering, dirs: map<string, string>, frameName: string): seq<Event>
    requires ValidFrame(f) && ValidRendering(rd) && HasFrameDirs(dirs)
  {
    [ WriteFile(TxtPath(dirs, "nocolor", frameName), Join(NocolorLines(f, rd), "\n")),
      WriteFile(TxtPath(dirs, "256", frameName), Join(Lines256(f, rd), "\n")),
      WriteFile(TxtPath(dirs, "truecolor", frameName), Join(LinesTruecolor(f, rd), "\n")) ]
  }

  /** The loop body of `convert_frame` for one cell: its grey key and its two tokens. */
  method RenderCell(f: Frame, rd: Rendering, row: nat, col: nat, x: nat, y: nat) returns (gray: int, token256: string, tokenTruecolor: string)
    requires ValidFrame(f) && row < Rows(f) && col < Cols(f)
    requires x == col * f.cellWidth && y == row * f.cellHeight
    ensures gray == RowGrays(f, row)[col]
    ensures token256 == Cells256(f, rd, row)[col] && tokenTruecolor == CellsTruecolor(f, rd, row)[col]
  {
    CellSpan(f.img.width, f.cellWidth);
    CellSpan(f.img.height, f.cellHeight);
    CellFits(row, Rows(f), f.cellHeight);
    CellFits(col, Cols(f), f.cellWidth);
    var rgb := AvgForEm(f.img, x, y, f.cellHeight, f.cellWidth);
    assert rgb == CellColour(f, row, col);
    gray := GrayKey(rgb);
    token256 := Get256Cell(rgb, rd.fromRgb, rd.cellChar);
    tokenTruecolor := GetTruecolorCell(rgb, rd.cellChar);
  }

  /**
   * The inner loop of `convert_frame` for the row of cells at `y = row * cellHeight`: each
   * cell's averaged colour gives its grey key and its two tokens.
   */
  method RenderRow(f: Frame, rd: Rendering, row: nat, y: nat) returns (grays: seq<int>, cells256: seq<string>, cellsTruecolor: seq<string>)
    requires ValidFrame(f) && row < Rows(f) && y == row * f.cellHeight
    ensures grays == RowGrays(f, row)
    ensures cells256 == Cells256(f, rd, row) && cellsTruecolor == CellsTruecolor(f, rd, row)
  {
    var width := f.img.width - f.img.width % f.cellWidth;
    var cols := Cols(f);
    CellSpan(f.img.width, f.cellWidth);
    grays, cells256, cellsTruecolor := [], [], [];
    var x, col := 0, 0;
    while x < width
      invariant col <= cols && x == col * f.cellWidth
      invariant grays == RowGrays(f, row)[..col]
      invariant cells256 == Cells256(f, rd, row)[..col] && cellsTruecolor == CellsTruecolor(f, rd, row)[..col]
    {
      ScaledLess(col, cols, f.cellWidth);
      var gray, token256, tokenTruecolor := RenderCell(f, rd, row, col, x, y);
      PrefixSnoc(RowGrays(f, row), col);
      PrefixSnoc(Cells256(f, rd, row), col);
      PrefixSnoc(CellsTruecolor(f, rd, row), col);
      grays := grays + [gray];
      cells256 := cells256 + [token256];
      cellsTruecolor := cellsTruecolor + [tokenTruecolor];
      MulSucc(col, f.cellWidth);
      x, col := x + f.cellWidth, col + 1;
    }
    ScaledLess(col, cols, f.cellWidth);
    assert RowGrays(f, row)[..col] == RowGrays(f, row);
  }

  /**
   * The outer loop of `convert_frame`: one `256` and one `truecolor` line per row of cells,
   * and the grey keys of all cells, row after row.
   */
  method RenderColourLines(f: Frame, rd: Rendering) returns (grays: seq<int>, lines256: seq<string>, linesTruecolor: seq<string>)
    requires ValidFrame(f)
    ensures grays == AllGrays(f)
    ensures lines256 == Lines256(f, rd) && linesTruecolor == LinesTruecolor(f, rd)
  {
    var height := f.img.height - f.img.height % f.cellHeight;
    var rows := Rows(f);
    CellSpan(f.img.height, f.cellHeight);
    grays, lines256, linesTruecolor := [], [], [];
    var y, row := 0, 0;
    while y < height
      invariant row <= rows && y == row * f.cellHeight
      invariant grays == Flatten(GrayRows(f)[..row])
      invariant lines256 == Lines256(f, rd)[..row] && linesTruecolor == LinesTruecolor(f, rd)[..row]
    {
      ScaledLess(row, rows, f.cellHeight);
      var rowGrays, cells256, cellsTruecolor := RenderRow(f, rd, row, y);
      PrefixSnoc(Lines256(f, rd), row);
      PrefixSnoc(LinesTruecolor(f, rd), row);
      FlattenSnoc(GrayRows(f), row);
      grays := grays + rowGrays;
      lines256 := lines256 + [Concat(cells256)];
      linesTruecolor := linesTruecolor + [Concat(cellsTruecolor)];
      MulSucc(row, f.cellHeight);
      y, row := y + f.cellHeight, row + 1;
    }
    ScaledLess(row, rows, f.cellHeight);
    assert GrayRows(f)[..row] == GrayRows(f);
  }

  /** Cell `i = row * cols + col` closes its line exactly when it is the last of its row. */
  lemma RowEnd(i: nat, row: nat, cols: nat, col: nat)
    requires col < cols && i == row * cols + col
    ensures (i + 1) % cols == 0 <==> col + 1 == cols
    ensures col + 1 == cols ==> i + 1 == (row + 1) * cols
  {
    if col + 1 == cols {
      MulSucc(row, cols);
      DivMod(i + 1, row + 1, cols, 0);
    } else {
      DivMod(i + 1, row, cols, col + 1);
    }
  }

  /**
   * The last loop of `convert_frame`: each cell's glyph, starting a new line after every
   * `cols` cells; `idxs` is the bucketiser's map from grey level to glyph index.
   */
  method RenderNocolorLines(grays: seq<int>, ghost rows: nat, cols: nat, glyphs: string, idxs: map<int, nat>) returns (lines: seq<string>)
    requires |glyphs| > 0 && |grays| == rows * cols
    requires forall k :: 0 <= k < |grays| ==> grays[k] in idxs && idxs[grays[k]] == GlyphIndexAt(grays, |glyphs|, k)
    ensures lines == NocolorLinesOf(grays, rows, cols, glyphs)
  {
    lines := [];
    var line: string := [];
    var i := 0;
    ghost var row, col := 0, 0;
    while i < |grays|
      invariant i <= |grays| && row <= rows && (i == 0 ==> row == 0)
      invariant i == row * cols + col && col == |line|
      invariant |grays| > 0 ==> col < cols
      invariant lines == NocolorRowsOf(grays, rows, cols, glyphs)[..row]
      invariant row < rows ==> line == NocolorRowOf(grays, rows, cols, glyphs, row)[..col]
    {
      if row >= rows {
        MulMonotone(rows, row, cols);
      }
      NocolorRowAt(grays, rows, cols, glyphs, row, col, i);
      assert glyphs[idxs[grays[i]]] == NocolorGlyph(grays, glyphs, i);
      PrefixSnoc(NocolorRowOf(grays, rows, cols, glyphs, row), col);
      line := line + [glyphs[idxs[grays[i]]]];
      RowEnd(i, row, cols, col);
      if (i + 1) % cols == 0 {
        NocolorRowComplete(grays, rows, cols, glyphs, row, line);
        lines := lines + [line];
        line := [];
        row, col := row + 1, 0;
      } else {
        col := col + 1;
      }
      i := i + 1;
    }
    NocolorLinesEnd(grays, rows, cols, glyphs, lines, i, row, col);
  }

  /** Cell `(row, col)` is at position `i` of `grays`, and its glyph is the `i`-th cell's glyph. */
  lemma NocolorRowAt(grays: seq<int>, rows: nat, cols: nat, glyphs: string, row: nat, col: nat, i: nat)
    requires |glyphs| > 0 && |grays| == rows * cols && row < rows && col < cols && i == row * cols + col
    ensures i < |grays| && NocolorRowOf(grays, rows, cols, glyphs, row)[col] == NocolorGlyph(grays, glyphs, i)
  {
    GridIndex(row, col, rows, cols);
  }

  /** A line holding a whole row's glyphs is that row's entry in `NocolorRowsOf`. */
  lemma NocolorRowComplete(grays: seq<int>, rows: nat, cols: nat, glyphs: string, row: nat, line: string)
    requires |glyphs| > 0 && |grays| == rows * cols && row < rows
    requires |line| == cols && line == NocolorRowOf(grays, rows, cols, glyphs, row)[..|line|]
    ensures NocolorRowsOf(grays, rows, cols, glyphs)[..row + 1] == NocolorRowsOf(grays, rows, cols, glyphs)[..row] + [line]
  {
    var full := NocolorRowOf(grays, rows, cols, glyphs, row);
    assert full[..|line|] == full;
    PrefixSnoc(NocolorRowsOf(grays, rows, cols, glyphs), row);
  }

  /** Once every cell is placed, the finished lines are the `nocolor` lines. */
  lemma NocolorLinesEnd(grays: seq<int>, rows: nat, cols: nat, glyphs: string, lines: seq<string>, i: nat, row: nat, col: nat)
    requires |glyphs| > 0 && |grays| == rows * cols && row <= rows
    requires i == |grays| && i == row * cols + col && (i == 0 ==> row == 0)
    requires i > 0 ==> col < cols
    requires lines == NocolorRowsOf(grays, rows, cols, glyphs)[..row]
    ensures lines == NocolorLinesOf(grays, rows, cols, glyphs)
  {
    var all := NocolorRowsOf(grays, rows, cols, glyphs);
    if cols == 0 {
      assert i == 0 && row == 0;
      assert lines == [];
    } else if i > 0 {
      DivMod(i, row, cols, col);
      DivMod(i, rows, cols, 0);
      assert row == rows;
      assert all[..row] == all;
    } else {
      if rows > 0 {
        MulAtLeast(rows, cols);
      }
      assert rows == 0 && row == 0;
      assert lines == [] == all;
    }
  }


  // ----- cell sizes that are not positive -----

  /**
   * The exception `width % cell_width` or `height % cell_height` raises for a zero cell size,
   * named by its class.
   */
  const ZERO_DIVISION := "ZeroDivisionError"

  /** `rows` empty lines. */
  function Blank(rows: nat): (ls: seq<string>)
    ensures |ls| == rows && forall k :: 0 <= k < rows ==> ls[k] == ""
  {
    seq(rows, _ => "")
  }

  /**
   * The rows `range(0, height, cell_height)` walks for a non-zero `cell_height`: the whole
   * cells of the trimmed height, or none for a negative step.
   */
  function RangeRows(height: nat, cellHeight: int): nat
    requires cellHeight != 0
  {
    if cellHeight > 0 then CellCount(height, cellHeight) else 0
  }

  /**
   * The files `convert_frame` writes when a cell size is negative. A `range` from 0 with a
   * negative step is empty: a negative `cell_height` leaves no row, and a negative
   * `cell_width` leaves each of the `rows` rows without a cell.
   */
  function BlankFiles(dirs: map<string, string>, frameName: string, rows: nat): seq<Event>
    requires HasFrameDirs(dirs)
  {
    [ WriteFile(TxtPath(dirs, "nocolor", frameName), ""),
      WriteFile(TxtPath(dirs, "256", frameName), Join(Blank(rows), "\n")),
      WriteFile(TxtPath(dirs, "truecolor", frameName), Join(Blank(rows), "\n")) ]
  }

  /** Joining `rows` empty lines leaves only the `rows - 1` newlines between them. */
  lemma {:induction false} BlankJoin(rows: nat)
    ensures Join(Blank(rows), "\n") == seq(if rows == 0 then 0 else rows - 1, _ => '\n')
  {
    if rows >= 2 {
      BlankJoin(rows - 1);
      assert Blank(rows)[1..] == Blank(rows - 1);
    }
  }

  /**
   * With a negative cell size no cell is rendered: the nocolor file is empty and the `256` and
   * `truecolor` files hold nothing but the newlines between their empty rows.
   */
  lemma BlankFilesText(dirs: map<string, string>, frameName: string, rows: nat)
    requires HasFrameDirs(dirs)
    ensures var events := BlankFiles(dirs, frameName, rows);
      && events[0].content == ""
      && forall j :: 1 <= j < 3 ==>
           && |events[j].content| == (if rows == 0 then 0 else rows - 1)
           && forall k :: 0 <= k < |events[j].content| ==> events[j].content[k] == '\n'
  {
    BlankJoin(rows);
  }

  /**
   * The outer loop of `convert_frame` when `cell_width` is negative: each row's inner `range`
   * is empty, so every line is the empty join; a negative `cell_height` runs no row at all.
   */
  method BlankLines(height: nat, cellHeight: int) returns (lines: seq<string>)
    requires cellHeight != 0
    ensures lines == Blank(RangeRows(height, cellHeight))
  {
    lines := [];
    if cellHeight > 0 {
      var trimmed := height - height % cellHeight;
      var rows := CellCount(height, cellHeight);
      CellSpan(height, cellHeight);
      var y := 0;
      while y < trimmed
        invariant |lines| <= rows && y == |lines| * cellHeight
        invariant lines == Blank(|lines|)
      {
        ScaledLess(|lines|, rows, cellHeight);
        MulSucc(|lines|, cellHeight);
        lines := lines + [""];
        y := y + cellHeight;
      }
      ScaledLess(|lines|, rows, cellHeight);
    }
  }

  /**
   * `convert_frame(frame_name, **options)`: reads the frame's JPEG (`load` stands for
   * `Image.open`), cuts it into cells, and writes the `nocolor`, `256` and `truecolor`
   * renderings, one line per row of cells. A zero cell size raises before anything is written;
   * a negative one writes the three files without a cell in them.
   */
  method ConvertFrame(frameName: string, load: string -> Image, cellHeight: int, cellWidth: int,
                      dirs: map<string, string>, rd: Rendering) returns (r: Result<seq<Event>>)
    requires HasFrameDirs(dirs) && ValidRendering(rd)
    requires ValidImage(load(JpgPath(dirs, frameName)))
    ensures cellWidth == 0 || cellHeight == 0 <==> r.Err?
    ensures r.Err? ==> r.message == ZERO_DIVISION
    ensures cellWidth > 0 && cellHeight > 0 ==>
      r == Ok(FrameFiles(Frame(load(JpgPath(dirs, frameName)), cellHeight, cellWidth), rd, dirs, frameName))
    ensures cellWidth != 0 && cellHeight != 0 && (cellWidth < 0 || cellHeight < 0) ==>
      r == Ok(BlankFiles(dirs, frameName, RangeRows(load(JpgPath(dirs, frameName)).height, cellHeight)))
  {
    var img := load(JpgPath(dirs, frameName));
    if cellWidth == 0 || cellHeight == 0 {
      // Trimming the image takes `width % cell_width`, then `height % cell_height`.
      return Err(ZERO_DIVISION);
    }
    if cellWidth < 0 || cellHeight < 0 {
      var lines := BlankLines(img.height, cellHeight);
      return Ok([
        WriteFile(TxtPath(dirs, "nocolor", frameName), Join([], "\n")),
        WriteFile(TxtPath(dirs, "256", frameName), Join(lines, "\n")),
        WriteFile(TxtPath(dirs, "truecolor", frameName), Join(lines, "\n"))
      ]);
    }
    var f := Frame(img, cellHeight, cellWidth);
    var grays, lines256, linesTruecolor := RenderColourLines(f, rd);

    // Divide the grey levels into roughly equal buckets, one per glyph.
    var m := |rd.nocolorChars|;
    var keys, counts := CountLevels(SortInts(grays));
    var idxs := AssignBuckets(keys, counts, |grays|, m);
    BucketMapCovers(grays, m, keys, counts, idxs);
    AllGraysLength(f);
    var linesNocolor := RenderNocolorLines(grays, Rows(f), Cols(f), rd.nocolorChars, idxs);

    r := Ok([
      WriteFile(TxtPath(dirs, "nocolor", frameName), Join(linesNocolor, "\n")),
      WriteFile(TxtPath(dirs, "256", frameName), Join(lines256, "\n")),
      WriteFile(TxtPath(dirs, "truecolor", frameName), Join(linesTruecolor, "\n"))
    ]);
  }
}
