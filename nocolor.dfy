/**
 * What the `nocolor` rendering of `convert_frame` (gif_for_cli/generate/__init__.py) means
 * cell by cell: one line per row of cells, one glyph per cell, taken from `NOCOLOR_CHARS`
 * by the cell's grey bucket, with lighter cells never getting an earlier glyph and the
 * darkest cells getting the first one.
 */
module NocolorFrame {
  import opened CellRender
  import opened Buckets
  import opened Generate

  /** Cell `(r, c)` has an entry in the frame's grey list, at `r * cols + c`. */
  lemma CellInGrays(f: Frame, r: nat, c: nat)
    requires ValidFrame(f) && r < Rows(f) && c < Cols(f)
    ensures r * Cols(f) + c < |AllGrays(f)|
  {
    AllGraysLength(f);
    GridIndex(r, c, Rows(f), Cols(f));
  }

  /** The grey key of cell `(r, c)`, read from the frame's grey list (see `CellGrayKey`). */
  function CellGray(f: Frame, r: nat, c: nat): int
    requires ValidFrame(f) && r < Rows(f) && c < Cols(f)
  {
    CellInGrays(f, r, c);
    AllGrays(f)[r * Cols(f) + c]
  }

  /** The list entry of a cell is the grey key of its averaged colour. */
  lemma CellGrayKey(f: Frame, r: nat, c: nat)
    requires ValidFrame(f) && r < Rows(f) && c < Cols(f)
    ensures CellGray(f, r, c) == GrayKey(CellColour(f, r, c))
  {
    GraysAt(f, r, c);
  }

  /** The bucket, that is the position in `NOCOLOR_CHARS`, of cell `(r, c)`. */
  function CellGlyphIndex(f: Frame, rd: Rendering, r: nat, c: nat): (i: nat)
    requires ValidFrame(f) && ValidRendering(rd) && r < Rows(f) && c < Cols(f)
    ensures i < |rd.nocolorChars|
  {
    CellInGrays(f, r, c);
    GlyphIndexAt(AllGrays(f), |rd.nocolorChars|, r * Cols(f) + c)
  }

  /**
   * With at least one column, the `nocolor` text has a line per row of cells, each line has
   * a glyph per cell, and the glyph of cell `(r, c)` is the one its bucket selects.
   */
  lemma NocolorCell(f: Frame, rd: Rendering, r: nat, c: nat)
    requires ValidFrame(f) && ValidRendering(rd) && r < Rows(f) && c < Cols(f)
    ensures |NocolorLines(f, rd)| == Rows(f) && |NocolorLines(f, rd)[r]| == Cols(f)
    ensures NocolorLines(f, rd)[r][c] == rd.nocolorChars[CellGlyphIndex(f, rd, r, c)]
  {
    AllGraysLength(f);
    NocolorRowAt(AllGrays(f), Rows(f), Cols(f), rd.nocolorChars, r, c, r * Cols(f) + c);
  }

  /** Among the cells listed in `grays`, a lighter cell never gets an earlier bucket. */
  lemma GlyphOrder(grays: seq<int>, m: nat, k1: nat, k2: nat)
    requires k1 < |grays| && k2 < |grays| && grays[k1] <= grays[k2]
    ensures GlyphIndexAt(grays, m, k1) <= GlyphIndexAt(grays, m, k2)
  {
    assert GlyphIndexAt(grays, m, k1) == GlyphIndexOf(grays, m, grays[k1]);
    assert GlyphIndexAt(grays, m, k2) == GlyphIndexOf(grays, m, grays[k2]);
    GlyphIndexMonotone(grays, m, grays[k1], grays[k2]);
  }

  /**
   * The bucket of a cell depends only on its grey key, and a lighter cell never gets an
   * earlier glyph.
   */
  lemma NocolorBrighter(f: Frame, rd: Rendering, r1: nat, c1: nat, r2: nat, c2: nat)
    requires ValidFrame(f) && ValidRendering(rd)
    requires r1 < Rows(f) && c1 < Cols(f) && r2 < Rows(f) && c2 < Cols(f)
    requires CellGray(f, r1, c1) <= CellGray(f, r2, c2)
    ensures CellGlyphIndex(f, rd, r1, c1) <= CellGlyphIndex(f, rd, r2, c2)
  {
    CellInGrays(f, r1, c1);
    CellInGrays(f, r2, c2);
    GlyphOrder(AllGrays(f), |rd.nocolorChars|, r1 * Cols(f) + c1, r2 * Cols(f) + c2);
  }

  /** A position below `rows * cols` lies in a row below `rows`. */
  lemma GridPosition(k: nat, rows: nat, cols: nat)
    requires k < rows * cols
    ensures cols > 0 && k / cols < rows && k % cols < cols && k == (k / cols) * cols + k % cols
  {
    if k / cols >= rows {
      MulMonotone(rows, k / cols, cols);
    }
  }

  /** The cell listed at `k` in `grays`, when no listed grey is darker, is in the first bucket. */
  lemma GlyphFirst(grays: seq<int>, m: nat, k: nat)
    requires k < |grays| && forall j :: 0 <= j < |grays| ==> grays[k] <= grays[j]
    ensures GlyphIndexAt(grays, m, k) == 0
  {
    forall h | h in grays ensures grays[k] <= h {
      var j :| 0 <= j < |grays| && grays[j] == h;
    }
    assert GlyphIndexAt(grays, m, k) == GlyphIndexOf(grays, m, grays[k]);
    GlyphIndexDarkest(grays, m, grays[k]);
  }

  /** A cell no darker than any other has the least entry of the frame's grey list. */
  lemma LeastGray(f: Frame, r: nat, c: nat)
    requires ValidFrame(f) && r < Rows(f) && c < Cols(f)
    requires forall r', c' :: 0 <= r' < Rows(f) && 0 <= c' < Cols(f) ==> CellGray(f, r, c) <= CellGray(f, r', c')
    ensures r * Cols(f) + c < |AllGrays(f)|
    ensures forall j :: 0 <= j < |AllGrays(f)| ==> AllGrays(f)[r * Cols(f) + c] <= AllGrays(f)[j]
  {
    var grays := AllGrays(f);
    CellInGrays(f, r, c);
    AllGraysLength(f);
    forall j | 0 <= j < |grays| ensures grays[r * Cols(f) + c] <= grays[j] {
      GridPosition(j, Rows(f), Cols(f));
      var r', c' := j / Cols(f), j % Cols(f);
      assert CellGray(f, r, c) <= CellGray(f, r', c');
      assert CellGray(f, r', c') == grays[j];
    }
  }

  /** The darkest cells of a frame get the first glyph. */
  lemma NocolorDarkest(f: Frame, rd: Rendering, r: nat, c: nat)
    requires ValidFrame(f) && ValidRendering(rd) && r < Rows(f) && c < Cols(f)
    requires forall r', c' :: 0 <= r' < Rows(f) && 0 <= c' < Cols(f) ==> CellGray(f, r, c) <= CellGray(f, r', c')
    ensures CellGlyphIndex(f, rd, r, c) == 0
  {
    LeastGray(f, r, c);
    GlyphFirst(AllGrays(f), |rd.nocolorChars|, r * Cols(f) + c);
  }
}
