/**
 * The per-cell helpers of generate/utils.py: the mean of a list of numbers, the grey level
 * of a colour, the box average of one cell's pixel block (rounded the way Python 3's
 * `round` does, half to even) and the three escape-token builders.
 */
module CellRender {
  import opened Strings
  import opened X256Fgbg
  import opened Wrappers

  function Sum(xs: seq<int>): int
  {
    if |xs| == 0 then 0 else Sum(xs[..|xs| - 1]) + xs[|xs| - 1]
  }

  function MinOf(xs: seq<int>): (m: int)
    requires |xs| > 0
    ensures forall i :: 0 <= i < |xs| ==> m <= xs[i]
    ensures exists i :: 0 <= i < |xs| && xs[i] == m
  {
    if |xs| == 1 then xs[0]
    else
      var m := MinOf(xs[..|xs| - 1]);
      if xs[|xs| - 1] < m then xs[|xs| - 1] else m
  }

  function MaxOf(xs: seq<int>): (m: int)
    requires |xs| > 0
    ensures forall i :: 0 <= i < |xs| ==> xs[i] <= m
    ensures exists i :: 0 <= i < |xs| && xs[i] == m
  {
    if |xs| == 1 then xs[0]
    else
      var m := MaxOf(xs[..|xs| - 1]);
      if xs[|xs| - 1] > m then xs[|xs| - 1] else m
  }

  /** A sum of `n` numbers between `lo` and `hi` lies between `n * lo` and `n * hi`. */
  lemma {:induction false} SumBounds(xs: seq<int>, lo: int, hi: int)
    requires forall i :: 0 <= i < |xs| ==> lo <= xs[i] <= hi
    ensures |xs| * lo <= Sum(xs) <= |xs| * hi
  {
    if |xs| > 0 {
      SumBounds(xs[..|xs| - 1], lo, hi);
      assert |xs| * lo == (|xs| - 1) * lo + lo;
      assert |xs| * hi == (|xs| - 1) * hi + hi;
    }
  }

  /** The sum of `n` copies of `v` is `n * v`. */
  lemma {:induction false} SumConstant(xs: seq<int>, v: int)
    requires forall i :: 0 <= i < |xs| ==> xs[i] == v
    ensures Sum(xs) == |xs| * v
  {
    if |xs| > 0 {
      SumConstant(xs[..|xs| - 1], v);
      assert |xs| * v == (|xs| - 1) * v + v;
    }
  }

  /** `avg(it)`: the mean, computed exactly; it lies between the smallest and largest item. */
  function Avg(xs: seq<int>): (a: real)
    requires |xs| > 0
    ensures MinOf(xs) as real <= a <= MaxOf(xs) as real
  {
    SumBounds(xs, MinOf(xs), MaxOf(xs));
    MeanBounds(Sum(xs), |xs|, MinOf(xs), MaxOf(xs));
    Sum(xs) as real / |xs| as real
  }

  lemma MeanBounds(s: int, n: int, lo: int, hi: int)
    requires n > 0 && n * lo <= s <= n * hi
    ensures lo as real <= s as real / n as real <= hi as real
  {
    var q := s as real / n as real;
    assert q * n as real == s as real;
    assert (n * lo) as real == n as real * lo as real;
    assert (n * hi) as real == n as real * hi as real;
  }

  lemma SumOfThree(a: int, b: int, c: int)
    ensures Sum([a, b, c]) == a + b + c
  {
    assert [a][..0] == [];
    assert Sum([a]) == a;
    assert [a, b][..1] == [a];
    assert Sum([a, b]) == a + b;
    assert [a, b, c][..2] == [a, b];
  }

  lemma SumOfFour(a: int, b: int, c: int, d: int)
    ensures Sum([a, b, c, d]) == a + b + c + d
  {
    assert [a, b, c, d][..3] == [a, b, c];
    SumOfThree(a, b, c);
  }

  /** `get_gray(r, g, b)`: the mean of the three channels. */
  function Gray(c: Rgb): (g: real)
    ensures 0.0 <= g <= 255.0
    ensures g * 3.0 == (c.r + c.g + c.b) as real
  {
    SumOfThree(c.r, c.g, c.b);
    Avg([c.r, c.g, c.b])
  }

  /**
   * The integer the bucketiser sorts on in place of the grey level: `r + g + b`, three times
   * the mean, so that it orders and equates colours exactly as `get_gray` does.
   */
  function GrayKey(c: Rgb): (k: int)
    ensures 0 <= k <= 765
  {
    c.r + c.g + c.b
  }

  /** Comparing grey keys is comparing grey levels. */
  lemma GrayKeyOrder(a: Rgb, b: Rgb)
    ensures Gray(a) <= Gray(b) <==> GrayKey(a) <= GrayKey(b)
    ensures Gray(a) == Gray(b) <==> GrayKey(a) == GrayKey(b)
  {
  }

  /** `k * n >= n` for a positive multiplier `k`. */
  lemma {:induction false} MulAtLeast(k: int, n: nat)
    requires k >= 1
    ensures k * n >= n
    decreases k
  {
    if k > 1 {
      MulAtLeast(k - 1, n);
      assert k * n == (k - 1) * n + n;
    }
  }

  /** A multiple `k * n` of a positive `n` that is at most `n / 2` has `k <= 0`. */
  lemma SmallMultiple(k: int, n: int)
    requires n > 0 && 2 * (k * n) <= n
    ensures k <= 0
  {
    if k >= 1 {
      MulAtLeast(k, n);
    }
  }

  lemma MulMonotone(a: nat, b: nat, n: nat)
    requires a <= b
    ensures a * n <= b * n
  {
    if a < b {
      assert b * n - a * n == (b - a) * n;
      MulAtLeast(b - a, n);
    }
  }

  /** Python 3's `round(num / den)`: the nearest integer, a tie going to the even one. */
  function RoundHalfEven(num: int, den: int): (r: int)
    requires den > 0
    ensures 2 * (r * den - num) <= den && 2 * (num - r * den) <= den
    ensures 2 * (r * den - num) == den ==> r % 2 == 0
    ensures 2 * (num - r * den) == den ==> r % 2 == 0
  {
    var q := num / den;
    var rem := num % den;
    assert num == q * den + rem;
    assert (q + 1) * den == q * den + den;
    if 2 * rem < den then q
    else if 2 * rem > den then q + 1
    else if q % 2 == 0 then q
    else q + 1
  }

  /** Rounding a mean of values between `lo` and `hi` stays between them. */
  lemma RoundBetween(num: int, den: int, lo: int, hi: int)
    requires den > 0 && den * lo <= num <= den * hi
    ensures lo <= RoundHalfEven(num, den) <= hi
  {
    var r := RoundHalfEven(num, den);
    assert (lo - r) * den == den * lo - r * den;
    SmallMultiple(lo - r, den);
    assert (r - hi) * den == r * den - den * hi;
    SmallMultiple(r - hi, den);
  }

  /** `round(n * v / n) == v`. */
  lemma RoundExact(v: int, n: int)
    requires n > 0
    ensures RoundHalfEven(n * v, n) == v
  {
    RoundBetween(n * v, n, v, v);
  }

  /** A decoded still image: `pixels[y][x]` is the pixel PIL reads as `px[x, y]`. */
  datatype Image = Image(width: nat, height: nat, pixels: seq<seq<Rgb>>)

  predicate ValidImage(img: Image) {
    |img.pixels| == img.height && forall y :: 0 <= y < img.height ==> |img.pixels[y]| == img.width
  }

  /**
   * The pixels of the block at `(x, y)`, listed as the source's comprehension lists them:
   * `sy` outer over `[y, y + cellHeight)`, `sx` inner over `[x, x + cellWidth)`.
   */
  function BlockPixels(img: Image, x: nat, y: nat, cellHeight: nat, cellWidth: nat): (ps: seq<Rgb>)
    requires ValidImage(img) && x + cellWidth <= img.width && y + cellHeight <= img.height
    ensures |ps| == cellHeight * cellWidth
    decreases cellHeight
  {
    if cellHeight == 0 then []
    else
      var rest := BlockPixels(img, x, y + 1, cellHeight - 1, cellWidth);
      assert cellHeight * cellWidth == cellWidth + (cellHeight - 1) * cellWidth;
      img.pixels[y][x..x + cellWidth] + rest
  }

  /** Pixel `(x + col, y + row)` of the block sits at position `row * cellWidth + col` of the list. */
  lemma {:induction false} BlockPixelsAt(img: Image, x: nat, y: nat, cellHeight: nat, cellWidth: nat, row: nat, col: nat)
    requires ValidImage(img) && x + cellWidth <= img.width && y + cellHeight <= img.height
    requires row < cellHeight && col < cellWidth
    ensures row * cellWidth + col < cellHeight * cellWidth
    ensures BlockPixels(img, x, y, cellHeight, cellWidth)[row * cellWidth + col] == img.pixels[y + row][x + col]
    decreases cellHeight
  {
    var ps := BlockPixels(img, x, y, cellHeight, cellWidth);
    var head := img.pixels[y][x..x + cellWidth];
    var rest := BlockPixels(img, x, y + 1, cellHeight - 1, cellWidth);
    assert ps == head + rest;
    if row == 0 {
      MulAtLeast(cellHeight, cellWidth);
      assert ps[col] == head[col];
    } else {
      var k := (row - 1) * cellWidth + col;
      BlockPixelsAt(img, x, y + 1, cellHeight - 1, cellWidth, row - 1, col);
      RowShift(row, cellHeight, cellWidth, col);
      assert ps[cellWidth + k] == rest[k];
    }
  }

  /** Moving down one row of the block adds one row's width to the index and to the size. */
  lemma RowShift(row: nat, height: nat, width: nat, col: nat)
    requires 0 < row && 0 < height
    ensures row * width + col == width + ((row - 1) * width + col)
    ensures height * width == width + (height - 1) * width
  {
  }

  /** Every listed pixel is a pixel of the block. */
  lemma {:induction false} BlockPixelsFrom(img: Image, x: nat, y: nat, cellHeight: nat, cellWidth: nat, i: nat)
    requires ValidImage(img) && x + cellWidth <= img.width && y + cellHeight <= img.height
    requires i < cellHeight * cellWidth
    ensures exists sy, sx :: (y <= sy < y + cellHeight && x <= sx < x + cellWidth
      && BlockPixels(img, x, y, cellHeight, cellWidth)[i] == img.pixels[sy][sx])
    decreases cellHeight
  {
    var ps := BlockPixels(img, x, y, cellHeight, cellWidth);
    assert cellHeight > 0;
    var rest := BlockPixels(img, x, y + 1, cellHeight - 1, cellWidth);
    var top := img.pixels[y][x..x + cellWidth];
    assert ps == top + rest;
    if i < cellWidth {
      assert ps[i] == img.pixels[y][x + i];
    } else {
      BlockPixelsFrom(img, x, y + 1, cellHeight - 1, cellWidth, i - cellWidth);
      var sy, sx :| y + 1 <= sy < y + cellHeight && x <= sx < x + cellWidth && rest[i - cellWidth] == img.pixels[sy][sx];
      assert ps[i] == img.pixels[sy][sx];
    }
  }

  function Reds(ps: seq<Rgb>): (xs: seq<int>)
    ensures |xs| == |ps| && forall i :: 0 <= i < |ps| ==> xs[i] == ps[i].r
  {
    seq(|ps|, i requires 0 <= i < |ps| => ps[i].r)
  }

  function Greens(ps: seq<Rgb>): (xs: seq<int>)
    ensures |xs| == |ps| && forall i :: 0 <= i < |ps| ==> xs[i] == ps[i].g
  {
    seq(|ps|, i requires 0 <= i < |ps| => ps[i].g)
  }

  function Blues(ps: seq<Rgb>): (xs: seq<int>)
    ensures |xs| == |ps| && forall i :: 0 <= i < |ps| ==> xs[i] == ps[i].b
  {
    seq(|ps|, i requires 0 <= i < |ps| => ps[i].b)
  }

  /** One channel of `get_avg_for_em`: the rounded mean, which stays a channel value. */
  function RoundedMean(xs: seq<int>): (v: Channel)
    requires |xs| > 0 && forall i :: 0 <= i < |xs| ==> 0 <= xs[i] < 256
    ensures MinOf(xs) <= v <= MaxOf(xs)
    ensures 2 * (v * |xs| - Sum(xs)) <= |xs| && 2 * (Sum(xs) - v * |xs|) <= |xs|
  {
    SumBounds(xs, MinOf(xs), MaxOf(xs));
    RoundBetween(Sum(xs), |xs|, MinOf(xs), MaxOf(xs));
    RoundHalfEven(Sum(xs), |xs|)
  }

  /** `get_avg_for_em(px, x, y, cell_height, cell_width)`: per channel, the rounded mean over the block's pixels. */
  function AvgForEm(img: Image, x: nat, y: nat, cellHeight: nat, cellWidth: nat): Rgb
    requires ValidImage(img) && cellHeight > 0 && cellWidth > 0
    requires x + cellWidth <= img.width && y + cellHeight <= img.height
  {
    var ps := BlockPixels(img, x, y, cellHeight, cellWidth);
    assert |ps| > 0 by {
      assert cellHeight * cellWidth >= 1 * cellWidth;
    }
    Rgb(RoundedMean(Reds(ps)), RoundedMean(Greens(ps)), RoundedMean(Blues(ps)))
  }

  /**
   * Each channel of `get_avg_for_em` is the mean of that channel over the block, rounded to
   * within half a unit, independently of the other channels, and lies between that channel's
   * smallest and largest value in the block.
   */
  lemma AvgForEmMean(img: Image, x: nat, y: nat, cellHeight: nat, cellWidth: nat)
    requires ValidImage(img) && cellHeight > 0 && cellWidth > 0
    requires x + cellWidth <= img.width && y + cellHeight <= img.height
    ensures var ps, c := BlockPixels(img, x, y, cellHeight, cellWidth), AvgForEm(img, x, y, cellHeight, cellWidth);
      && MinOf(Reds(ps)) <= c.r <= MaxOf(Reds(ps))
      && MinOf(Greens(ps)) <= c.g <= MaxOf(Greens(ps))
      && MinOf(Blues(ps)) <= c.b <= MaxOf(Blues(ps))
    ensures var ps, c := BlockPixels(img, x, y, cellHeight, cellWidth), AvgForEm(img, x, y, cellHeight, cellWidth);
      && 2 * (c.r * |ps| - Sum(Reds(ps))) <= |ps| && 2 * (Sum(Reds(ps)) - c.r * |ps|) <= |ps|
      && 2 * (c.g * |ps| - Sum(Greens(ps))) <= |ps| && 2 * (Sum(Greens(ps)) - c.g * |ps|) <= |ps|
      && 2 * (c.b * |ps| - Sum(Blues(ps))) <= |ps| && 2 * (Sum(Blues(ps)) - c.b * |ps|) <= |ps|
  {
  }

  /** A block of one colour averages to exactly that colour. */
  lemma AvgForEmUniform(img: Image, x: nat, y: nat, cellHeight: nat, cellWidth: nat, c: Rgb)
    requires ValidImage(img) && cellHeight > 0 && cellWidth > 0
    requires x + cellWidth <= img.width && y + cellHeight <= img.height
    requires forall sy, sx :: y <= sy < y + cellHeight && x <= sx < x + cellWidth ==> img.pixels[sy][sx] == c
    ensures AvgForEm(img, x, y, cellHeight, cellWidth) == c
  {
    var ps := BlockPixels(img, x, y, cellHeight, cellWidth);
    assert forall i :: 0 <= i < |ps| ==> ps[i] == c by {
      forall i | 0 <= i < |ps| ensures ps[i] == c {
        BlockPixelsFrom(img, x, y, cellHeight, cellWidth, i);
      }
    }
    SumConstant(Reds(ps), c.r);
    SumConstant(Greens(ps), c.g);
    SumConstant(Blues(ps), c.b);
    RoundExact(c.r, |ps|);
    RoundExact(c.g, |ps|);
    RoundExact(c.b, |ps|);
  }

  const BLACK: Rgb := Rgb(0, 0, 0)
  const WHITE: Rgb := Rgb(255, 255, 255)

  /** Two white and two black pixels average to 128 in every channel: 127.5 rounds to even. */
  lemma GrayBlockExample()
    ensures AvgForEm(Image(2, 2, [[WHITE, BLACK], [WHITE, BLACK]]), 0, 0, 2, 2) == Rgb(128, 128, 128)
  {
    var img := Image(2, 2, [[WHITE, BLACK], [WHITE, BLACK]]);
    var ps := BlockPixels(img, 0, 0, 2, 2);
    assert BlockPixels(img, 0, 1, 1, 2) == [WHITE, BLACK];
    assert ps == [WHITE, BLACK, WHITE, BLACK];
    assert Reds(ps) == [255, 0, 255, 0];
    assert Greens(ps) == Reds(ps) && Blues(ps) == Reds(ps);
    SumOfFour(255, 0, 255, 0);
  }

  /** Channels are averaged separately: (0, 128, 255) twice and (255, 128, 0) twice give 128s. */
  lemma SeparateChannelsExample()
    ensures var c1, c2 := Rgb(0, 128, 255), Rgb(255, 128, 0);
      AvgForEm(Image(2, 2, [[c1, c1], [c2, c2]]), 0, 0, 2, 2) == Rgb(128, 128, 128)
  {
    var c1, c2 := Rgb(0, 128, 255), Rgb(255, 128, 0);
    var img := Image(2, 2, [[c1, c1], [c2, c2]]);
    var ps := BlockPixels(img, 0, 0, 2, 2);
    assert BlockPixels(img, 0, 1, 1, 2) == [c2, c2];
    assert ps == [c1, c1, c2, c2];
    assert Reds(ps) == [0, 0, 255, 255];
    assert Greens(ps) == [128, 128, 128, 128];
    assert Blues(ps) == [255, 255, 0, 0];
    assert RoundHalfEven(510, 4) == 128 && RoundHalfEven(512, 4) == 128;
    SumOfFour(0, 0, 255, 255);
    SumOfFour(128, 128, 128, 128);
    SumOfFour(255, 255, 0, 0);
  }

  /** `get_256_cell(r, g, b)`: a foreground escape for the palette index `from_rgb` picks, then the placeholder. */
  function Get256Cell(c: Rgb, fromRgb: Rgb -> nat, placeholder: char): string {
    [ESC] + "[38;5;" + NatToString(fromRgb(c)) + "m" + [placeholder]
  }

  /** `get_truecolor_cell(r, g, b)`: a 24-bit foreground escape with the exact channels, then the placeholder. */
  function GetTruecolorCell(c: Rgb, placeholder: char): string {
    [ESC] + "[38;2;" + NatToString(c.r) + ";" + NatToString(c.g) + ";" + NatToString(c.b) + "m" + [placeholder]
  }

  /** `get_256_cell(0, 128, 255)` with `#` as the placeholder, where `from_rgb` picks entry 33. */
  lemma Get256CellExample(fromRgb: Rgb -> nat)
    requires fromRgb(Rgb(0, 128, 255)) == 33
    ensures Get256Cell(Rgb(0, 128, 255), fromRgb, '#') == [ESC] + "[38;5;33m#"
  {
    assert NatToString(33) == "33" by {
      assert NatToString(3) == "3";
    }
  }

  /** `get_truecolor_cell(0, 128, 255)` with `#` as the placeholder. */
  lemma GetTruecolorCellExample()
    ensures GetTruecolorCell(Rgb(0, 128, 255), '#') == [ESC] + "[38;2;0;128;255m#"
  {
    assert NatToString(0) == "0";
    assert NatToString(128) == "128" by {
      assert NatToString(12) == "12" by {
        assert NatToString(1) == "1";
      }
    }
    assert NatToString(255) == "255" by {
      assert NatToString(25) == "25" by {
        assert NatToString(2) == "2";
      }
    }
  }

  /** Decimal digits contain none of the characters that delimit an escape sequence. */
  lemma NoSemicolonInDigits(n: nat)
    ensures ';' !in NatToString(n) && 'm' !in NatToString(n) && ESC !in NatToString(n)
  {
    var s := NatToString(n);
    forall i | 0 <= i < |s| ensures s[i] != ';' && s[i] != 'm' && s[i] != ESC {
      assert IsDigit(s[i]);
    }
  }

  /** The glyph index of the dual-tone mode, `floor(best / second * (K - 1))`. */
  function GlyphIndex(best: nat, second: nat, k: nat): (i: nat)
    requires 0 < best <= second && k > 0
    ensures i <= k - 1
    ensures best == second ==> i == k - 1
  {
    MulMonotone(best, second, k - 1);
    DivAtMost(best * (k - 1), second, k - 1);
    DivOfMultiple(k - 1, second);
    best * (k - 1) / second
  }

  /** A multiple `k * n` of a positive `n` in `[0, n)` has `k == 0`. */
  lemma MultipleBelow(k: int, n: int)
    requires n > 0 && 0 <= k * n < n
    ensures k == 0
  {
    if k >= 1 {
      MulAtLeast(k, n);
    } else if k <= -1 {
      assert (-k) * n == -(k * n);
      MulAtLeast(-k, n);
    }
  }

  lemma DivOfMultiple(m: int, d: int)
    requires d > 0
    ensures d * m / d == m
  {
    var q, r := d * m / d, d * m % d;
    assert (m - q) * d == r;
    MultipleBelow(m - q, d);
  }

  lemma DivAtMost(a: nat, d: nat, bound: nat)
    requires d > 0 && a <= bound * d
    ensures a / d <= bound
  {
    var q := a / d;
    assert q * d <= a;
    assert (bound + 1) * d == bound * d + d;
    if q > bound {
      MulMonotone(bound + 1, q, d);
    }
  }

  /**
   * The dual-tone token for a `(best, second)` pair: background escape for `best`, foreground
   * escape for `second`, then a space when `best` is an exact match and otherwise the glyph
   * chosen by the distance ratio.
   */
  function FgbgToken(best: Match, second: Match, glyphs: string): string
    requires |glyphs| > 0 && second.distance >= best.distance
  {
    [ESC] + "[48;5;" + NatToString(best.index) + "m"
      + [ESC] + "[38;5;" + NatToString(second.index) + "m" + [FgbgGlyph(best, second, glyphs)]
  }

  /** The glyph of a dual-tone cell: a space for an exact match, the densest glyph for a tie. */
  function FgbgGlyph(best: Match, second: Match, glyphs: string): (g: char)
    requires |glyphs| > 0 && second.distance >= best.distance
    ensures best.distance == 0 ==> g == ' '
    ensures best.distance > 0 ==> g in glyphs
    ensures 0 < best.distance == second.distance ==> g == glyphs[|glyphs| - 1]
  {
    if best.distance == 0 then ' '
    else glyphs[GlyphIndex(best.distance, second.distance, |glyphs|)]
  }

  /** `get_256fgbg_cell(r, g, b)`: the palette search, then the dual-tone token of its two entries. */
  method Get256FgbgCell(palette: seq<Rgb>, c: Rgb, glyphs: string) returns (token: string)
    requires |glyphs| > 0
    ensures SecondAtLeastBestOf(palette, c)
    ensures token == FgbgToken(Best(Distances(palette, c)), Second(Distances(palette, c)), glyphs)
  {
    var best, second := Top2Colors(palette, c);
    Top2ColorsProperties(palette, c);
    token := FgbgToken(best, second, glyphs);
  }

  predicate SecondAtLeastBestOf(palette: seq<Rgb>, c: Rgb) {
    Second(Distances(palette, c)).distance >= Best(Distances(palette, c)).distance
  }

  /** A colour that is itself a palette entry gets the blank glyph. */
  lemma ExactPaletteColourIsBlank(palette: seq<Rgb>, c: Rgb, glyphs: string)
    requires |glyphs| > 0 && c in palette
    ensures SecondAtLeastBestOf(palette, c)
    ensures Best(Distances(palette, c)).distance == 0
    ensures FgbgGlyph(Best(Distances(palette, c)), Second(Distances(palette, c)), glyphs) == ' '
  {
    Top2ColorsProperties(palette, c);
    var k :| 0 <= k < |palette| && palette[k] == c;
    assert SquaredDistance(palette[k], c) == 0;
  }
}
