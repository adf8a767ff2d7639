/**
 * The dual-tone palette search of generate/x256fgbg_utils.py: one pass over the 256-entry
 * palette that keeps a `best` entry and, as `second`, whatever `best` was before it was
 * last replaced.
 */
module X256Fgbg {

  type Channel = x: int | 0 <= x < 256

  datatype Rgb = Rgb(r: Channel, g: Channel, b: Channel)

  /** The "no entry yet" distance, `256 ** 2 * 3`. */
  const MAX_DISTANCE: nat := 256 * 256 * 3

  /** A palette entry (by index) and its squared distance to the colour searched for. */
  datatype Match = Match(distance: nat, index: nat)

  /** The value `best` and `second` start from. */
  const SENTINEL: Match := Match(MAX_DISTANCE, 1)

  function Sq(d: int): nat { d * d }

  /** The palette distance: the sum of the squared channel differences, below the sentinel. */
  function SquaredDistance(a: Rgb, b: Rgb): (d: nat)
    ensures d < MAX_DISTANCE
    ensures d == 0 <==> a == b
  {
    assert Sq(a.r - b.r) <= 255 * 255 && Sq(a.g - b.g) <= 255 * 255 && Sq(a.b - b.b) <= 255 * 255 by {
      SqBound(a.r - b.r);
      SqBound(a.g - b.g);
      SqBound(a.b - b.b);
    }
    Sq(a.r - b.r) + Sq(a.g - b.g) + Sq(a.b - b.b)
  }

  lemma SqBound(d: int)
    requires -255 <= d <= 255
    ensures Sq(d) <= 255 * 255
    ensures Sq(d) == 0 <==> d == 0
  {
    if d < 0 {
      assert Sq(d) == (-d) * (-d);
      SqBoundNat(-d);
    } else {
      SqBoundNat(d);
    }
  }

  lemma SqBoundNat(d: nat)
    requires d <= 255
    ensures d * d <= 255 * 255
  {
    assert d * d <= d * 255 <= 255 * 255;
  }

  /** The distance of every palette entry to `c`, in palette order. */
  function Distances(palette: seq<Rgb>, c: Rgb): (ds: seq<nat>)
    ensures |ds| == |palette|
    ensures forall i :: 0 <= i < |ds| ==> ds[i] == SquaredDistance(palette[i], c) < MAX_DISTANCE
  {
    seq(|palette|, i requires 0 <= i < |palette| => SquaredDistance(palette[i], c))
  }

  /** The smallest distance in a non-empty list. */
  function MinDistance(ds: seq<nat>): (m: nat)
    requires |ds| > 0
    ensures forall k :: 0 <= k < |ds| ==> m <= ds[k]
    ensures exists k :: 0 <= k < |ds| && ds[k] == m
  {
    if |ds| == 1 then ds[0]
    else
      var m := MinDistance(ds[..|ds| - 1]);
      if ds[|ds| - 1] < m then ds[|ds| - 1] else m
  }

  /** The highest index at which the smallest distance occurs. */
  function LastArgMin(ds: seq<nat>): (j: nat)
    requires |ds| > 0
    ensures j < |ds| && ds[j] == MinDistance(ds)
    ensures forall k :: j < k < |ds| ==> ds[k] > MinDistance(ds)
  {
    var m := MinDistance(ds);
    var i :| 0 <= i < |ds| && ds[i] == m;
    LastFrom(ds, m, i)
  }

  function LastFrom(ds: seq<nat>, m: nat, i: nat): (j: nat)
    requires i < |ds| && ds[i] == m
    requires forall k :: 0 <= k < |ds| ==> m <= ds[k]
    ensures i <= j < |ds| && ds[j] == m
    ensures forall k :: j < k < |ds| ==> ds[k] > m
    decreases |ds| - i
  {
    if i + 1 == |ds| then i
    else if ds[|ds| - 1] == m then |ds| - 1
    else
      var after := NextMin(ds, m, i + 1);
      if after == |ds| then i else LastFrom(ds, m, after)
  }

  /** The first index at or after `from` holding `m`, or `|ds|` when there is none. */
  function NextMin(ds: seq<nat>, m: nat, from: nat): (k: nat)
    requires from <= |ds|
    ensures from <= k <= |ds|
    ensures k < |ds| ==> ds[k] == m
    ensures forall i :: from <= i < k ==> ds[i] != m
    decreases |ds| - from
  {
    if from == |ds| then from
    else if ds[from] == m then from
    else NextMin(ds, m, from + 1)
  }

  /** What `best` holds after the loop over `ds`: the minimum at its highest index. */
  function Best(ds: seq<nat>): Match
  {
    if |ds| == 0 then SENTINEL else Match(MinDistance(ds), LastArgMin(ds))
  }

  /** What `second` holds after the loop over `ds`: the `best` of the entries before `best`'s index. */
  function Second(ds: seq<nat>): Match
  {
    if |ds| == 0 then SENTINEL else Best(ds[..LastArgMin(ds)])
  }

  /**
   * `top_2_colors`: the loop over the palette, with the `<=` comparison and the
   * `second = best` hand-over of the source.
   */
  method Top2Colors(palette: seq<Rgb>, c: Rgb) returns (best: Match, second: Match)
    ensures best == Best(Distances(palette, c)) && second == Second(Distances(palette, c))
  {
    ghost var ds := Distances(palette, c);
    best := SENTINEL;
    second := SENTINEL;
    var index := 0;
    while index < |palette|
      invariant 0 <= index <= |palette|
      invariant best == Best(ds[..index]) && second == Second(ds[..index])
    {
      var d := SquaredDistance(palette[index], c);
      Top2Step(ds, index);
      if d <= best.distance {
        second := best;
        best := Match(d, index);
      }
      index := index + 1;
    }
    assert ds[..|palette|] == ds;
  }

  /** One turn of the `top_2_colors` loop, on the distances up to and including entry `index`. */
  lemma Top2Step(ds: seq<nat>, index: nat)
    requires index < |ds| && ds[index] < MAX_DISTANCE
    ensures var p, q, d := ds[..index], ds[..index + 1], ds[index];
      if d <= Best(p).distance then Best(q) == Match(d, index) && Second(q) == Best(p)
      else Best(q) == Best(p) && Second(q) == Second(p)
  {
    var p, d := ds[..index], ds[index];
    assert ds[..index + 1] == p + [d];
    if d <= Best(p).distance {
      BestExtendLower(p, d);
    } else {
      BestExtendHigher(p, d);
    }
  }

  /** What the source's loop promises about the two entries it returns. */
  lemma Top2ColorsProperties(palette: seq<Rgb>, c: Rgb)
    ensures var best, second := Best(Distances(palette, c)), Second(Distances(palette, c));
      && (|palette| == 0 ==> best == SENTINEL && second == SENTINEL)
      && (|palette| > 0 ==>
            best.index < |palette| && best.distance == SquaredDistance(palette[best.index], c))
      && (forall k :: 0 <= k < |palette| ==> best.distance <= SquaredDistance(palette[k], c))
      && (forall k :: best.index < k < |palette| ==> best.distance < SquaredDistance(palette[k], c))
      && second.distance >= best.distance
      && (|palette| > 0 && best.index == 0 ==> second == SENTINEL)
      && (0 < best.index < |palette| ==>
            (second.index < best.index
             && forall k :: 0 <= k < best.index ==> second.distance <= SquaredDistance(palette[k], c)))
      && (forall k ::
            (0 <= k < |palette| && k != best.index && SquaredDistance(palette[k], c) == best.distance)
            ==> second.distance == best.distance)
  {
    var ds := Distances(palette, c);
    SecondAtLeastBest(ds);
    forall k | 0 <= k < |palette| && k != Best(ds).index && SquaredDistance(palette[k], c) == Best(ds).distance
      ensures Second(ds).distance == Best(ds).distance
    {
      SecondOnTie(ds, k);
    }
    if |palette| > 0 && 0 < Best(ds).index {
      SecondBeforeBest(ds);
    }
  }

  /** A new entry at or below the current best becomes best, and the old best becomes second. */
  lemma BestExtendLower(ds: seq<nat>, d: nat)
    requires d <= Best(ds).distance
    ensures Best(ds + [d]) == Match(d, |ds|)
    ensures Second(ds + [d]) == Best(ds)
  {
    var e := ds + [d];
    if |ds| > 0 {
      assert e[|ds|] == d;
      assert MinDistance(e) == d by {
        forall k | 0 <= k < |e| ensures d <= e[k] {
          if k < |ds| { assert e[k] == ds[k]; }
        }
      }
    }
    assert e[..|ds|] == ds;
  }

  /** A new entry above the current best changes neither `best` nor `second`. */
  lemma BestExtendHigher(ds: seq<nat>, d: nat)
    requires d > Best(ds).distance
    requires |ds| > 0
    ensures Best(ds + [d]) == Best(ds)
    ensures Second(ds + [d]) == Second(ds)
  {
    var e := ds + [d];
    var m := MinDistance(ds);
    assert e[..|ds|] == ds;
    assert MinDistance(e) == m by {
      forall k | 0 <= k < |e| ensures m <= e[k] {
        if k < |ds| { assert e[k] == ds[k]; }
      }
      var i :| 0 <= i < |ds| && ds[i] == m;
      assert e[i] == m;
    }
    var j := LastArgMin(ds);
    assert e[j] == m;
    assert forall k :: j < k < |e| ==> e[k] > m by {
      forall k | j < k < |e| ensures e[k] > m {
        if k < |ds| { assert e[k] == ds[k]; }
      }
    }
    LastArgMinUnique(e, j);
    assert e[..j] == ds[..j];
  }

  /** An index holding the minimum with only larger entries after it is the last minimum. */
  lemma LastArgMinUnique(ds: seq<nat>, j: nat)
    requires j < |ds| && ds[j] == MinDistance(ds)
    requires forall k :: j < k < |ds| ==> ds[k] > MinDistance(ds)
    ensures LastArgMin(ds) == j
  {
  }

  /** The minimum over a prefix is never below the minimum over the whole list. */
  lemma SecondAtLeastBest(ds: seq<nat>)
    requires forall k :: 0 <= k < |ds| ==> ds[k] < MAX_DISTANCE
    ensures Second(ds).distance >= Best(ds).distance
  {
    if |ds| > 0 {
      var j := LastArgMin(ds);
      if j > 0 {
        var p := ds[..j];
        var i :| 0 <= i < |p| && p[i] == MinDistance(p);
        assert ds[i] == p[i];
      }
    }
  }

  /**
   * When the minimum occurs at another index too, `second` carries the minimum as well: it is
   * the last such index before `best`'s.
   */
  lemma SecondOnTie(ds: seq<nat>, k: nat)
    requires k < |ds| && k != LastArgMin(ds) && ds[k] == MinDistance(ds)
    ensures Second(ds).distance == Best(ds).distance
    ensures k <= Second(ds).index < LastArgMin(ds)
  {
    var j := LastArgMin(ds);
    assert k < j;
    var p := ds[..j];
    assert p[k] == ds[k];
    var i :| 0 <= i < |p| && p[i] == MinDistance(p);
    assert ds[i] == p[i];
    assert MinDistance(p) == MinDistance(ds);
  }

  /** When `best` is not entry 0, `second` is the nearest of the entries before it. */
  lemma SecondBeforeBest(ds: seq<nat>)
    requires |ds| > 0 && LastArgMin(ds) > 0
    ensures Second(ds).index < LastArgMin(ds)
    ensures forall k :: 0 <= k < LastArgMin(ds) ==> Second(ds).distance <= ds[k]
  {
    var p := ds[..LastArgMin(ds)];
    forall k | 0 <= k < LastArgMin(ds) ensures Second(ds).distance <= ds[k] {
      assert p[k] == ds[k];
    }
  }

  /**
   * `second` is not the second-nearest entry: with distances 5, 1, 3 the loop ends with
   * `best` at entry 1 and `second` at entry 0, although entry 2 is nearer than entry 0.
   */
  lemma SecondIsPreviousBest()
    ensures var ds := [5, 1, 3];
      Best(ds) == Match(1, 1) && Second(ds) == Match(5, 0) && ds[2] < Second(ds).distance
  {
    var ds: seq<nat> := [5, 1, 3];
    assert MinDistance(ds) == 1 by {
      assert MinDistance(ds[..2]) == 1 by { assert ds[..2][..1] == [5]; }
    }
    LastArgMinUnique(ds, 1);
    assert ds[..1] == [5];
    LastArgMinUnique([5], 0);
  }
}
