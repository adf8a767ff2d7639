/**
 * The grey-level bucketiser of `convert_frame` (generate/__init__.py): an ordered count of
 * each distinct grey level in ascending order, then a walk over those levels that moves on
 * to the next glyph once the current bucket holds more than `N / M` cells, for `N` cells
 * and `M` glyphs.
 */
module Buckets {
  import opened Sorting
  import opened CellRender

  predicate NoDuplicates(d: seq<int>) {
    forall j, k :: 0 <= j < k < |d| ==> d[j] != d[k]
  }

  predicate StrictlyAscending(d: seq<int>) {
    forall j, k :: 0 <= j < k < |d| ==> d[j] < d[k]
  }

  /** The keys of an ordered dictionary filled from `s`: each value once, in order of first occurrence. */
  function Distinct(s: seq<int>): (d: seq<int>)
    ensures forall x :: x in d <==> x in s
    ensures NoDuplicates(d)
  {
    if |s| == 0 then []
    else
      var d := Distinct(s[..|s| - 1]);
      assert forall x :: x in s <==> x in s[..|s| - 1] || x == s[|s| - 1] by {
        assert s == s[..|s| - 1] + [s[|s| - 1]];
      }
      if s[|s| - 1] in d then d else d + [s[|s| - 1]]
  }

  /** Filled from an ascending list, the keys come out strictly ascending. */
  lemma {:induction false} DistinctOfSorted(s: seq<int>)
    requires SortedInts(s)
    ensures StrictlyAscending(Distinct(s))
  {
    if |s| > 0 {
      var p := s[..|s| - 1];
      assert SortedInts(p);
      DistinctOfSorted(p);
      var d := Distinct(p);
      if s[|s| - 1] !in d {
        forall j | 0 <= j < |d| ensures d[j] < s[|s| - 1] {
          assert d[j] in p;
          var i :| 0 <= i < |p| && p[i] == d[j];
          assert s[i] <= s[|s| - 1];
        }
      }
    }
  }

  /** The position of `x` in `keys`, or `|keys|` when it is not a key. */
  function IndexOf(keys: seq<int>, x: int): (k: nat)
    ensures k <= |keys|
    ensures k < |keys| ==> keys[k] == x
    ensures k == |keys| <==> x !in keys
  {
    if |keys| == 0 then 0
    else if keys[0] == x then 0
    else 1 + IndexOf(keys[1..], x)
  }

  /** The value stored under each key: how many times the key occurs in `s`. */
  function Counts(keys: seq<int>, s: seq<int>): (cs: seq<nat>)
    ensures |cs| == |keys|
  {
    seq(|keys|, j requires 0 <= j < |keys| => multiset(s)[keys[j]])
  }

  lemma {:induction false} SumIncrementAt(cs: seq<nat>, k: nat)
    requires k < |cs|
    ensures Sum(cs[k := cs[k] + 1]) == Sum(cs) + 1
  {
    var cs' := cs[k := cs[k] + 1];
    if k < |cs| - 1 {
      assert cs'[..|cs'| - 1] == cs[..|cs| - 1][k := cs[k] + 1];
      SumIncrementAt(cs[..|cs| - 1], k);
    } else {
      assert cs'[..|cs'| - 1] == cs[..|cs| - 1];
    }
  }

  lemma DistinctSnoc(p: seq<int>, x: int)
    ensures Distinct(p + [x]) == if x in Distinct(p) then Distinct(p) else Distinct(p) + [x]
  {
    assert (p + [x])[..|p|] == p;
  }

  /** Counting one more occurrence of an existing key adds one to that key's value. */
  lemma CountsSnocPresent(keys: seq<int>, p: seq<int>, x: int, k: nat)
    requires k < |keys| && keys[k] == x && NoDuplicates(keys)
    ensures Counts(keys, p + [x]) == Counts(keys, p)[k := Counts(keys, p)[k] + 1]
  {
    assert multiset(p + [x]) == multiset(p) + multiset{x};
  }

  /** A value seen for the first time becomes a new key with value one. */
  lemma CountsSnocAbsent(keys: seq<int>, p: seq<int>, x: int)
    requires x !in keys && x !in p
    ensures Counts(keys + [x], p + [x]) == Counts(keys, p) + [1]
  {
    assert multiset(p + [x]) == multiset(p) + multiset{x};
    assert multiset(p)[x] == 0;
  }

  /** Every level occurs at least once. */
  lemma CountsPositive(s: seq<int>)
    ensures forall j :: 0 <= j < |Distinct(s)| ==> Counts(Distinct(s), s)[j] >= 1
  {
    var d := Distinct(s);
    forall j | 0 <= j < |d| ensures Counts(d, s)[j] >= 1 {
      assert d[j] in s;
    }
  }

  /** The counts add up to the number of cells. */
  lemma {:induction false} CountsSum(s: seq<int>)
    ensures Sum(Counts(Distinct(s), s)) == |s|
  {
    if |s| > 0 {
      var p, x := s[..|s| - 1], s[|s| - 1];
      assert s == p + [x];
      CountsSum(p);
      DistinctSnoc(p, x);
      var dp := Distinct(p);
      var cp := Counts(dp, p);
      if x in dp {
        var k := IndexOf(dp, x);
        assert Distinct(s) == dp;
        CountsSnocPresent(dp, p, x, k);
        assert Counts(dp, s) == cp[k := cp[k] + 1];
        SumIncrementAt(cp, k);
      } else {
        assert Distinct(s) == dp + [x];
        CountsSnocAbsent(dp, p, x);
        assert Counts(dp + [x], s) == cp + [1];
        assert (cp + [1])[..|dp|] == cp;
        assert Sum(cp + [1]) == Sum(cp) + 1;
      }
    }
  }

  /** Where the walk stands: the bucket being filled and how many cells it holds so far. */
  datatype Walk = Walk(index: nat, count: nat)

  /** Before a level is placed: move to a fresh bucket once the current one holds more than `n / m` cells. */
  function Advance(w: Walk, n: nat, m: nat): Walk {
    if w.count * m > n then Walk(w.index + 1, 0) else w
  }

  /** The walk's state after placing the levels whose counts are `cs`. */
  function WalkAfter(cs: seq<nat>, n: nat, m: nat): Walk {
    if |cs| == 0 then Walk(0, 0)
    else
      var w := Advance(WalkAfter(cs[..|cs| - 1], n, m), n, m);
      Walk(w.index, w.count + cs[|cs| - 1])
  }

  /** The bucket (glyph index) the walk gives level `j`. */
  function BucketOf(cs: seq<nat>, j: nat, n: nat, m: nat): nat
    requires j < |cs|
  {
    Advance(WalkAfter(cs[..j], n, m), n, m).index
  }

  /** The darkest level always gets glyph 0. */
  lemma BucketOfFirst(cs: seq<nat>, n: nat, m: nat)
    requires |cs| > 0
    ensures BucketOf(cs, 0, n, m) == 0
  {
    assert cs[..0] == [];
  }

  /** Consecutive levels get the same glyph or the next one. */
  lemma BucketOfStep(cs: seq<nat>, j: nat, n: nat, m: nat)
    requires j + 1 < |cs|
    ensures BucketOf(cs, j + 1, n, m) == BucketOf(cs, j, n, m)
         || BucketOf(cs, j + 1, n, m) == BucketOf(cs, j, n, m) + 1
  {
    assert cs[..j + 1][..j] == cs[..j];
  }

  /** A lighter level never gets a lower glyph index. */
  lemma {:induction false} BucketOfMonotone(cs: seq<nat>, j: nat, k: nat, n: nat, m: nat)
    requires j <= k < |cs|
    ensures BucketOf(cs, j, n, m) <= BucketOf(cs, k, n, m)
    decreases k - j
  {
    if j < k {
      BucketOfMonotone(cs, j, k - 1, n, m);
      BucketOfStep(cs, k - 1, n, m);
    }
  }

  /**
   * Every closed bucket held more than `n / m` cells: `m` times the cells already placed
   * outside the current bucket is at least `n + 1` per closed bucket.
   */
  lemma {:induction false} WalkInvariant(cs: seq<nat>, n: nat, m: nat)
    ensures WalkAfter(cs, n, m).count <= Sum(cs)
    ensures m * (Sum(cs) - WalkAfter(cs, n, m).count) >= WalkAfter(cs, n, m).index * (n + 1)
  {
    if |cs| > 0 {
      var p := cs[..|cs| - 1];
      WalkInvariant(p, n, m);
      AdvanceInvariant(WalkAfter(p, n, m), Sum(p), n, m);
    }
  }

  lemma AdvanceInvariant(w: Walk, total: int, n: nat, m: nat)
    requires w.count <= total && m * (total - w.count) >= w.index * (n + 1)
    ensures Advance(w, n, m).count <= total
    ensures m * (total - Advance(w, n, m).count) >= Advance(w, n, m).index * (n + 1)
  {
    if w.count * m > n {
      assert m * total == m * (total - w.count) + w.count * m;
      assert (w.index + 1) * (n + 1) == w.index * (n + 1) + (n + 1);
    }
  }

  /**
   * With every level present at least once and `n` cells in all, the glyph index stays below
   * `m`: looking up the glyph never runs off the end of the glyph string.
   */
  lemma BucketOfBound(cs: seq<nat>, j: nat, n: nat, m: nat)
    requires j < |cs| && cs[j] >= 1 && Sum(cs) == n && m > 0
    ensures BucketOf(cs, j, n, m) < m
  {
    var p := cs[..j];
    var w := WalkAfter(p, n, m);
    WalkInvariant(p, n, m);
    AdvanceInvariant(w, Sum(p), n, m);
    SumPrefix(cs, j);
    var w' := Advance(w, n, m);
    ScaledBound(w'.index, m, n, Sum(p) - w'.count);
  }

  lemma ScaledBound(b: nat, m: nat, n: nat, t: nat)
    requires m > 0 && t + 1 <= n && m * t >= b * (n + 1)
    ensures b < m
  {
    MulMonotone(t, n, m);
    assert (n + 1) * m == n * m + m;
    BelowAfterScaling(b, m, n + 1);
  }

  lemma BelowAfterScaling(b: nat, m: nat, f: nat)
    requires f > 0 && b * f < m * f
    ensures b < m
  {
    if b >= m {
      MulMonotone(m, b, f);
    }
  }

  /** The levels after position `j` add at least the count of level `j` to the prefix sum. */
  lemma {:induction false} SumPrefix(cs: seq<nat>, j: nat)
    requires j < |cs|
    ensures Sum(cs[..j]) + cs[j] <= Sum(cs)
    decreases |cs|
  {
    if j < |cs| - 1 {
      SumPrefix(cs[..|cs| - 1], j);
      assert cs[..|cs| - 1][..j] == cs[..j];
    } else {
      assert cs[..|cs| - 1] == cs[..j];
    }
  }

  /**
   * The first loop of the bucketiser: count each grey level of the (sorted) cell list into
   * an ordered dictionary, kept here as its key list and the matching value list.
   */
  method CountLevels(sorted: seq<int>) returns (keys: seq<int>, counts: seq<nat>)
    ensures keys == Distinct(sorted) && counts == Counts(keys, sorted)
  {
    keys, counts := [], [];
    var i := 0;
    while i < |sorted|
      invariant 0 <= i <= |sorted|
      invariant keys == Distinct(sorted[..i]) && counts == Counts(keys, sorted[..i])
    {
      var cell := sorted[i];
      assert sorted[..i + 1] == sorted[..i] + [cell];
      DistinctSnoc(sorted[..i], cell);
      var k := IndexOf(keys, cell);
      if k < |keys| {
        CountsSnocPresent(keys, sorted[..i], cell, k);
        counts := counts[k := counts[k] + 1];
      } else {
        CountsSnocAbsent(keys, sorted[..i], cell);
        keys := keys + [cell];
        counts := counts + [1];
      }
      i := i + 1;
    }
    assert sorted[..|sorted|] == sorted;
  }

  /**
   * The second loop: walk the levels in key order, moving to the next glyph once the
   * current bucket holds more than `n / m` cells, and record each level's glyph index.
   */
  method AssignBuckets(keys: seq<int>, counts: seq<nat>, n: nat, m: nat) returns (idxs: map<int, nat>)
    requires |keys| == |counts| && NoDuplicates(keys)
    ensures forall x :: x in idxs <==> x in keys
    ensures forall j :: 0 <= j < |keys| ==> keys[j] in idxs && idxs[keys[j]] == BucketOf(counts, j, n, m)
    ensures forall x :: x in idxs ==> IndexOf(keys, x) < |counts| && idxs[x] == BucketOf(counts, IndexOf(keys, x), n, m)
  {
    var curCount: nat := 0;
    var curCharIdx: nat := 0;
    idxs := map[];
    var j := 0;
    while j < |keys|
      invariant 0 <= j <= |keys|
      invariant Walk(curCharIdx, curCount) == WalkAfter(counts[..j], n, m)
      invariant forall x :: x in idxs <==> x in keys[..j]
      invariant forall i :: 0 <= i < j ==> keys[i] in idxs && idxs[keys[i]] == BucketOf(counts, i, n, m)
    {
      if curCount * m > n {
        curCount := 0;
        curCharIdx := curCharIdx + 1;
      }
      idxs := idxs[keys[j] := curCharIdx];
      curCount := curCount + counts[j];
      assert counts[..j + 1][..j] == counts[..j];
      assert keys[..j + 1] == keys[..j] + [keys[j]];
      j := j + 1;
    }
    assert keys[..|keys|] == keys;
    forall x | x in idxs ensures IndexOf(keys, x) < |counts| && idxs[x] == BucketOf(counts, IndexOf(keys, x), n, m) {
      IndexOfKey(keys, IndexOf(keys, x));
    }
  }

  /** Without duplicates, a key's position is where `IndexOf` finds it. */
  lemma {:induction false} IndexOfKey(keys: seq<int>, j: nat)
    requires NoDuplicates(keys) && j < |keys|
    ensures IndexOf(keys, keys[j]) == j
  {
    if j > 0 {
      assert keys[0] != keys[j];
      IndexOfKey(keys[1..], j - 1);
    }
  }

  /** The ordered dictionary of the first loop, as the walk's input. */
  function LevelCounts(grays: seq<int>): (cs: seq<nat>)
  {
    Counts(Distinct(SortInts(grays)), SortInts(grays))
  }

  /** The glyph index the bucketiser gives grey level `g` among the cells `grays`. */
  function GlyphIndexOf(grays: seq<int>, m: nat, g: int): nat
    requires g in grays
  {
    var keys := Distinct(SortInts(grays));
    assert g in multiset(SortInts(grays));
    BucketOf(LevelCounts(grays), IndexOf(keys, g), |grays|, m)
  }

  /** The glyph index the bucketiser gives the `k`-th cell of `grays`. */
  function GlyphIndexAt(grays: seq<int>, m: nat, k: nat): (i: nat)
    requires k < |grays|
    ensures m > 0 ==> i < m
  {
    if m > 0 then
      GlyphIndexInRange(grays, m, grays[k]);
      GlyphIndexOf(grays, m, grays[k])
    else
      GlyphIndexOf(grays, m, grays[k])
  }

  /** The map `AssignBuckets` builds from `CountLevels`' result gives the `k`-th cell its glyph index. */
  lemma BucketMapAt(grays: seq<int>, m: nat, keys: seq<int>, counts: seq<nat>, idxs: map<int, nat>, k: nat)
    requires keys == Distinct(SortInts(grays)) && counts == Counts(keys, SortInts(grays))
    requires forall x :: x in idxs <==> x in keys
    requires forall x :: x in idxs ==> IndexOf(keys, x) < |counts| && idxs[x] == BucketOf(counts, IndexOf(keys, x), |grays|, m)
    requires k < |grays|
    ensures grays[k] in idxs && idxs[grays[k]] == GlyphIndexOf(grays, m, grays[k])
  {
    var g := grays[k];
    assert g in multiset(SortInts(grays));
    assert g in keys;
    assert counts == LevelCounts(grays);
  }

  /** ... and so every cell's. */
  lemma BucketMapCovers(grays: seq<int>, m: nat, keys: seq<int>, counts: seq<nat>, idxs: map<int, nat>)
    requires keys == Distinct(SortInts(grays)) && counts == Counts(keys, SortInts(grays))
    requires forall x :: x in idxs <==> x in keys
    requires forall x :: x in idxs ==> IndexOf(keys, x) < |counts| && idxs[x] == BucketOf(counts, IndexOf(keys, x), |grays|, m)
    ensures forall k :: 0 <= k < |grays| ==> grays[k] in idxs && idxs[grays[k]] == GlyphIndexAt(grays, m, k)
  {
    forall k | 0 <= k < |grays| ensures grays[k] in idxs && idxs[grays[k]] == GlyphIndexAt(grays, m, k) {
      BucketMapAt(grays, m, keys, counts, idxs, k);
      assert GlyphIndexAt(grays, m, k) == GlyphIndexOf(grays, m, grays[k]);
    }
  }

  lemma SortKeepsElements(grays: seq<int>)
    ensures forall g :: g in grays <==> g in SortInts(grays)
  {
    forall g ensures g in grays <==> g in SortInts(grays) {
      assert g in grays <==> g in multiset(grays);
      assert g in SortInts(grays) <==> g in multiset(SortInts(grays));
    }
  }

  /** Every cell's glyph index is a valid position in a glyph string of length `m`. */
  lemma GlyphIndexInRange(grays: seq<int>, m: nat, g: int)
    requires m > 0 && g in grays
    ensures GlyphIndexOf(grays, m, g) < m
  {
    var s := SortInts(grays);
    CountsPositive(s);
    CountsSum(s);
    SortKeepsElements(grays);
    BucketOfBound(LevelCounts(grays), IndexOf(Distinct(s), g), |grays|, m);
  }

  /** A lighter cell never gets a lower glyph index, and equal grey levels share one. */
  lemma GlyphIndexMonotone(grays: seq<int>, m: nat, g: int, h: int)
    requires g in grays && h in grays && g <= h
    ensures GlyphIndexOf(grays, m, g) <= GlyphIndexOf(grays, m, h)
  {
    var s := SortInts(grays);
    var keys := Distinct(s);
    DistinctOfSorted(s);
    SortKeepsElements(grays);
    var j, k := IndexOf(keys, g), IndexOf(keys, h);
    if j <= k {
      BucketOfMonotone(LevelCounts(grays), j, k, |grays|, m);
    }
  }

  /** The darkest cells get glyph 0. */
  lemma GlyphIndexDarkest(grays: seq<int>, m: nat, g: int)
    requires g in grays && forall h :: h in grays ==> g <= h
    ensures GlyphIndexOf(grays, m, g) == 0
  {
    var s := SortInts(grays);
    var keys := Distinct(s);
    DistinctOfSorted(s);
    SortKeepsElements(grays);
    var j := IndexOf(keys, g);
    assert keys[0] in grays;
    assert g <= keys[0];
    assert j == 0;
    BucketOfFirst(LevelCounts(grays), |grays|, m);
  }

  /** A bucket closes exactly when it holds `n / m + 1` cells or more. */
  lemma Threshold(c: nat, n: nat, m: nat)
    requires m > 0
    ensures c <= n / m ==> c * m <= n
    ensures (n / m + 1) * m > n
  {
    assert n == (n / m) * m + n % m;
    assert (n / m + 1) * m == (n / m) * m + m;
    if c <= n / m {
      MulMonotone(c, n / m, m);
    }
  }

  predicate AllOnes(cs: seq<nat>) {
    forall i :: 0 <= i < |cs| ==> cs[i] == 1
  }

  /**
   * With every level occurring once, after `q * (n / m + 1) + r + 1` levels the walk is in
   * bucket `q` holding `r + 1` cells.
   */
  lemma {:induction false} OnesWalk(cs: seq<nat>, n: nat, m: nat, j: nat, q: nat, r: nat)
    requires m > 0 && AllOnes(cs)
    requires 1 <= j <= |cs| && j - 1 == q * (n / m + 1) + r && r < n / m + 1
    ensures WalkAfter(cs[..j], n, m) == Walk(q, r + 1)
    decreases j
  {
    var b := n / m + 1;
    assert cs[..j][..j - 1] == cs[..j - 1];
    if j == 1 {
      MultipleBelow(q, b);
      assert cs[..0] == [];
    } else if r > 0 {
      OnesWalk(cs, n, m, j - 1, q, r - 1);
      Threshold(r, n, m);
    } else {
      assert q * b >= 1;
      assert q >= 1;
      assert j - 2 == (q - 1) * b + (b - 1);
      OnesWalk(cs, n, m, j - 1, q - 1, b - 1);
      Threshold(b, n, m);
    }
  }

  /**
   * With every grey level distinct, level `j = q * (n / m + 1) + r` gets glyph `q`: each
   * bucket but the last holds `n / m + 1` levels, one more than `n / m`.
   */
  lemma DistinctLevelsBuckets(cs: seq<nat>, n: nat, m: nat, j: nat, q: nat, r: nat)
    requires m > 0 && AllOnes(cs)
    requires j < |cs| && j == q * (n / m + 1) + r && r < n / m + 1
    ensures BucketOf(cs, j, n, m) == q
  {
    var b := n / m + 1;
    if r > 0 {
      OnesWalk(cs, n, m, j, q, r - 1);
      Threshold(r, n, m);
    } else if j == 0 {
      MultipleBelow(q, b);
      assert cs[..0] == [];
    } else {
      assert q * b >= 1;
      assert q >= 1;
      assert j - 1 == (q - 1) * b + (b - 1);
      OnesWalk(cs, n, m, j, q - 1, b - 1);
      Threshold(b, n, m);
    }
  }

  /** 100 distinct grey levels over 10 glyphs: glyph 0 takes levels 0 to 10, glyph 9 only level 99. */
  lemma HundredDistinctLevels(cs: seq<nat>)
    requires |cs| == 100 && AllOnes(cs)
    ensures BucketOf(cs, 10, 100, 10) == 0 && BucketOf(cs, 11, 100, 10) == 1
    ensures BucketOf(cs, 98, 100, 10) == 8 && BucketOf(cs, 99, 100, 10) == 9
  {
    DistinctLevelsBuckets(cs, 100, 10, 10, 0, 10);
    DistinctLevelsBuckets(cs, 100, 10, 11, 1, 0);
    DistinctLevelsBuckets(cs, 100, 10, 98, 8, 10);
    DistinctLevelsBuckets(cs, 100, 10, 99, 9, 0);
  }
}
