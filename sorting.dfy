/**
 * Python's `sorted`, for the two kinds of key the program sorts on: grey levels (integers)
 * and file names (strings compared code point by code point).
 */
module Sorting {

  /** Python's `a <= b` on strings: lexicographic by code point, a prefix first. */
  predicate LexLe(a: string, b: string) {
    |a| == 0 || (|b| > 0 && (a[0] < b[0] || (a[0] == b[0] && LexLe(a[1..], b[1..]))))
  }

  lemma {:induction false} LexLeTotal(a: string, b: string)
    ensures LexLe(a, b) || LexLe(b, a)
  {
    if |a| > 0 && |b| > 0 && a[0] == b[0] {
      LexLeTotal(a[1..], b[1..]);
    }
  }

  lemma {:induction false} LexLeTransitive(a: string, b: string, c: string)
    requires LexLe(a, b) && LexLe(b, c)
    ensures LexLe(a, c)
  {
    if |a| > 0 && a[0] == b[0] && b[0] == c[0] {
      LexLeTransitive(a[1..], b[1..], c[1..]);
    }
  }

  lemma {:induction false} LexLeAntisymmetric(a: string, b: string)
    requires LexLe(a, b) && LexLe(b, a)
    ensures a == b
  {
    if |a| > 0 {
      LexLeAntisymmetric(a[1..], b[1..]);
      assert a == [a[0]] + a[1..] && b == [b[0]] + b[1..];
    }
  }

  predicate SortedInts(s: seq<int>) {
    forall i, j :: 0 <= i < j < |s| ==> s[i] <= s[j]
  }

  function InsertInt(x: int, s: seq<int>): (r: seq<int>)
    requires SortedInts(s)
    ensures SortedInts(r) && multiset(r) == multiset(s) + multiset{x}
    ensures |r| == |s| + 1
  {
    if |s| == 0 then [x]
    else if x <= s[0] then
      ConsSorted(x, s);
      [x] + s
    else
      var t := InsertInt(x, s[1..]);
      assert s == [s[0]] + s[1..];
      BoundedByMultiset(s[0], s[1..], x, t);
      ConsSorted(s[0], t);
      [s[0]] + t
  }

  /** A value at or below every element of a sorted list can go in front of it. */
  lemma ConsSorted(h: int, t: seq<int>)
    requires SortedInts(t) && forall k :: 0 <= k < |t| ==> h <= t[k]
    ensures SortedInts([h] + t)
  {
  }

  /** A lower bound of `p` and of `x` bounds every element of a permutation of `p` plus `x`. */
  lemma BoundedByMultiset(h: int, p: seq<int>, x: int, t: seq<int>)
    requires multiset(t) == multiset(p) + multiset{x}
    requires h <= x && forall k :: 0 <= k < |p| ==> h <= p[k]
    ensures forall k :: 0 <= k < |t| ==> h <= t[k]
  {
    forall k | 0 <= k < |t| ensures h <= t[k] {
      assert t[k] in multiset(t);
      if t[k] != x {
        assert t[k] in multiset(p);
        var m :| 0 <= m < |p| && p[m] == t[k];
      }
    }
  }

  /** `sorted(s)` on integers: ascending, and a permutation of `s`. */
  function SortInts(s: seq<int>): (r: seq<int>)
    ensures SortedInts(r) && multiset(r) == multiset(s)
    ensures |r| == |s|
  {
    if |s| == 0 then []
    else
      assert s == [s[0]] + s[1..];
      InsertInt(s[0], SortInts(s[1..]))
  }

  predicate SortedBy<T>(s: seq<T>, key: T -> string) {
    forall i, j :: 0 <= i < j < |s| ==> LexLe(key(s[i]), key(s[j]))
  }

  function InsertBy<T(==)>(x: T, s: seq<T>, key: T -> string): (r: seq<T>)
    requires SortedBy(s, key)
    ensures SortedBy(r, key) && multiset(r) == multiset(s) + multiset{x}
    ensures |r| == |s| + 1
  {
    if |s| == 0 then [x]
    else if LexLe(key(x), key(s[0])) then
      assert forall k :: 0 <= k < |s| ==> LexLe(key(x), key(s[k])) by {
        forall k | 0 < k < |s| ensures LexLe(key(x), key(s[k])) {
          LexLeTransitive(key(x), key(s[0]), key(s[k]));
        }
      }
      ConsSortedBy(x, s, key);
      [x] + s
    else
      var t := InsertBy(x, s[1..], key);
      assert s == [s[0]] + s[1..];
      LexLeTotal(key(x), key(s[0]));
      KeyBoundedByMultiset(key(s[0]), s[1..], x, t, key);
      ConsSortedBy(s[0], t, key);
      [s[0]] + t
  }

  /** An element whose key is at or below every key of a sorted list can go in front of it. */
  lemma ConsSortedBy<T>(h: T, t: seq<T>, key: T -> string)
    requires SortedBy(t, key) && forall k :: 0 <= k < |t| ==> LexLe(key(h), key(t[k]))
    ensures SortedBy([h] + t, key)
  {
  }

  /** A lower bound of the keys of `p` and of `x` bounds the keys of a permutation of `p` plus `x`. */
  lemma KeyBoundedByMultiset<T>(h: string, p: seq<T>, x: T, t: seq<T>, key: T -> string)
    requires multiset(t) == multiset(p) + multiset{x}
    requires LexLe(h, key(x)) && forall k :: 0 <= k < |p| ==> LexLe(h, key(p[k]))
    ensures forall k :: 0 <= k < |t| ==> LexLe(h, key(t[k]))
  {
    forall k | 0 <= k < |t| ensures LexLe(h, key(t[k])) {
      assert t[k] in multiset(t);
      if t[k] != x {
        assert t[k] in multiset(p);
        var m :| 0 <= m < |p| && p[m] == t[k];
      }
    }
  }

  /** `sorted(s, key=key)` on string keys: ordered by key, and a permutation of `s`. */
  function SortBy<T(==)>(s: seq<T>, key: T -> string): (r: seq<T>)
    ensures SortedBy(r, key) && multiset(r) == multiset(s)
    ensures |r| == |s|
  {
    if |s| == 0 then []
    else
      assert s == [s[0]] + s[1..];
      InsertBy(s[0], SortBy(s[1..], key), key)
  }
}
