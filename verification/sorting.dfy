/**
 The reference meaning of "the k-th smallest element": Python's `sorted`,
 `min` and `max` over integers, stated once and related to each other.

 `Sort` plays the part of `sorted(l)`. Its contract (sorted, and a permutation
 of the input) pins the result down completely, as `SortedUnique` shows, so
 any sorting algorithm would give the same `Kth`.
 */
module Sorting {

  /** `s` is in non-decreasing order. */
  predicate Sorted(s: seq<int>) {
    forall i, j :: 0 <= i < j < |s| ==> s[i] <= s[j]
  }

  /** Inserts `x` into the sorted sequence `s`. */
  function Insert(x: int, s: seq<int>): (r: seq<int>)
    requires Sorted(s)
    ensures Sorted(r)
    ensures multiset(r) == multiset(s) + multiset{x}
    ensures |r| == |s| + 1
    ensures r[0] == if s == [] || x <= s[0] then x else s[0]
  {
    if s == [] || x <= s[0] then
      ConsSorted(x, s);
      [x] + s
    else
      var tail := Insert(x, s[1..]);
      assert s == [s[0]] + s[1..];
      assert multiset([s[0]] + tail) == multiset{s[0]} + multiset(s[1..]) + multiset{x};
      ConsSorted(s[0], tail);
      [s[0]] + tail
  }

  /** Putting an element no greater than the head of sorted `t` in front of it keeps it sorted. */
  lemma ConsSorted(h: int, t: seq<int>)
    requires Sorted(t)
    requires t != [] ==> h <= t[0]
    ensures Sorted([h] + t)
  {
  }

  /** Python's `sorted` on a list of integers: a sorted permutation of `s`. */
  function Sort(s: seq<int>): (r: seq<int>)
    ensures Sorted(r)
    ensures multiset(r) == multiset(s)
    ensures |r| == |s|
  {
    if s == [] then []
    else
      assert s == [s[0]] + s[1..];
      Insert(s[0], Sort(s[1..]))
  }

  /** Two sorted sequences holding the same elements are equal. */
  lemma {:induction false} SortedUnique(a: seq<int>, b: seq<int>)
    requires Sorted(a) && Sorted(b)
    requires multiset(a) == multiset(b)
    ensures a == b
  {
    assert |a| == |multiset(a)| == |multiset(b)| == |b|;
    if a != [] {
      assert a[0] in multiset(b);
      assert b[0] in multiset(a);
      assert a[0] == b[0];
      assert a == [a[0]] + a[1..];
      assert b == [b[0]] + b[1..];
      assert multiset(a) == multiset{a[0]} + multiset(a[1..]);
      assert multiset(b) == multiset{b[0]} + multiset(b[1..]);
      assert multiset(a[1..]) == multiset(a) - multiset{a[0]} == multiset(b[1..]);
      SortedUnique(a[1..], b[1..]);
    }
  }

  /** The element at position `k` (0-indexed) of `s` sorted in non-decreasing order. */
  function Kth(s: seq<int>, k: int): (r: int)
    requires 0 <= k < |s|
    ensures r in s
  {
    assert Sort(s)[k] in multiset(s);
    Sort(s)[k]
  }

  /** Python's `min`: the least element of a non-empty list. */
  function Min(s: seq<int>): (m: int)
    requires s != []
    ensures m in s
    ensures forall i :: 0 <= i < |s| ==> m <= s[i]
  {
    if |s| == 1 then s[0]
    else
      var t := Min(s[1..]);
      if t < s[0] then t else s[0]
  }

  /** Python's `max`: the greatest element of a non-empty list. */
  function Max(s: seq<int>): (m: int)
    requires s != []
    ensures m in s
    ensures forall i :: 0 <= i < |s| ==> s[i] <= m
  {
    if |s| == 1 then s[0]
    else
      var t := Max(s[1..]);
      if t > s[0] then t else s[0]
  }

  /** The minimum is the first element of the sorted list. */
  lemma MinIsFirst(s: seq<int>)
    requires s != []
    ensures Min(s) == Kth(s, 0)
  {
    var t := Sort(s);
    ExtremesOfSorted(s, t);
    assert Kth(s, 0) == t[0];
  }

  /** The maximum is the last element of the sorted list. */
  lemma MaxIsLast(s: seq<int>)
    requires s != []
    ensures Max(s) == Kth(s, |s| - 1)
  {
    var t := Sort(s);
    ExtremesOfSorted(s, t);
    assert Kth(s, |s| - 1) == t[|t| - 1];
  }

  /** A sorted permutation of `s` starts with its minimum and ends with its maximum. */
  lemma ExtremesOfSorted(s: seq<int>, t: seq<int>)
    requires s != [] && Sorted(t) && multiset(t) == multiset(s)
    ensures |t| == |s|
    ensures Min(s) == t[0] && Max(s) == t[|t| - 1]
  {
    assert |t| == |multiset(t)| == |s|;
    var n := |s|;
    assert Min(s) in multiset(s) && Max(s) in multiset(s);
    assert Min(s) in t && Max(s) in t;
    var j0 :| 0 <= j0 < n && t[j0] == Min(s);
    var j1 :| 0 <= j1 < n && t[j1] == Max(s);
    assert t[0] in multiset(t) && t[n - 1] in multiset(t);
    assert t[0] in s && t[n - 1] in s;
    var i0 :| 0 <= i0 < n && s[i0] == t[0];
    var i1 :| 0 <= i1 < n && s[i1] == t[n - 1];
    assert t[0] <= t[j0] && Min(s) <= s[i0];
    assert t[j1] <= t[n - 1] && s[i1] <= Max(s);
  }

  /**
   If every element of `a` is at most `p` and every element of `b` at least
   `p`, the sorted form of their union is sorted `a` followed by sorted `b`,
   so a rank in the union is a rank in `a` or, shifted by `|a|`, a rank in `b`.
   */
  lemma KthOfSplit(s: seq<int>, a: seq<int>, b: seq<int>, p: int, k: int)
    requires multiset(a) + multiset(b) == multiset(s)
    requires forall x :: x in a ==> x <= p
    requires forall x :: x in b ==> p <= x
    requires 0 <= k < |s|
    ensures k < |a| ==> Kth(s, k) == Kth(a, k)
    ensures |a| <= k ==> k - |a| < |b| && Kth(s, k) == Kth(b, k - |a|)
  {
    var sa, sb, t := Sort(a), Sort(b), Sort(s);
    assert |s| == |a| + |b| by {
      assert |multiset(s)| == |multiset(a)| + |multiset(b)|;
    }
    forall i, j | 0 <= i < |sa| && 0 <= j < |sb|
      ensures sa[i] <= sb[j]
    {
      assert sa[i] in multiset(a) && sa[i] in a;
      assert sb[j] in multiset(b) && sb[j] in b;
    }
    SortedConcat(sa, sb);
    assert multiset(sa + sb) == multiset(s);
    SortedUnique(sa + sb, t);
    if k < |a| {
      assert t[k] == sa[k];
    } else {
      assert t[k] == sb[k - |a|];
    }
  }

  /** Sorted `a` followed by sorted `b` is sorted when nothing in `a` exceeds anything in `b`. */
  lemma SortedConcat(a: seq<int>, b: seq<int>)
    requires Sorted(a) && Sorted(b)
    requires forall i, j :: 0 <= i < |a| && 0 <= j < |b| ==> a[i] <= b[j]
    ensures Sorted(a + b)
  {
    var c := a + b;
    forall i, j | 0 <= i < j < |c|
      ensures c[i] <= c[j]
    {
      if j < |a| {
        assert c[i] == a[i] && c[j] == a[j];
      } else if i < |a| {
        assert c[i] == a[i] && c[j] == b[j - |a|];
      } else {
        assert c[i] == b[i - |a|] && c[j] == b[j - |a|];
      }
    }
  }
}
