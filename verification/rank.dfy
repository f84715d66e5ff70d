/**
 An order-statistic reading of "the element at position `k` of the sorted
 list" that never sorts: `v` is that element exactly when at most `k`
 elements of the list are strictly below `v` and at most `|s| - 1 - k` are
 strictly above it.
 */
module Rank {
  import opened Sorting
  import opened Partition

  /** The element of rank `k` has at most `k` elements below it and at most `|s| - 1 - k` above it. */
  lemma KthRank(s: seq<int>, k: int)
    requires 0 <= k < |s|
    ensures |Below(s, Kth(s, k))| <= k
    ensures |Above(s, Kth(s, k))| <= |s| - 1 - k
  {
    var t := Sort(s);
    SameCounts(s, t, t[k]);
    SortedRank(t, k);
  }

  /** In a sorted list, at most `k` elements lie below the one at position `k`, and at most `|t| - 1 - k` above it. */
  lemma SortedRank(t: seq<int>, k: int)
    requires Sorted(t) && 0 <= k < |t|
    ensures |Below(t, t[k])| <= k
    ensures |Above(t, t[k])| <= |t| - 1 - k
  {
    SortedBelow(t, k);
    SortedAbove(t, k);
  }

  /** In a sorted list, everything below the element at position `k` lies before it. */
  lemma SortedBelow(t: seq<int>, k: int)
    requires Sorted(t) && 0 <= k < |t|
    ensures |Below(t, t[k])| <= k
  {
    var v := t[k];
    assert t == t[..k] + t[k..];
    forall x | true
      ensures multiset(Below(t, v))[x] <= multiset(t[..k])[x]
    {
      if x < v {
        assert x !in t[k..];
      }
    }
    SubmultisetSize(multiset(Below(t, v)), multiset(t[..k]));
  }

  /** In a sorted list, everything above the element at position `k` lies after it. */
  lemma SortedAbove(t: seq<int>, k: int)
    requires Sorted(t) && 0 <= k < |t|
    ensures |Above(t, t[k])| <= |t| - 1 - k
  {
    var v := t[k];
    assert t == t[..k + 1] + t[k + 1..];
    forall x | true
      ensures multiset(Above(t, v))[x] <= multiset(t[k + 1..])[x]
    {
      if x > v {
        assert x !in t[..k + 1];
      }
    }
    SubmultisetSize(multiset(Above(t, v)), multiset(t[k + 1..]));
  }

  /** Lists holding the same elements have as many elements below, and above, any value. */
  lemma SameCounts(s: seq<int>, t: seq<int>, v: int)
    requires multiset(s) == multiset(t)
    ensures |Below(s, v)| == |Below(t, v)|
    ensures |Above(s, v)| == |Above(t, v)|
  {
    SameSize(Below(s, v), Below(t, v));
    SameSize(Above(s, v), Above(t, v));
  }

  /** Sequences with the same multiplicity of every value are equally long. */
  lemma SameSize(a: seq<int>, b: seq<int>)
    requires forall x :: multiset(a)[x] == multiset(b)[x]
    ensures |a| == |b|
  {
    SubmultisetSize(multiset(a), multiset(b));
    SubmultisetSize(multiset(b), multiset(a));
  }

  /** Between them, the elements below `w` and the elements above `v < w` cover the whole list. */
  lemma CoverBetween(s: seq<int>, v: int, w: int)
    requires v < w
    ensures |s| <= |Below(s, w)| + |Above(s, v)|
  {
    SubmultisetSize(multiset(s), multiset(Below(s, w)) + multiset(Above(s, v)));
  }

  /** Only the element of rank `k` has at most `k` elements below it and at most `|s| - 1 - k` above it. */
  lemma RankDeterminesKth(s: seq<int>, k: int, v: int)
    requires 0 <= k < |s|
    requires |Below(s, v)| <= k && |Above(s, v)| <= |s| - 1 - k
    ensures v == Kth(s, k)
  {
    var w := Kth(s, k);
    KthRank(s, k);
    if v < w {
      CoverBetween(s, v, w);
    } else if w < v {
      CoverBetween(s, w, v);
    }
  }

  /** A multiset included in another is no larger. */
  lemma SubmultisetSize(a: multiset<int>, b: multiset<int>)
    requires forall x :: a[x] <= b[x]
    ensures |a| <= |b|
  {
    assert forall x :: (a + (b - a))[x] == b[x];
    assert b == a + (b - a);
  }
}
