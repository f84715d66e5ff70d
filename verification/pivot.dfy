/**
 Pivot candidates for `find_kth` (temp.py, line 54): the list is cut into
 consecutive groups of five, any shorter remainder group is ignored, and the
 median of each full group is taken as `sorted(group)[2]`.
 */
module Pivot {
  import opened Sorting
  import opened Partition
  import opened Rank

  /**
   `sorted(g)[2]` for a group `g` of five elements: an element of the group
   with at most two of the group strictly below it and at most two strictly
   above it.
   */
  function MedianOf5(g: seq<int>): (m: int)
    requires |g| == 5
    ensures m in g
    ensures |Below(g, m)| <= 2 && |Above(g, m)| <= 2
  {
    KthRank(g, 2);
    Kth(g, 2)
  }

  /**
   `[sorted(s[i:i+5])[2] for i in range(0, 5 * (len(s) // 5), 5)]`: one entry
   per full group of five, the `i`-th being the median of `s[5i..5i+5]`, and
   every entry an element of `s`.
   */
  function Medians(s: seq<int>): (r: seq<int>)
    ensures |r| == |s| / 5
    ensures forall i :: 0 <= i < |r| ==> r[i] == MedianOf5(s[5 * i .. 5 * i + 5])
    ensures forall x :: x in r ==> x in s
    decreases |s|
  {
    if |s| < 5 then []
    else
      var rest := Medians(s[5..]);
      GroupsShift(s);
      assert s[..5] == s[5 * 0 .. 5 * 0 + 5];
      TailMembers(s, 5);
      [MedianOf5(s[..5])] + rest
  }

  /** Whatever is in a suffix of `s` is in `s`. */
  lemma TailMembers(s: seq<int>, n: nat)
    requires n <= |s|
    ensures forall x :: x in s[n..] ==> x in s
  {
    forall x | x in s[n..]
      ensures x in s
    {
      var i :| 0 <= i < |s| - n && s[n..][i] == x;
      assert s[n + i] == x;
    }
  }

  /** Dropping the first group of five shifts every later group down by one place. */
  lemma GroupsShift(s: seq<int>)
    requires 5 <= |s|
    ensures forall i :: 1 <= i <= (|s| - 5) / 5 ==> s[5..][5 * (i - 1) .. 5 * (i - 1) + 5] == s[5 * i .. 5 * i + 5]
  {
  }

  /**
   Past the small-list base case (more than 16 elements) there are at least
   three medians, and the rank `n // 10` asked of them is a valid index.
   */
  lemma PivotRankInRange(n: int)
    requires n > 16
    ensures n / 5 >= 3
    ensures 0 <= n / 10 < n / 5
  {
  }
}
