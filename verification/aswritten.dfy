/**
 Lines 55-57 of temp.py as literally written, kept apart from the model of
 the intended behaviour (`Partition.Split`, `Select.FindKth`) to exhibit the
 defect: line 55 reads the local `L` before the function ever assigns it, so
 in Python it raises `UnboundLocalError`; and even with some earlier `L` in
 hand, line 56 filters `R` out of the new `L` (whose elements are all below
 the pivot) and line 57 counts the pivot's copies in that `L` too.
 */
module AsWritten {
  import opened Sorting
  import opened Partition
  import opened Pivot
  import opened Select

  /** How a call ends: a returned value (possibly `None`) or an `UnboundLocalError`. */
  datatype Outcome = Returned(value: Option<int>) | UnboundLocal

  /**
   Lines 55-57 read literally, on the working list `s`. `stale` is the
   binding of `L` when line 55 runs, `None` when it is unbound. Unbound, the
   line raises. Bound, the new `L` holds only elements below `p`, `R`, drawn
   from that `L`, is empty, and no copy of `p` is counted in it, so the
   working list plays no part at all: whenever the pivot is in `s`, as it
   always is in `find_kth`, the two sides are not a permutation of `s`.
   Compare `Partition.Split`, which keeps every element of `s`.
   */
  method SplitAsWritten(s: seq<int>, stale: Option<seq<int>>, p: int) returns (r: Option<(seq<int>, seq<int>)>)
    ensures stale.None? <==> r.None?
    ensures r.Some? ==> r.value.1 == [] && forall x :: x in r.value.0 ==> x < p
    ensures r.Some? && p in s ==> multiset(r.value.0) + multiset(r.value.1) != multiset(s)
  {
    match stale {
      case None =>
        r := None;
      case Some(prev) =>
        var lo := Below(prev, p);
        var hi := Above(lo, p);
        var copies := CountEq(lo, p);
        NothingAbove(prev, p);
        var x, y := Distribute(lo, hi, p, copies);
        NoCopiesToShare(s, lo, hi, p, copies, x, y);
        r := Some((x, y));
    }
  }

  /** With no copies of `p` to hand out and an empty second side, the sides stay as they were, and `p` is in neither. */
  lemma NoCopiesToShare(s: seq<int>, lo: seq<int>, hi: seq<int>, p: int, c: nat, x: seq<int>, y: seq<int>)
    requires forall z :: z in lo ==> z < p
    requires hi == [] && c == 0
    requires x == lo + Copies(p, LeftShare(|lo|, |hi|, c) - |lo|)
    requires y == hi + Copies(p, |lo| + c - LeftShare(|lo|, |hi|, c))
    ensures x == lo && y == []
    ensures forall z :: z in x ==> z < p
    ensures p in s ==> multiset(x) + multiset(y) != multiset(s)
  {
    assert x == lo;
    assert p !in lo;
    assert p !in multiset(x) + multiset(y);
    assert p in s ==> p in multiset(s);
  }

  /** Filtering `Below(s, p)` again leaves nothing above `p` and no copy of `p`. */
  lemma NothingAbove(s: seq<int>, p: int)
    ensures Above(Below(s, p), p) == []
    ensures CountEq(Below(s, p), p) == 0
    ensures forall x :: x in Below(s, p) ==> x < p
  {
    var lo := Below(s, p);
    assert |multiset(Above(lo, p))| == 0;
    BelowBounded(s, p);
  }

  /**
   `find_kth` as written. The base cases of lines 49-53 behave as intended;
   any call that gets past them computes the pivot (whose own call raises
   or returns) and then reaches line 55 on the loop's first pass, where `L`
   is unbound, so it raises.
   */
  function FindKthAsWritten(l: seq<int>, k: int): (r: Outcome)
    requires l == [] || 0 <= k < |l|
    ensures l == [] ==> r == Returned(None)
    ensures l != [] && (k == 0 || k == |l| - 1 || |l| <= MAX_SIZE) ==> r == Returned(Some(Kth(l, k)))
    ensures l != [] && 0 < k < |l| - 1 && MAX_SIZE < |l| ==> r == UnboundLocal
    decreases |l|
  {
    if l == [] then Returned(None)
    else if k == 0 then
      MinIsFirst(l);
      Returned(Some(Min(l)))
    else if k == |l| - 1 then
      MaxIsLast(l);
      Returned(Some(Max(l)))
    else if |l| <= MAX_SIZE then Returned(Some(Sort(l)[k]))
    else
      PivotRankInRange(|l|);
      match FindKthAsWritten(Medians(l), |l| / 10)
      case UnboundLocal => UnboundLocal
      case Returned(_) =>
        // Line 55 on the loop's first pass: `L` is unbound, as in
        // `SplitAsWritten(l, None, pivot)`, whatever the pivot is.
        UnboundLocal
  }
}
