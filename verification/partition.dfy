/**
 The three-way split of the working list around the pivot in `find_kth`
 (temp.py, lines 55-57): the elements strictly below the pivot, the elements
 strictly above it, and the copies of the pivot, which are handed out one at a
 time to whichever side is currently shorter.

 As written, line 55 filters from `L` before `L` is bound, and lines 56-57
 filter and count from that `L` too. The evident intent, modelled here, is
 that all three comprehensions range over the current working list; the
 literal reading is kept apart in module `AsWritten`.
 */
module Partition {

  /** `[x for x in s if x < p]`: same multiplicities as `s` below `p`, none elsewhere. */
  function Below(s: seq<int>, p: int): (r: seq<int>)
    ensures forall x :: multiset(r)[x] == if x < p then multiset(s)[x] else 0
    ensures |r| <= |s|
  {
    if s == [] then []
    else
      assert s == [s[0]] + s[1..];
      if s[0] < p then [s[0]] + Below(s[1..], p) else Below(s[1..], p)
  }

  /** `[x for x in s if x > p]`: same multiplicities as `s` above `p`, none elsewhere. */
  function Above(s: seq<int>, p: int): (r: seq<int>)
    ensures forall x :: multiset(r)[x] == if x > p then multiset(s)[x] else 0
    ensures |r| <= |s|
  {
    if s == [] then []
    else
      assert s == [s[0]] + s[1..];
      if s[0] > p then [s[0]] + Above(s[1..], p) else Above(s[1..], p)
  }

  /** `sum(1 for x in s if x == p)`: the number of copies of `p` in `s`. */
  function CountEq(s: seq<int>, p: int): (r: nat)
    ensures r == multiset(s)[p]
  {
    if s == [] then 0
    else
      assert s == [s[0]] + s[1..];
      (if s[0] == p then 1 else 0) + CountEq(s[1..], p)
  }

  /** Everything in `Below(s, p)` is below `p`. */
  lemma BelowBounded(s: seq<int>, p: int)
    ensures forall x :: x in Below(s, p) ==> x < p
  {
    forall x | x in Below(s, p)
      ensures x < p
    {
      assert x in multiset(Below(s, p));
    }
  }

  /** Everything in `Above(s, p)` is above `p`. */
  lemma AboveBounded(s: seq<int>, p: int)
    ensures forall x :: x in Above(s, p) ==> p < x
  {
    forall x | x in Above(s, p)
      ensures p < x
    {
      assert x in multiset(Above(s, p));
    }
  }

  /** `n` copies of `p`. */
  function Copies(p: int, n: nat): (r: seq<int>)
    ensures |r| == n
    ensures forall i :: 0 <= i < |r| ==> r[i] == p
  {
    if n == 0 then [] else Copies(p, n - 1) + [p]
  }

  /** A run of `n` copies of `p` holds `p` exactly `n` times and nothing else. */
  lemma {:induction false} CopiesCount(p: int, n: nat)
    ensures forall x :: multiset(Copies(p, n))[x] == if x == p then n else 0
  {
    if n > 0 {
      CopiesCount(p, n - 1);
      assert multiset(Copies(p, n)) == multiset(Copies(p, n - 1)) + multiset{p};
    }
  }

  /**
   How many elements the first side ends with when `c` copies are handed out
   to sides of lengths `a` and `b`: all of them go to the first side when that
   still leaves it no longer than the second; none when the second side with
   all of them is still no longer than the first; otherwise the two sides end
   balanced, the second taking the odd one.
   */
  function LeftShare(a: nat, b: nat, c: nat): (m: nat)
    ensures a <= m <= a + c
  {
    if a + c <= b then a + c
    else if b + c <= a then a
    else (a + b + c) / 2
  }

  /** Handing out one copy, to the shorter side or on a tie to the second, leaves the final share unchanged. */
  lemma LeftShareStep(a: nat, b: nat, c: nat)
    requires 1 <= c
    ensures a < b ==> LeftShare(a, b, c) == LeftShare(a + 1, b, c - 1)
    ensures b <= a ==> LeftShare(a, b, c) == LeftShare(a, b + 1, c - 1)
  {
  }

  /** When the copies are enough to even the sides out, the first side ends no longer than the second, and at most one shorter. */
  lemma LeftShareBalanced(a: nat, b: nat, c: nat)
    ensures b < a + c && a < b + c ==> LeftShare(a, b, c) <= a + b + c - LeftShare(a, b, c) <= LeftShare(a, b, c) + 1
  {
  }

  /**
   The loop of line 57: `c` copies of `p` are appended one at a time, to `a`
   when `a` is strictly shorter than `b` and to `b` otherwise. The result is
   `a` extended by copies of `p` to the length `LeftShare` gives and `b`
   extended by the rest; when the copies are enough to even the sides out,
   the two end within one of each other, the second side no shorter.
   */
  method Distribute(a: seq<int>, b: seq<int>, p: int, c: nat) returns (x: seq<int>, y: seq<int>)
    ensures x == a + Copies(p, LeftShare(|a|, |b|, c) - |a|)
    ensures y == b + Copies(p, |a| + c - LeftShare(|a|, |b|, c))
    ensures |b| < |a| + c && |a| < |b| + c ==> |x| <= |y| <= |x| + 1
  {
    x, y := a, b;
    var n, i, j := 0, 0, 0;
    while n < c
      invariant n <= c && i + j == n
      invariant x == a + Copies(p, i) && y == b + Copies(p, j)
      invariant LeftShare(|a| + i, |b| + j, c - n) == LeftShare(|a|, |b|, c)
    {
      LeftShareStep(|x|, |y|, c - n);
      if |x| < |y| {
        AppendCopy(a, p, i);
        x, i := x + [p], i + 1;
      } else {
        AppendCopy(b, p, j);
        y, j := y + [p], j + 1;
      }
      n := n + 1;
    }
    LeftShareBalanced(|a|, |b|, c);
  }

  /** A side extended by `n` copies of `p` and then one more is extended by `n + 1` copies. */
  lemma AppendCopy(a: seq<int>, p: int, n: nat)
    ensures (a + Copies(p, n)) + [p] == a + Copies(p, n + 1)
  {
  }

  /**
   Lines 55-57 as intended: `L` holds what is below the pivot, `R` what is
   above it, and the pivot's copies are split between them. Together they
   are a permutation of `s`, everything in `L` is at most `p`, everything in
   `R` at least `p`, and when `p` occurs in `s` (and `s` has two or more
   elements) both sides are non-empty, so each is strictly shorter than `s`.
   */
  method Split(s: seq<int>, p: int) returns (lo: seq<int>, hi: seq<int>)
    ensures multiset(lo) + multiset(hi) == multiset(s)
    ensures forall x :: x in lo ==> x <= p
    ensures forall x :: x in hi ==> p <= x
    ensures p in s && 2 <= |s| ==> 0 < |lo| < |s| && 0 < |hi| < |s|
  {
    var below, above, copies := ThreeWay(s, p);
    lo, hi := Distribute(below, above, p, copies);
    var i := LeftShare(|below|, |above|, copies) - |below|;
    var j := |below| + copies - LeftShare(|below|, |above|, copies);
    SidesPermute(s, p, below, above, copies, i, j, lo, hi);
    LowerSide(below, p, i, lo);
    UpperSide(above, p, j, hi);
    SidesFilled(s, p, below, above, copies, i, j, lo, hi);
  }

  /**
   The three comprehensions of lines 55-57 over `s`: what is below `p`, what
   is above it, and how many copies of `p` there are. The two parts and that
   many copies of `p` together make up `s`, and there is at least one copy
   when `p` occurs in `s`.
   */
  method ThreeWay(s: seq<int>, p: int) returns (below: seq<int>, above: seq<int>, copies: nat)
    ensures multiset(below) + multiset(above) + multiset(Copies(p, copies)) == multiset(s)
    ensures forall z :: z in below ==> z < p
    ensures forall z :: z in above ==> p < z
    ensures p in s ==> 1 <= copies
  {
    below, above, copies := Below(s, p), Above(s, p), CountEq(s, p);
    CopiesCount(p, copies);
    assert p in s ==> p in multiset(s);
    BelowBounded(s, p);
    AboveBounded(s, p);
  }

  /** Handing out the copies of `p` to the two parts keeps every element of `s`. */
  lemma SidesPermute(s: seq<int>, p: int, lo: seq<int>, hi: seq<int>, c: nat, i: nat, j: nat, x: seq<int>, y: seq<int>)
    requires multiset(lo) + multiset(hi) + multiset(Copies(p, c)) == multiset(s)
    requires i + j == c
    requires x == lo + Copies(p, i)
    requires y == hi + Copies(p, j)
    ensures multiset(x) + multiset(y) == multiset(s)
  {
    CopiesJoin(p, i, j);
    Regroup(lo, hi, Copies(p, i), Copies(p, j), Copies(p, c), s, x, y);
  }

  /**
   With at least one copy to hand out and two or more elements in `s`,
   handing the copies out as `LeftShare` says leaves neither side empty,
   so each is strictly shorter than `s`.
   */
  lemma SidesFilled(s: seq<int>, p: int, lo: seq<int>, hi: seq<int>, c: nat, i: nat, j: nat, x: seq<int>, y: seq<int>)
    requires multiset(lo) + multiset(hi) + multiset(Copies(p, c)) == multiset(s)
    requires i + j == c
    requires x == lo + Copies(p, i) && y == hi + Copies(p, j)
    requires |lo| + i == LeftShare(|lo|, |hi|, c)
    ensures 1 <= c && 2 <= |s| ==> 0 < |x| < |s| && 0 < |y| < |s|
  {
    SizesAdd(s, p, lo, hi, c);
    BothSidesFilled(|lo|, |hi|, c, |x|, |y|);
  }

  /** If `cx` and `cy` together hold what `c` holds, then `lo + cx` and `hi + cy` together hold what `lo`, `hi` and `c` hold. */
  lemma Regroup(lo: seq<int>, hi: seq<int>, cx: seq<int>, cy: seq<int>, c: seq<int>, s: seq<int>, x: seq<int>, y: seq<int>)
    requires multiset(lo) + multiset(hi) + multiset(c) == multiset(s)
    requires x == lo + cx && y == hi + cy
    requires multiset(cx) + multiset(cy) == multiset(c)
    ensures multiset(x) + multiset(y) == multiset(s)
  {
    assert multiset(x) == multiset(lo) + multiset(cx);
    assert multiset(y) == multiset(hi) + multiset(cy);
    Shuffle(multiset(lo), multiset(hi), multiset(cx), multiset(cy));
  }

  /** Multiset union may be regrouped. */
  lemma Shuffle(a: multiset<int>, b: multiset<int>, c: multiset<int>, d: multiset<int>)
    ensures (a + c) + (b + d) == a + b + (c + d)
  {
  }

  /** The parts of `s` are together as long as `s`. */
  lemma SizesAdd(s: seq<int>, p: int, lo: seq<int>, hi: seq<int>, c: nat)
    requires multiset(lo) + multiset(hi) + multiset(Copies(p, c)) == multiset(s)
    ensures |s| == |lo| + |hi| + c
  {
    assert |multiset(s)| == |multiset(lo)| + |multiset(hi)| + |multiset(Copies(p, c))|;
  }

  /** Two runs of copies of `p` make one run as long as both. */
  lemma CopiesJoin(p: int, i: nat, j: nat)
    ensures multiset(Copies(p, i)) + multiset(Copies(p, j)) == multiset(Copies(p, i + j))
  {
    CopiesCount(p, i);
    CopiesCount(p, j);
    CopiesCount(p, i + j);
  }

  /** A part holding only elements below `p`, extended by copies of `p`, holds only elements at most `p`. */
  lemma LowerSide(side: seq<int>, p: int, n: nat, x: seq<int>)
    requires forall z :: z in side ==> z < p
    requires x == side + Copies(p, n)
    ensures forall z :: z in x ==> z <= p
  {
    forall z | z in x
      ensures z <= p
    {
      if z !in side {
        assert z in Copies(p, n);
      }
    }
  }

  /** A part holding only elements above `p`, extended by copies of `p`, holds only elements at least `p`. */
  lemma UpperSide(side: seq<int>, p: int, n: nat, y: seq<int>)
    requires forall z :: z in side ==> p < z
    requires y == side + Copies(p, n)
    ensures forall z :: z in y ==> p <= z
  {
    forall z | z in y
      ensures p <= z
    {
      if z !in side {
        assert z in Copies(p, n);
      }
    }
  }

  /** With at least one copy to hand out and two or more elements in all, neither side ends empty. */
  lemma BothSidesFilled(a: nat, b: nat, c: nat, x: nat, y: nat)
    requires x + y == a + b + c
    requires x == LeftShare(a, b, c)
    ensures 1 <= c && 2 <= a + b + c ==> 0 < x && 0 < y
  {
  }
}
