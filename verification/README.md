# find_kth: deterministic selection by median of medians

This project models `find_kth` from `temp.py`. Given a list `l` of integers and a rank `k`, it returns the element at position `k` (0-indexed) of `l` sorted in non-decreasing order. It works in a `while l:` loop:

- **Base cases.** It returns `min(l)` for `k == 0`, `max(l)` for the last rank, and `sorted(l)[k]` when the list has at most `MAX_SIZE = 16` elements.
- **Pivot.** Otherwise the pivot is the element of rank `n // 10` among the medians of the full groups of five. It is found by a recursive call.
- **Partition.** The list is split into `L`, the elements below the pivot, and `R`, the elements above it. The copies of the pivot are then handed out one at a time: to `L` when `L` is strictly shorter, otherwise to `R`.
- **Narrowing.** The loop continues on `L`, or on `R` with `k` reduced by `len(L)`.

The modules follow that structure:

- `Sorting` gives the meaning of "the k-th smallest".
  - `Sort` is a sorted permutation and stands for Python's `sorted`.
  - `Kth(s, k)` is `Sort(s)[k]`.
  - `Min` and `Max` are Python's `min` and `max`.
- `Rank` characterises `Kth` without sorting. `v` is the element of rank `k` exactly when at most `k` elements are below `v` and at most `|s| - 1 - k` are above it.
- `Partition` models lines 55-57: the three comprehensions and the hand-out loop (`Distribute`), combined in `Split`.
- `Pivot` models the medians of line 54.
- `Select` models the loop itself (`FindKth`), with the base cases, the pivot choice and the narrowing step as separate members.
- `AsWritten` models lines 55-57 literally, to exhibit the defect described under "## Findings".

Lines 55-57 do not work as written. Line 55 filters `L` before `L` is ever assigned, line 56 draws `R` from that `L`, and line 57 counts the pivot's copies in that `L`. The model follows the evident intent: all three comprehensions range over the current working list. `Partition` and `Select` say so in comments.

Two behaviours of the source are kept as they are:

- An empty list returns `None` (temp.py:63).
- On a tie a pivot copy goes to `R` (temp.py:57, the test is `len(L) < len(R)`).

## Model

| member | source | states |
|---|---|---|
| Sorting.Sort | temp.py:53 | `sorted(l)`: the result is in non-decreasing order and is a permutation of the input |
| Sorting.SortedUnique | temp.py:37-38 | two sorted lists holding the same elements are equal, so "the list sorted in non-decreasing order" names exactly one list |
| Sorting.Min | temp.py:50 | `min(l)` is an element of `l` no greater than any element of `l` |
| Sorting.Max | temp.py:52 | `max(l)` is an element of `l` no smaller than any element of `l` |
| Sorting.MinIsFirst | temp.py:50 | for a non-empty list, `min(l)` equals the element of rank 0 of the sorted list |
| Sorting.MaxIsLast | temp.py:52 | for a non-empty list, `max(l)` equals the element of rank `n - 1` of the sorted list |
| Sorting.ExtremesOfSorted | temp.py:50-53 | any sorted permutation of a non-empty list has the list's `min` first and its `max` last |
| Sorting.KthOfSplit | temp.py:58-62 | if the list is split into a part at most `p` and a part at least `p` with no element gained or lost: a rank below `len(L)` has the same element in `L`, and any other rank `k` has the same element at rank `k - len(L)` in `R`, which is in range |
| Rank.KthRank | temp.py:37-38 | the element of rank `k` has at most `k` elements strictly below it and at most `n - 1 - k` strictly above it |
| Rank.RankDeterminesKth | temp.py:37-38 | conversely, any value with at most `k` elements below it and at most `n - 1 - k` above it is the element of rank `k` |
| Partition.Below | temp.py:55 | `[x for x in l if x < pivot]` holds each value below the pivot exactly as often as `l` does, and nothing else |
| Partition.Above | temp.py:56 | `[x for x in l if x > pivot]` holds each value above the pivot exactly as often as `l` does, and nothing else |
| Partition.CountEq | temp.py:57 | `sum(1 for x in l if x == pivot)` is the multiplicity of the pivot in `l` |
| Partition.ThreeWay | temp.py:55-57 | the values below, the values above and the counted copies of the pivot together are a permutation of `l`; the first part lies strictly below the pivot and the second strictly above it; at least one copy is counted when the pivot occurs in `l` |
| Partition.LeftShare | temp.py:57 | the closed-form final length of `L` after `c` copies are handed out: it never shrinks and grows by at most `c` |
| Partition.Distribute | temp.py:57 | the hand-out loop leaves `L` and `R` extended by copies of the pivot only. `L` reaches exactly the closed-form length `LeftShare` and `R` takes the rest. When the copies are enough to even the sides, `R` ends no shorter than `L` and at most one longer |
| Partition.Split | temp.py:55-57 | `L` and `R` together are a permutation of the working list, `L` holds only elements at most the pivot and `R` only elements at least the pivot. When the pivot is in a list of two or more elements, both are non-empty and strictly shorter than it |
| Pivot.MedianOf5 | temp.py:54 | `sorted(group)[2]` for a group of five is an element of the group with at most two of the group below it and at most two above it |
| Pivot.Medians | temp.py:54 | the list of group medians has one entry per full group of five (`n // 5` entries), the `i`-th being the median of elements `5i` to `5i + 4`, and every entry is an element of the list |
| Pivot.PivotRankInRange | temp.py:54 | past the base cases (more than 16 elements) there are at least three medians and the rank `n // 10` is a valid index among them |
| Select.BaseCase | temp.py:50-53 | a base case answers exactly when `k == 0`, `k == n - 1` or `n <= MAX_SIZE`, and its answer is the element of rank `k` |
| Select.ChoosePivot | temp.py:54 | the pivot is the element of rank `n // 10` among the group medians, and it is an element of the list |
| Select.Narrow | temp.py:55-62 | the side kept is drawn from the working list, non-empty and strictly shorter than the working list, the new rank lies within it, and the element of that rank is unchanged |
| Select.FindKth | temp.py:32-63 | `None` exactly for the empty list. Otherwise, for `0 <= k < len(l)`, the result is the element at position `k` of `l` sorted in non-decreasing order. The final `return None` is never reached for a non-empty list |
| AsWritten.SplitAsWritten | temp.py:55-57 | read literally, line 55 fails when `L` is unbound. With some earlier `L` bound, `R` comes out empty, no copy of the pivot is counted, and the two sides are not a permutation of any working list that holds the pivot |
| AsWritten.FindKthAsWritten | temp.py:49-57 | read literally, the base cases answer correctly, and every other call (more than 16 elements, `0 < k < n - 1`) ends in `UnboundLocalError` |

## Left out

- `find_tail` (temp.py:5-30) is left out. It is a floating-point bisection over a caller-supplied predicate, and its guarantee and termination depend on IEEE double behaviour.
- The O(n) running-time claim (temp.py:40) is left out. So is the 3n/10 balance bound of median-of-medians, which only matters for that claim. Termination is proved through the strictly shrinking working list.
- Select.FindKth: requires `l` empty or `0 <= k < len(l)`. The source's behaviour for a negative `k` or a `k` past the end of the list is left out. Such a `k` never reaches `min` or `max`, since ranks `0` and `n - 1` are in range. With at most 16 elements, `sorted(l)[k]` reads from the end for `-n <= k < 0` and raises `IndexError` for any other out-of-range `k`. With more than 16 elements, the intended reading narrows until that happens: a negative `k` always keeps `L`, and a `k` past the end stays past the end of `R`. The literal source raises `UnboundLocalError` first.
- AsWritten.FindKthAsWritten: has the same requirement on `k` as `Select.FindKth`. An out-of-range `k` is left out here too; with more than 16 elements the literal source also ends in `UnboundLocalError` for such a `k`.
- Elements are integers. Python's duck-typed comparison of arbitrary values is left out.
- Partition.Split: states the two sides as multisets, not the order of elements inside them. The sides are built in list order. That order decides the next pass's groups of five and so its pivot, but not the answer: `Kth` depends only on which elements the list holds, so `FindKth`'s contract needs no more.
- Python's mutation of the fresh lists `L` and `R` by `append` is modelled as building new sequences. The input list itself is never mutated in the source either.
- The typing import of line 1 has no counterpart.

## Findings

| source | as written | input that shows it | evidently intended | confidence | as-written member | corrected member |
|---|---|---|---|---|---|---|
| temp.py:55 | the comprehension that builds `L` iterates over `L` itself, which is unbound on the loop's first pass, so Python raises `UnboundLocalError` | `l = [0, 1, ..., 16]` (17 elements), `k = 1`: past all base cases, so line 55 runs with `L` unbound | iterate over the working list `l` | high; not executed | AsWritten.FindKthAsWritten | Select.FindKth |
| temp.py:56-57 | `R` is filtered from the new `L` and the pivot's copies are counted in the new `L`; that `L` holds only values below the pivot, so `R` is empty and every copy of the pivot is lost | hidden behind the first row: line 55 raises on the first pass of every call that gets past the base cases, so `L` is never bound when these lines run. If `L` were bound (say to `[1]`) with working list `[3, 1, 2]` and pivot `2`, `R` would be `[]` and the `2` in neither side | filter `R` and count the copies over the working list `l` | high; not executed | AsWritten.SplitAsWritten | Partition.Split |
