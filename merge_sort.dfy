/** The annotated CLRS merge sort of merge_sort.py, and the merge of two
    sorted runs that it and the Test.py variant are proved against. */
module MergeSort {
  import opened SortSpec

  /** Whether the next value of a merge comes from the left run: the right
      run is exhausted, or the left head is smaller, or the heads tie and
      ties go left. */
  predicate HeadFromLeft(L: seq<int>, R: seq<int>, tiesLeft: bool)
  {
    R == [] || (L != [] && (L[0] < R[0] || (tiesLeft && L[0] == R[0])))
  }

  /** The merge of two runs, one head at a time. On equal heads the left run
      goes first when `tiesLeft` holds (merge_sort.py compares `L[i] <= R[j]`)
      and the right run otherwise (Test.py compares `left[i] < right[j]`). */
  function MergeRuns(L: seq<int>, R: seq<int>, tiesLeft: bool): (m: seq<int>)
    ensures |m| == |L| + |R|
    decreases |L| + |R|
  {
    if L == [] && R == [] then []
    else if HeadFromLeft(L, R, tiesLeft) then [L[0]] + MergeRuns(L[1..], R, tiesLeft)
    else [R[0]] + MergeRuns(L, R[1..], tiesLeft)
  }

  /** A merge holds exactly the values of both runs. */
  lemma {:induction false} MergeRunsPermutes(L: seq<int>, R: seq<int>, tiesLeft: bool)
    ensures multiset(MergeRuns(L, R, tiesLeft)) == multiset(L) + multiset(R)
    decreases |L| + |R|
  {
    if L == [] && R == [] {
    } else if HeadFromLeft(L, R, tiesLeft) {
      var h, rest := L[0], MergeRuns(L[1..], R, tiesLeft);
      MergeRunsPermutes(L[1..], R, tiesLeft);
      assert MergeRuns(L, R, tiesLeft) == [h] + rest;
      PrependCounts(h, rest, L[1..], R, L, R);
    } else {
      var h, rest := R[0], MergeRuns(L, R[1..], tiesLeft);
      MergeRunsPermutes(L, R[1..], tiesLeft);
      assert MergeRuns(L, R, tiesLeft) == [h] + rest;
      PrependCounts(h, rest, R[1..], L, R, L);
    }
  }

  /** Taking the head `h` off the run `X` into the merged `rest` keeps the
      merge's values those of both runs. */
  lemma PrependCounts(h: int, rest: seq<int>, tail: seq<int>, other: seq<int>, X: seq<int>, Y: seq<int>)
    requires X != [] && h == X[0] && tail == X[1..] && Y == other
    requires multiset(rest) == multiset(tail) + multiset(other)
    ensures multiset([h] + rest) == multiset(X) + multiset(Y)
  {
    assert X == [h] + tail;
  }

  /** Merging two sorted runs gives a sorted run, whichever way ties go. */
  lemma {:induction false} MergeRunsSorted(L: seq<int>, R: seq<int>, tiesLeft: bool)
    requires Sorted(L) && Sorted(R)
    ensures Sorted(MergeRuns(L, R, tiesLeft))
    decreases |L| + |R|
  {
    if L == [] && R == [] {
    } else if HeadFromLeft(L, R, tiesLeft) {
      MergeRunsSorted(L[1..], R, tiesLeft);
      MergeRunsPermutes(L[1..], R, tiesLeft);
      PrependSmallest(L[0], MergeRuns(L[1..], R, tiesLeft), L[1..], R);
    } else {
      MergeRunsSorted(L, R[1..], tiesLeft);
      MergeRunsPermutes(L, R[1..], tiesLeft);
      PrependSmallest(R[0], MergeRuns(L, R[1..], tiesLeft), L, R[1..]);
    }
  }

  /** A value no larger than anything in `rest` extends a sorted `rest`. */
  lemma PrependSmallest(h: int, rest: seq<int>, X: seq<int>, Y: seq<int>)
    requires Sorted(rest) && multiset(rest) == multiset(X) + multiset(Y)
    requires forall k :: 0 <= k < |X| ==> h <= X[k]
    requires forall k :: 0 <= k < |Y| ==> h <= Y[k]
    ensures Sorted([h] + rest)
  {
    forall k | 0 <= k < |rest|
      ensures h <= rest[k]
    {
      assert rest[k] in multiset(rest);
      if rest[k] in multiset(X) {
        var m :| 0 <= m < |X| && X[m] == rest[k];
      } else {
        assert rest[k] in multiset(Y);
        var m :| 0 <= m < |Y| && Y[m] == rest[k];
      }
    }
    var t := [h] + rest;
    forall p, q | 0 <= p < q < |t|
      ensures t[p] <= t[q]
    {
      assert t[q] == rest[q - 1];
      if p > 0 {
        assert t[p] == rest[p - 1];
      }
    }
  }

  /** An entry of a merge buffer: a value of the run, or the `float('inf')`
      sentinel stored after its last value. */
  datatype Ext = Fin(v: int) | Inf

  /** Entry `i` of the buffer holding `run` followed by the sentinel. */
  function Buffered(run: seq<int>, i: int): (e: Ext)
    requires 0 <= i <= |run|
    ensures e.Inf? <==> i == |run|
    ensures e.Fin? ==> e.v == run[i]
  {
    if i < |run| then Fin(run[i]) else Inf
  }

  /** Python's `<=` with an infinite value: everything is at most `inf`, and
      `inf` is at most nothing finite. */
  predicate AtMost(a: Ext, b: Ext)
    ensures b.Inf? ==> AtMost(a, b)
    ensures a.Inf? ==> (AtMost(a, b) <==> b.Inf?)
    ensures a.Fin? && b.Fin? ==> (AtMost(a, b) <==> a.v <= b.v)
  {
    b.Inf? || (a.Fin? && a.v <= b.v)
  }

  /** The test `L[i] <= R[j]` of `merge` on the sentinel-terminated buffers.
      While values remain to be written it never selects an exhausted run,
      and a tie goes to the left run. */
  function TakesLeft(L: seq<int>, R: seq<int>, i: int, j: int): (left: bool)
    requires 0 <= i <= |L| && 0 <= j <= |R| && i + j < |L| + |R|
    ensures left ==> i < |L|
    ensures !left ==> j < |R|
    ensures left <==> (j == |R| || (i < |L| && L[i] <= R[j]))
  {
    AtMost(Buffered(L, i), Buffered(R, j))
  }

  /** The loop `for k in range(p, r + 1)` of `merge`, entered with `i` values
      of `L` and `j` values of `R` written, so at `k == p + i + j`; it stops
      once every value of both runs is written. */
  function MergeFrom(A: seq<int>, L: seq<int>, R: seq<int>, p: int, i: int, j: int): (r: Run)
    requires 0 <= p && p + |L| + |R| <= |A|
    requires 0 <= i <= |L| && 0 <= j <= |R|
    ensures |r.state| == |A|
    decreases |L| + |R| - i - j, 1
  {
    if i + j == |L| + |R| then Run(A, []) else MergeWrite(A, L, R, p, i, j)
  }

  /** One round of that loop at `k == p + i + j`: record `comparing=[k]`,
      write the smaller head to `A[k]` and advance past it, record
      `swapped=[k]`, and go on with the next round. */
  function MergeWrite(A: seq<int>, L: seq<int>, R: seq<int>, p: int, i: int, j: int): (r: Run)
    requires 0 <= p && p + |L| + |R| <= |A|
    requires 0 <= i <= |L| && 0 <= j <= |R| && i + j < |L| + |R|
    ensures |r.state| == |A|
    decreases |L| + |R| - i - j, 0
  {
    var k := p + i + j;
    var left := TakesLeft(L, R, i, j);
    var A' := A[k := if left then L[i] else R[j]];
    var rest := MergeFrom(A', L, R, p, if left then i + 1 else i, if left then j else j + 1);
    Run(rest.state, [Step(A, [k], []), Step(A', [], [k])] + rest.steps)
  }

  /** `merge(A, p, q, r)`: copy the runs `A[p..q]` and `A[q+1..r]` into
      buffers and merge them back into `A[p..r]`. */
  function Merge(s: seq<int>, p: int, q: int, r: int): (m: Run)
    requires 0 <= p <= q < r < |s|
    ensures |m.state| == |s|
  {
    MergeFrom(s, s[p..q + 1], s[q + 1..r + 1], p, 0, 0)
  }

  /** `merge_sort_helper(A, p, r)`: a range of at most one element is left
      as it is; a longer one is split at `q = (p + r) // 2`. */
  function MergeSortRange(s: seq<int>, p: int, r: int): (res: Run)
    requires 0 <= p && r < |s|
    ensures |res.state| == |s|
    decreases r - p, 1
  {
    if p < r then SortHalves(s, p, (p + r) / 2, r) else Run(s, [])
  }

  /** The body of `merge_sort_helper(A, p, r)` for `p < r`: sort `A[p..q]`,
      then `A[q+1..r]`, then merge them. */
  function SortHalves(s: seq<int>, p: int, q: int, r: int): (res: Run)
    requires 0 <= p <= q < r < |s|
    ensures |res.state| == |s|
    decreases r - p, 0
  {
    var left := MergeSortRange(s, p, q);
    var right := MergeSortRange(left.state, q + 1, r);
    var m := Merge(right.state, p, q, r);
    Run(m.state, left.steps + right.steps + m.steps)
  }

  /** The whole run of `merge_sort`: the initial step, then the steps of
      `merge_sort_helper(arr, 0, len(arr) - 1)`, so a list of length at most
      one records nothing else. */
  function MergeSortRun(s: seq<int>): (r: Run)
    ensures |r.steps| >= 1 && r.steps[0] == Initial(s)
    ensures |s| <= 1 ==> r == Run(s, [Initial(s)])
  {
    var h := MergeSortRange(s, 0, |s| - 1);
    Run(h.state, [Initial(s)] + h.steps)
  }

  /** Writing position by position, the loop leaves `A[k..e)` holding the
      merge of what is left of the two runs, ties taken from the left, and
      touches nothing outside. */
  lemma {:induction false} MergeFromState(A: seq<int>, L: seq<int>, R: seq<int>, p: int, i: int, j: int)
    requires 0 <= p && p + |L| + |R| <= |A|
    requires 0 <= i <= |L| && 0 <= j <= |R|
    ensures MergeFrom(A, L, R, p, i, j).state
         == A[..p + i + j] + MergeRuns(L[i..], R[j..], true) + A[p + |L| + |R|..]
    decreases |L| + |R| - i - j, 1
  {
    var k, e := p + i + j, p + |L| + |R|;
    if i + j == |L| + |R| {
      assert L[i..] == [] && R[j..] == [];
      assert A == A[..k] + A[e..];
    } else {
      MergeWriteState(A, L, R, p, i, j);
    }
  }

  /** The same for a round that writes one value. */
  lemma {:induction false} MergeWriteState(A: seq<int>, L: seq<int>, R: seq<int>, p: int, i: int, j: int)
    requires 0 <= p && p + |L| + |R| <= |A|
    requires 0 <= i <= |L| && 0 <= j <= |R| && i + j < |L| + |R|
    ensures MergeWrite(A, L, R, p, i, j).state
         == A[..p + i + j] + MergeRuns(L[i..], R[j..], true) + A[p + |L| + |R|..]
    decreases |L| + |R| - i - j, 0
  {
    var k, e := p + i + j, p + |L| + |R|;
    var left := TakesLeft(L, R, i, j);
    var v := if left then L[i] else R[j];
    var i', j' := if left then i + 1 else i, if left then j else j + 1;
    var A' := A[k := v];
    MergeFromState(A', L, R, p, i', j');
    assert MergeWrite(A, L, R, p, i, j).state == MergeFrom(A', L, R, p, i', j').state;
    assert p + i' + j' == k + 1;
    MergeRunsAdvance(L, R, i, j);
    WrittenAhead(A, k, e, v, MergeRuns(L[i'..], R[j'..], true));
  }

  /** Writing `v` at `k` moves it from the merge still to come into the part
      already written. */
  lemma WrittenAhead(A: seq<int>, k: int, e: int, v: int, rest: seq<int>)
    requires 0 <= k < e <= |A|
    ensures var A' := A[k := v];
      A'[..k + 1] + rest + A'[e..] == A[..k] + ([v] + rest) + A[e..]
  {
    var A' := A[k := v];
    assert A'[..k + 1] == A[..k] + [v];
    assert A'[e..] == A[e..];
  }

  /** The merge of what is left of the runs starts with the head `merge`
      selects, followed by the merge of what is left after it. */
  lemma MergeRunsAdvance(L: seq<int>, R: seq<int>, i: int, j: int)
    requires 0 <= i <= |L| && 0 <= j <= |R| && i + j < |L| + |R|
    ensures var left := TakesLeft(L, R, i, j);
      MergeRuns(L[i..], R[j..], true)
      == [if left then L[i] else R[j]]
         + MergeRuns(L[if left then i + 1 else i..], R[if left then j else j + 1..], true)
  {
    var X, Y := L[i..], R[j..];
    assert TakesLeft(L, R, i, j) <==> HeadFromLeft(X, Y, true);
    if TakesLeft(L, R, i, j) {
      assert X[0] == L[i] && X[1..] == L[i + 1..];
    } else {
      assert Y[0] == R[j] && Y[1..] == R[j + 1..];
    }
  }

  /** Round `t` of a merge that starts writing at `base`: `comparing=[k]` on
      the list before `A[k]` is written and `swapped=[k]` on the list after,
      for `k == base + t`, the two snapshots differing at most at `k`. */
  predicate MergeRound(steps: seq<Step>, t: int, base: int)
  {
    && 0 <= t && 2 * t + 1 < |steps|
    && var k := base + t;
    && 0 <= k
    && steps[2 * t].comparing == [k] && steps[2 * t].swapped == []
    && steps[2 * t + 1].comparing == [] && steps[2 * t + 1].swapped == [k]
    && SameOutside(steps[2 * t].snapshot, steps[2 * t + 1].snapshot, k, k + 1)
  }

  /** `n` rounds writing `base`, `base + 1`, ..., and nothing else. */
  predicate MergeRounds(steps: seq<Step>, n: int, base: int)
  {
    |steps| == 2 * n && forall t :: 0 <= t < n ==> MergeRound(steps, t, base)
  }

  /** Prepending the round for `base` to the rounds from `base + 1`. */
  lemma MergeRoundsCons(A: seq<int>, A': seq<int>, rest: seq<Step>, n: int, base: int)
    requires 0 <= base && SameOutside(A, A', base, base + 1)
    requires MergeRounds(rest, n, base + 1)
    ensures MergeRounds([Step(A, [base], []), Step(A', [], [base])] + rest, n + 1, base)
  {
    var all := [Step(A, [base], []), Step(A', [], [base])] + rest;
    forall t | 0 <= t < n + 1
      ensures MergeRound(all, t, base)
    {
      if t > 0 {
        assert MergeRound(rest, t - 1, base + 1);
        assert all[2 * t] == rest[2 * (t - 1)];
        assert all[2 * t + 1] == rest[2 * (t - 1) + 1];
      }
    }
  }

  /** The merge loop appends two steps per position still to be written, in
      position order, and its snapshots differ from `A` only in the positions
      still to be written. */
  lemma {:induction false} MergeFromSteps(A: seq<int>, L: seq<int>, R: seq<int>, p: int, i: int, j: int)
    requires 0 <= p && p + |L| + |R| <= |A|
    requires 0 <= i <= |L| && 0 <= j <= |R|
    ensures var r := MergeFrom(A, L, R, p, i, j);
      && MergeRounds(r.steps, |L| + |R| - i - j, p + i + j)
      && Untouched(r.steps, A, p + i + j, p + |L| + |R|)
    decreases |L| + |R| - i - j
  {
    var k, e := p + i + j, p + |L| + |R|;
    if i + j < |L| + |R| {
      var left := TakesLeft(L, R, i, j);
      var i', j' := if left then i + 1 else i, if left then j else j + 1;
      var A' := A[k := if left then L[i] else R[j]];
      var rest := MergeFrom(A', L, R, p, i', j');
      MergeFromSteps(A', L, R, p, i', j');
      var head := [Step(A, [k], []), Step(A', [], [k])];
      assert MergeFrom(A, L, R, p, i, j).steps == head + rest.steps;
      MergeRoundsCons(A, A', rest.steps, |L| + |R| - i - j - 1, k);
      UntouchedWiden(rest.steps, A', k + 1, e, k, e);
      UntouchedVia(rest.steps, A, A', k, e);
      UntouchedAppend(head, rest.steps, A, k, e);
    }
  }

  /** `merge` leaves `A[p..r]` holding the merge of the two runs, ties taken
      from the left run, and the rest of the list as it was. */
  lemma MergeLayout(s: seq<int>, p: int, q: int, r: int)
    requires 0 <= p <= q < r < |s|
    ensures var m := Merge(s, p, q, r).state;
      && m[p..r + 1] == MergeRuns(s[p..q + 1], s[q + 1..r + 1], true)
      && SameOutside(s, m, p, r + 1)
  {
    var L, R := s[p..q + 1], s[q + 1..r + 1];
    MergeFromState(s, L, R, p, 0, 0);
    var m := Merge(s, p, q, r).state;
    assert m == s[..p] + MergeRuns(L, R, true) + s[r + 1..];
    assert m[p..r + 1] == MergeRuns(L, R, true);
    forall k | 0 <= k < |s| && !(p <= k < r + 1)
      ensures s[k] == m[k]
    {
      if k < p {
        assert m[k] == s[..p][k];
      } else {
        assert m[k] == s[r + 1..][k - r - 1];
      }
    }
  }

  /** `merge(A, p, q, r)` appends exactly `2 * (r - p + 1)` steps:
      `comparing=[k]` before and `swapped=[k]` after the write of each `k`
      in `p..r`, and none of its snapshots differs from `A` outside
      `A[p..r]`. */
  lemma MergeSteps(s: seq<int>, p: int, q: int, r: int)
    requires 0 <= p <= q < r < |s|
    ensures var m := Merge(s, p, q, r);
      MergeRounds(m.steps, r - p + 1, p) && Untouched(m.steps, s, p, r + 1)
  {
    MergeFromSteps(s, s[p..q + 1], s[q + 1..r + 1], p, 0, 0);
  }

  /** `t` is `s` with `[lo, hi)` sorted: that range is ascending and holds
      the values it held in `s`, and the rest of the list is as it was. */
  predicate SortedWithin(s: seq<int>, t: seq<int>, lo: int, hi: int)
  {
    && 0 <= lo <= hi <= |s|
    && SameOutside(s, t, lo, hi)
    && SortedBetween(t, lo, hi)
    && multiset(t[lo..hi]) == multiset(s[lo..hi])
  }

  /** Merging two adjacent sorted ranges leaves their union sorted and
      rearranged, and the rest of the list alone. */
  lemma MergeSorts(s: seq<int>, p: int, q: int, r: int)
    requires 0 <= p <= q < r < |s|
    requires SortedBetween(s, p, q + 1) && SortedBetween(s, q + 1, r + 1)
    ensures SortedWithin(s, Merge(s, p, q, r).state, p, r + 1)
  {
    MergeLayout(s, p, q, r);
    SortedSlice(s, p, q + 1);
    SortedSlice(s, q + 1, r + 1);
    MergedRangeSorted(s, Merge(s, p, q, r).state, p, q, r);
  }

  /** A list holding the merge of two sorted adjacent ranges of `s` in
      their place, and `s` elsewhere, sorts those ranges within `s`. */
  lemma MergedRangeSorted(s: seq<int>, m: seq<int>, p: int, q: int, r: int)
    requires 0 <= p <= q < r < |s| == |m|
    requires Sorted(s[p..q + 1]) && Sorted(s[q + 1..r + 1])
    requires m[p..r + 1] == MergeRuns(s[p..q + 1], s[q + 1..r + 1], true)
    requires SameOutside(s, m, p, r + 1)
    ensures SortedWithin(s, m, p, r + 1)
  {
    MergeRunsSorted(s[p..q + 1], s[q + 1..r + 1], true);
    MergeRunsPermutes(s[p..q + 1], s[q + 1..r + 1], true);
    PlacedSorted(s, m, p, q, r);
  }

  /** A sorted rearrangement of `s[p..r]` placed over it, with `s` kept
      elsewhere. */
  lemma PlacedSorted(s: seq<int>, m: seq<int>, p: int, q: int, r: int)
    requires 0 <= p <= q < r < |s| == |m|
    requires Sorted(m[p..r + 1])
    requires multiset(m[p..r + 1]) == multiset(s[p..q + 1]) + multiset(s[q + 1..r + 1])
    requires SameOutside(s, m, p, r + 1)
    ensures SortedWithin(s, m, p, r + 1)
  {
    SortedSlice(m, p, r + 1);
    assert s[p..r + 1] == s[p..q + 1] + s[q + 1..r + 1];
  }

  /** Write rounds anywhere in `[lo, hi)`: an even number of steps, each pair
      `comparing=[k]` then `swapped=[k]` for one `k` in that range. */
  predicate WritePairs(steps: seq<Step>, lo: int, hi: int)
  {
    && |steps| % 2 == 0
    && forall t :: 0 <= t < |steps| / 2 ==> WritePair(steps, t, lo, hi)
  }

  predicate WritePair(steps: seq<Step>, t: int, lo: int, hi: int)
  {
    && 0 <= t && 2 * t + 1 < |steps|
    && |steps[2 * t].comparing| == 1
    && lo <= steps[2 * t].comparing[0] < hi
    && steps[2 * t].swapped == []
    && steps[2 * t + 1].comparing == []
    && steps[2 * t + 1].swapped == steps[2 * t].comparing
  }

  lemma MergeRoundsArePairs(steps: seq<Step>, n: int, base: int)
    requires MergeRounds(steps, n, base)
    ensures WritePairs(steps, base, base + n)
  {
    var hi := base + n;
    forall t | 0 <= t < |steps| / 2
      ensures WritePair(steps, t, base, hi)
    {
      assert t < n && MergeRound(steps, t, base);
    }
  }

  lemma WritePairsAppend(a: seq<Step>, b: seq<Step>, la: int, ha: int, lb: int, hb: int, lo: int, hi: int)
    requires WritePairs(a, la, ha) && WritePairs(b, lb, hb)
    requires lo <= la && lo <= lb && ha <= hi && hb <= hi
    ensures WritePairs(a + b, lo, hi)
  {
    var ab := a + b;
    forall t | 0 <= t < |ab| / 2
      ensures WritePair(ab, t, lo, hi)
    {
      if 2 * t < |a| {
        assert WritePair(a, t, la, ha);
        assert ab[2 * t] == a[2 * t] && ab[2 * t + 1] == a[2 * t + 1];
      } else {
        var u := t - |a| / 2;
        assert WritePair(b, u, lb, hb);
        assert ab[2 * t] == b[2 * u] && ab[2 * t + 1] == b[2 * u + 1];
      }
    }
  }

  /** The writes `merge_sort_helper(A, p, r)` performs: `r - p + 1` for its
      own merge plus those of both halves. */
  function MergeWork(p: int, r: int): (n: nat)
    ensures p < r ==> n >= r - p + 1
    decreases r - p
  {
    if p < r then
      var q := (p + r) / 2;
      MergeWork(p, q) + MergeWork(q + 1, r) + (r - p + 1)
    else 0
  }

  /** `merge_sort_helper(A, p, r)` sorts `A[p..r]` in place, rearranging it
      and leaving the rest of the list as it was. */
  lemma {:induction false} MergeSortRangeSorts(s: seq<int>, p: int, r: int)
    requires 0 <= p <= r + 1 && r < |s|
    ensures SortedWithin(s, MergeSortRange(s, p, r).state, p, r + 1)
    decreases r - p, 1
  {
    if p < r {
      var q := (p + r) / 2;
      SortHalvesSorts(s, p, q, r);
      assert MergeSortRange(s, p, r) == SortHalves(s, p, q, r);
    }
  }

  /** Sorting both halves and merging them sorts the range. */
  lemma {:induction false} SortHalvesSorts(s: seq<int>, p: int, q: int, r: int)
    requires 0 <= p <= q < r < |s|
    ensures SortedWithin(s, SortHalves(s, p, q, r).state, p, r + 1)
    decreases r - p, 0
  {
    var left := MergeSortRange(s, p, q).state;
    MergeSortRangeSorts(s, p, q);
    var right := MergeSortRange(left, q + 1, r).state;
    MergeSortRangeSorts(left, q + 1, r);
    SortedHalvesMerge(s, left, right, p, q, r);
  }

  /** After both recursive calls, each half is sorted and holds the values
      it started with, so the merge sorts the whole range. */
  lemma SortedHalvesMerge(s: seq<int>, a: seq<int>, b: seq<int>, p: int, q: int, r: int)
    requires 0 <= p <= q < r < |s|
    requires SortedWithin(s, a, p, q + 1) && SortedWithin(a, b, q + 1, r + 1)
    ensures SortedWithin(s, Merge(b, p, q, r).state, p, r + 1)
  {
    assert b[p..q + 1] == a[p..q + 1];
    assert a[q + 1..r + 1] == s[q + 1..r + 1];
    assert SortedBetween(b, p, q + 1);
    MergeSorts(b, p, q, r);
    assert s[p..r + 1] == s[p..q + 1] + s[q + 1..r + 1];
    assert b[p..r + 1] == b[p..q + 1] + b[q + 1..r + 1];
  }

  /** The trace only writes inside `[lo, hi)`: write rounds there, and no
      snapshot differing from `s` outside. */
  predicate WritesInside(steps: seq<Step>, s: seq<int>, lo: int, hi: int)
  {
    WritePairs(steps, lo, hi) && Untouched(steps, s, lo, hi)
  }

  /** The trace of `merge_sort_helper(A, p, r)`: `MergeWork(p, r)` write
      rounds, each writing one position of `A[p..r]`, and no snapshot
      differing from `A` outside `A[p..r]`. */
  lemma {:induction false} MergeSortRangeSteps(s: seq<int>, p: int, r: int)
    requires 0 <= p <= r + 1 && r < |s|
    ensures var res := MergeSortRange(s, p, r);
      |res.steps| == 2 * MergeWork(p, r) && WritesInside(res.steps, s, p, r + 1)
    decreases r - p, 1
  {
    if p < r {
      var q := (p + r) / 2;
      SortHalvesSteps(s, p, q, r);
      assert MergeSortRange(s, p, r) == SortHalves(s, p, q, r);
    }
  }

  /** The trace of both halves and the merge. */
  lemma {:induction false} SortHalvesSteps(s: seq<int>, p: int, q: int, r: int)
    requires 0 <= p <= q < r < |s|
    ensures var res := SortHalves(s, p, q, r);
      && |res.steps| == 2 * (MergeWork(p, q) + MergeWork(q + 1, r) + (r - p + 1))
      && WritesInside(res.steps, s, p, r + 1)
    decreases r - p, 0
  {
    var left := MergeSortRange(s, p, q);
    var right := MergeSortRange(left.state, q + 1, r);
    MergeSortRangeSteps(s, p, q);
    MergeSortRangeSteps(left.state, q + 1, r);
    MergeSortRangeSorts(s, p, q);
    MergeSortRangeSorts(left.state, q + 1, r);
    HalvesTrace(s, left, right, p, q, r);
  }

  /** The trace of both recursive calls followed by the merge stays within
      `A[p..r]`. */
  lemma HalvesTrace(s: seq<int>, left: Run, right: Run, p: int, q: int, r: int)
    requires 0 <= p <= q < r < |s|
    requires SameOutside(s, left.state, p, q + 1) && SameOutside(left.state, right.state, q + 1, r + 1)
    requires WritesInside(left.steps, s, p, q + 1) && WritesInside(right.steps, left.state, q + 1, r + 1)
    ensures var m := Merge(right.state, p, q, r);
      && |m.steps| == 2 * (r - p + 1)
      && WritesInside(left.steps + right.steps + m.steps, s, p, r + 1)
  {
    var m := Merge(right.state, p, q, r);
    MergeSteps(right.state, p, q, r);
    MergeRoundsArePairs(m.steps, r - p + 1, p);
    WritePairsAppend(left.steps, right.steps, p, q + 1, q + 1, r + 1, p, r + 1);
    WritePairsAppend(left.steps + right.steps, m.steps, p, r + 1, p, r + 1, p, r + 1);
    UntouchedWiden(left.steps, s, p, q + 1, p, r + 1);
    UntouchedWiden(right.steps, left.state, q + 1, r + 1, p, r + 1);
    UntouchedVia(right.steps, s, left.state, p, r + 1);
    assert SameOutside(s, right.state, p, r + 1);
    UntouchedVia(m.steps, s, right.state, p, r + 1);
    UntouchedAppend(left.steps, right.steps, s, p, r + 1);
    UntouchedAppend(left.steps + right.steps, m.steps, s, p, r + 1);
  }

  /** merge_sort: the result is the ascending rearrangement of the input; the
      trace is the initial step followed by `MergeWork(0, len - 1)` write
      rounds over the list. */
  lemma MergeSortSorts(s: seq<int>)
    ensures var r := MergeSortRun(s);
      && Sorted(r.state) && multiset(r.state) == multiset(s)
      && |r.steps| == 1 + 2 * MergeWork(0, |s| - 1)
      && WritePairs(r.steps[1..], 0, |s|)
  {
    var h := MergeSortRange(s, 0, |s| - 1);
    MergeSortRangeSorts(s, 0, |s| - 1);
    MergeSortRangeSteps(s, 0, |s| - 1);
    SortedSlice(h.state, 0, |s|);
    assert h.state[0..|s|] == h.state && s[0..|s|] == s;
    assert MergeSortRun(s).steps[1..] == h.steps;
  }

  /** Unlike the swap-based sorts, merge sort's trace is not made of
      rearrangements of the input: right after `A[0]` is overwritten while
      sorting `[2, 1]`, the snapshot holds `1` twice. */
  lemma MidMergeDuplicates()
    ensures MergeSortRun([2, 1]).steps == [
      Initial([2, 1]),
      Step([2, 1], [0], []), Step([1, 1], [], [0]),
      Step([1, 1], [1], []), Step([1, 2], [], [1])]
    ensures !AllPermutations(MergeSortRun([2, 1]).steps, [2, 1])
  {
    var s := [2, 1];
    var trace := MergeTwoOne();
    assert MergeSortRange(s, 0, 0) == Run(s, []);
    assert MergeSortRange(s, 1, 1) == Run(s, []);
    assert SortHalves(s, 0, 0, 1) == Run([1, 2], trace);
    assert MergeSortRange(s, 0, 1) == Run([1, 2], trace);
    assert multiset([1, 1]) != multiset([2, 1]) by {
      assert multiset([1, 1])[2] == 0;
    }
    assert MergeSortRun(s).steps[2].snapshot == [1, 1];
  }

  /** `merge([2, 1], 0, 0, 1)` step by step: the right run's `1` is written
      first, over the `2`, and the `2` from the left run after it. */
  lemma MergeTwoOne() returns (trace: seq<Step>)
    ensures trace == [Step([2, 1], [0], []), Step([1, 1], [], [0]),
                      Step([1, 1], [1], []), Step([1, 2], [], [1])]
    ensures Merge([2, 1], 0, 0, 1) == Run([1, 2], trace)
  {
    var s := [2, 1];
    trace := [Step([2, 1], [0], []), Step([1, 1], [], [0]),
              Step([1, 1], [1], []), Step([1, 2], [], [1])];
    assert s[0..1] == [2] && s[1..2] == [1];
    assert !TakesLeft([2], [1], 0, 0);
    assert [2, 1][0 := 1] == [1, 1];
    LastWrite();
    assert MergeWrite(s, [2], [1], 0, 0, 0) == Run([1, 2], trace);
  }

  /** The second round of that merge writes the left run's `2` at index 1. */
  lemma LastWrite()
    ensures MergeFrom([1, 1], [2], [1], 0, 0, 1)
         == Run([1, 2], [Step([1, 1], [1], []), Step([1, 2], [], [1])])
  {
    assert TakesLeft([2], [1], 0, 1);
    assert [1, 1][1 := 2] == [1, 2];
    assert MergeFrom([1, 2], [2], [1], 0, 1, 1) == Run([1, 2], []);
    assert MergeWrite([1, 1], [2], [1], 0, 0, 1)
        == Run([1, 2], [Step([1, 1], [1], []), Step([1, 2], [], [1])]);
  }

  /** merge_sort.py: sorts `a` in place and returns its trace. */
  method MergeSort(a: array<int>) returns (steps: seq<Step>)
    modifies a
    ensures a[..] == MergeSortRun(old(a[..])).state
    ensures steps == MergeSortRun(old(a[..])).steps
    ensures Sorted(a[..]) && multiset(a[..]) == multiset(old(a[..]))
  {
    ghost var s0 := a[..];
    steps := [Initial(a[..])];
    var more := MergeSortHelper(a, 0, a.Length - 1);
    ghost var h := MergeSortRange(s0, 0, |s0| - 1);
    assert MergeSortRun(s0) == Run(h.state, [Initial(s0)] + h.steps);
    steps := steps + more;
    MergeSortSorts(s0);
  }

  /** `merge_sort_helper(A, p, r)`, returning the steps it appends. */
  method MergeSortHelper(a: array<int>, p: int, r: int) returns (steps: seq<Step>)
    requires 0 <= p && r < a.Length
    modifies a
    ensures a[..] == MergeSortRange(old(a[..]), p, r).state
    ensures steps == MergeSortRange(old(a[..]), p, r).steps
    decreases r - p
  {
    if p < r {
      ghost var s0 := a[..];
      var q := (p + r) / 2;
      var left := MergeSortHelper(a, p, q);
      ghost var s1 := a[..];
      var right := MergeSortHelper(a, q + 1, r);
      ghost var s2 := a[..];
      var merged := MergeInPlace(a, p, q, r);
      steps := left + right + merged;
      assert MergeSortRange(s0, p, q) == Run(s1, left);
      assert MergeSortRange(s1, q + 1, r) == Run(s2, right);
      assert Merge(s2, p, q, r) == Run(a[..], merged);
      assert SortHalves(s0, p, q, r) == Run(a[..], steps);
      assert MergeSortRange(s0, p, r) == SortHalves(s0, p, q, r);
    } else {
      steps := [];
    }
  }

  /** `merge(A, p, q, r)`: fill the buffers, then write `A[p..r]` back from
      them, returning the steps it appends. */
  method MergeInPlace(a: array<int>, p: int, q: int, r: int) returns (steps: seq<Step>)
    requires 0 <= p <= q < r < a.Length
    modifies a
    ensures a[..] == Merge(old(a[..]), p, q, r).state
    ensures steps == Merge(old(a[..]), p, q, r).steps
  {
    var L := CopyRun(a, p, q - p + 1);
    var R := CopyRun(a, q + 1, r - q);
    steps := MergeBack(a, L, R, p);
  }

  /** The buffer `L` (or `R`) of `merge`: a copy of `A[lo..lo+n-1]`. The
      sentinel after its last value is `Buffered`'s `Inf`. */
  method CopyRun(a: array<int>, lo: int, n: int) returns (buf: array<int>)
    requires 0 <= lo && 0 <= n && lo + n <= a.Length
    ensures fresh(buf) && buf[..] == a[lo..lo + n]
  {
    buf := new int[n];
    for x := 0 to n
      invariant forall y :: 0 <= y < x ==> buf[y] == a[lo + y]
    {
      buf[x] := a[lo + x];
    }
  }

  /** The loop `for k in range(p, r + 1)` of `merge` over the buffers `L`
      and `R`. */
  method MergeBack(a: array<int>, L: array<int>, R: array<int>, p: int) returns (steps: seq<Step>)
    requires a != L && a != R
    requires 0 <= p && p + L.Length + R.Length <= a.Length
    modifies a
    ensures a[..] == MergeFrom(old(a[..]), L[..], R[..], p, 0, 0).state
    ensures steps == MergeFrom(old(a[..]), L[..], R[..], p, 0, 0).steps
  {
    ghost var Ls, Rs := L[..], R[..];
    ghost var goal := MergeFrom(a[..], Ls, Rs, p, 0, 0);
    var i, j := 0, 0;
    steps := [];
    for k := p to p + L.Length + R.Length
      invariant i + j == k - p && 0 <= i <= L.Length && 0 <= j <= R.Length
      invariant MergeFrom(a[..], Ls, Rs, p, i, j).state == goal.state
      invariant steps + MergeFrom(a[..], Ls, Rs, p, i, j).steps == goal.steps
    {
      ghost var before := a[..];
      assert MergeFrom(before, Ls, Rs, p, i, j) == MergeWrite(before, Ls, Rs, p, i, j);
      var more;
      i, j, more := WriteRound(a, L, R, p, i, j);
      ghost var rest := MergeFrom(a[..], Ls, Rs, p, i, j);
      assert steps + more + rest.steps == steps + (more + rest.steps);
      steps := steps + more;
    }
  }

  /** One round of that loop at `k == p + i + j`, comparing the buffer
      entries with the sentinel after the last: record `comparing=[k]`,
      copy the smaller head into `A[k]`, record `swapped=[k]`; it returns
      the advanced buffer positions and the two steps. */
  method WriteRound(a: array<int>, L: array<int>, R: array<int>, p: int, i: int, j: int)
    returns (i': int, j': int, steps: seq<Step>)
    requires a != L && a != R
    requires 0 <= p && p + L.Length + R.Length <= a.Length
    requires 0 <= i <= L.Length && 0 <= j <= R.Length && i + j < L.Length + R.Length
    modifies a
    ensures i' + j' == i + j + 1 && 0 <= i' <= L.Length && 0 <= j' <= R.Length
    ensures var w, rest := MergeWrite(old(a[..]), L[..], R[..], p, i, j), MergeFrom(a[..], L[..], R[..], p, i', j');
      w == Run(rest.state, steps + rest.steps)
  {
    var k := p + i + j;
    steps := [Step(a[..], [k], [])];
    var left := if i < L.Length then Fin(L[i]) else Inf;
    var right := if j < R.Length then Fin(R[j]) else Inf;
    assert left == Buffered(L[..], i) && right == Buffered(R[..], j);
    if AtMost(left, right) {
      a[k] := L[i];
      i', j' := i + 1, j;
    } else {
      a[k] := R[j];
      i', j' := i, j + 1;
    }
    steps := steps + [Step(a[..], [], [k])];
  }
}
