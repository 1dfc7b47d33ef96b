/** The selection sort of Test.py and code.py: pass `i` swaps the leftmost
    minimum of `arr[i:]` into place (also when it is already there) and
    records the list (Test.py also records `[i, min_idx]`, code.py only
    the list). */
module SwapSelectionSort {
  import opened SortSpec

  /** The passes `for i in range(len(arr))` from `i` on. */
  function SwapPasses(s: seq<int>, i: nat): (r: MarkedRun)
    ensures |r.state| == |s|
    decreases |s| - i, 1
  {
    if i >= |s| then MarkedRun(s, []) else SwapThenPass(s, i)
  }

  /** Pass `i`: swap the leftmost minimum of `arr[i:]` into place, record
      the list with `[i, min_idx]` marked, and go on. */
  function SwapThenPass(s: seq<int>, i: nat): (r: MarkedRun)
    requires i < |s|
    ensures |r.state| == |s|
    decreases |s| - i, 0
  {
    var m := LeftmostMin(s, i, |s|);
    var t := Swap(s, i, m);
    var rest := SwapPasses(t, i + 1);
    MarkedRun(rest.state, [Marked(t, [i, m])] + rest.steps)
  }

  /** The whole run of Test.py's `selection_sort`: the input with nothing
      marked, then one step per pass. */
  function SwapSelectionRun(s: seq<int>): (r: MarkedRun)
    ensures |r.steps| >= 1 && r.steps[0] == Marked(s, [])
    ensures s == [] ==> r == MarkedRun(s, [Marked(s, [])])
  {
    var ps := SwapPasses(s, 0);
    MarkedRun(ps.state, [Marked(s, [])] + ps.steps)
  }

  /** Step `k` of pass `i + k` marks `[i + k, m]` for an `m` at or after
      `i + k`, and shows a rearrangement of `values` whose first `i + k + 1`
      places hold its `i + k + 1` smallest values in order. */
  predicate PassSteps(steps: seq<Marked>, i: nat, n: nat, values: multiset<int>)
  {
    forall k :: 0 <= k < |steps| ==>
      var st := steps[k];
      && |st.marked| == 2 && st.marked[0] == i + k && i + k <= st.marked[1] < n
      && |st.snapshot| == n && i + k + 1 <= n
      && Partitioned(st.snapshot, i + k + 1)
      && multiset(st.snapshot) == values
  }

  /** Each step of the trace, from pass `i` on, swaps the leftmost minimum
      of `prev[i..]` into place `i` in the list the step before left (the
      first step: in `prev`), shows the result and marks `[i, min_idx]`. */
  predicate MinSwaps(steps: seq<Marked>, prev: seq<int>, i: nat)
    decreases |steps|
  {
    steps == [] ||
      (i < |prev| &&
       var m := LeftmostMin(prev, i, |prev|);
       steps[0] == Marked(Swap(prev, i, m), [i, m]) && MinSwaps(steps[1..], steps[0].snapshot, i + 1))
  }

  /** The passes from `i` on record exactly those steps, one per pass. */
  lemma {:induction false} SwapPassesMinSwaps(s: seq<int>, i: nat)
    requires i <= |s|
    ensures var r := SwapPasses(s, i);
      |r.steps| == |s| - i && MinSwaps(r.steps, s, i)
    decreases |s| - i
  {
    if i < |s| {
      var m := LeftmostMin(s, i, |s|);
      var t := Swap(s, i, m);
      SwapPassesMinSwaps(t, i + 1);
      var r, rest := SwapPasses(s, i), SwapPasses(t, i + 1);
      assert r == SwapThenPass(s, i);
      assert r.steps == [Marked(t, [i, m])] + rest.steps;
      assert r.steps[1..] == rest.steps;
    }
  }

  /** A valid step for pass `i` followed by valid steps from pass `i + 1`
      are valid steps from pass `i`. */
  lemma PassStepsCons(steps: seq<Marked>, i: nat, n: nat, values: multiset<int>)
    requires steps != []
    requires PassSteps(steps[..1], i, n, values)
    requires PassSteps(steps[1..], i + 1, n, values)
    ensures PassSteps(steps, i, n, values)
  {
    forall k | 0 <= k < |steps|
      ensures var st := steps[k];
        && |st.marked| == 2 && st.marked[0] == i + k && i + k <= st.marked[1] < n
        && |st.snapshot| == n && i + k + 1 <= n
        && Partitioned(st.snapshot, i + k + 1)
        && multiset(st.snapshot) == values
    {
      if k == 0 {
        assert steps[k] == steps[..1][0];
      } else {
        assert steps[k] == steps[1..][k - 1];
      }
    }
  }

  /** The passes from `i` on, starting from a list whose first `i` places
      hold its `i` smallest values in order, sort it, one step per
      remaining pass. */
  lemma {:induction false} SwapPassesSort(s: seq<int>, i: nat)
    requires i <= |s| && Partitioned(s, i)
    ensures var r := SwapPasses(s, i);
      && Sorted(r.state) && multiset(r.state) == multiset(s)
      && |r.steps| == |s| - i
    decreases |s| - i
  {
    if i < |s| {
      var m := LeftmostMin(s, i, |s|);
      var t := Swap(s, i, m);
      SwapMinExtends(s, i);
      SwapPermutes(s, i, m);
      SwapPassesSort(t, i + 1);
      var r, rest := SwapPasses(s, i), SwapPasses(t, i + 1);
      assert r == SwapThenPass(s, i);
      assert r == MarkedRun(rest.state, [Marked(t, [i, m])] + rest.steps);
    } else {
      PartitionedSorted(s, i);
    }
  }

  /** Those passes record each step as `PassSteps` and `MinSwaps` say. */
  lemma {:induction false} SwapPassesSteps(s: seq<int>, i: nat)
    requires i <= |s| && Partitioned(s, i)
    ensures PassSteps(SwapPasses(s, i).steps, i, |s|, multiset(s))
    ensures MinSwaps(SwapPasses(s, i).steps, s, i)
    decreases |s| - i
  {
    SwapPassesMinSwaps(s, i);
    if i < |s| {
      var m := LeftmostMin(s, i, |s|);
      var t := Swap(s, i, m);
      PassStepFirst(s, i);
      SwapPassesSteps(t, i + 1);
      var r, rest := SwapPasses(s, i), SwapPasses(t, i + 1);
      assert r == SwapThenPass(s, i);
      assert r == MarkedRun(rest.state, [Marked(t, [i, m])] + rest.steps);
      assert r.steps[..1] == [Marked(t, [i, m])];
      assert r.steps[1..] == rest.steps;
      PassStepsCons(r.steps, i, |s|, multiset(s));
    }
  }

  /** The step of pass `i` is valid for pass `i`. */
  lemma PassStepFirst(s: seq<int>, i: nat)
    requires i < |s| && Partitioned(s, i)
    ensures var m := LeftmostMin(s, i, |s|); var t := Swap(s, i, m);
      && Partitioned(t, i + 1) && multiset(t) == multiset(s)
      && PassSteps([Marked(t, [i, m])], i, |s|, multiset(s))
  {
    var m := LeftmostMin(s, i, |s|);
    SwapMinExtends(s, i);
    SwapPermutes(s, i, m);
  }

  /** Test.py's `selection_sort`: the result is the ascending rearrangement
      of the input, the trace has one step more than the list has places,
      and after the unmarked first step, step `k` swaps the leftmost minimum
      of the rest into place `k - 1` of the list before, marks
      `[k - 1, min_idx]` and shows the first `k` places final. */
  lemma SwapSelectionSorts(s: seq<int>)
    ensures var r := SwapSelectionRun(s);
      && Sorted(r.state) && multiset(r.state) == multiset(s)
      && |r.steps| == |s| + 1
      && MinSwaps(r.steps[1..], s, 0)
      && PassSteps(r.steps[1..], 0, |s|, multiset(s))
      && Rearranges(r.steps, multiset(s))
  {
    SwapPassesSort(s, 0);
    SwapPassesSteps(s, 0);
    var r := SwapSelectionRun(s);
    var ps := SwapPasses(s, 0);
    assert r.steps[1..] == ps.steps;
    forall k | 0 <= k < |ps.steps|
      ensures multiset(ps.steps[k].snapshot) == multiset(s)
    {
    }
    RearrangesCons(r.steps, multiset(s));
  }

  /** The scan `for j in range(i+1, len(arr))` keeping the first strictly
      smaller element: it finds the leftmost minimum of `arr[i:]`. */
  method MinIndex(a: array<int>, i: int) returns (minIdx: int)
    requires 0 <= i < a.Length
    ensures minIdx == LeftmostMin(a[..], i, a.Length)
  {
    minIdx := i;
    for j := i + 1 to a.Length
      invariant minIdx == LeftmostMin(a[..], i, j)
    {
      if a[j] < a[minIdx] {
        minIdx := j;
      }
    }
  }

  /** One pass, in place: `arr[i], arr[min_idx] = arr[min_idx], arr[i]`. */
  method SwapMinInPlace(a: array<int>, i: int) returns (minIdx: int)
    requires 0 <= i < a.Length
    modifies a
    ensures minIdx == LeftmostMin(old(a[..]), i, a.Length)
    ensures a[..] == Swap(old(a[..]), i, minIdx)
  {
    minIdx := MinIndex(a, i);
    a[i], a[minIdx] := a[minIdx], a[i];
  }

  /** Test.py's `selection_sort`: sorts `a` in place and returns its trace. */
  method SelectionSortMarked(a: array<int>) returns (steps: seq<Marked>)
    modifies a
    ensures a[..] == SwapSelectionRun(old(a[..])).state
    ensures steps == SwapSelectionRun(old(a[..])).steps
  {
    ghost var s0 := a[..];
    ghost var goal := SwapPasses(s0, 0);
    steps := [Marked(a[..], [])];
    for i := 0 to a.Length
      invariant SwapPasses(a[..], i).state == goal.state
      invariant steps + SwapPasses(a[..], i).steps == [Marked(s0, [])] + goal.steps
    {
      ghost var before := a[..];
      assert SwapPasses(before, i) == SwapThenPass(before, i);
      var minIdx := SwapMinInPlace(a, i);
      ghost var rest := SwapPasses(a[..], i + 1);
      assert SwapPasses(before, i) == MarkedRun(rest.state, [Marked(a[..], [i, minIdx])] + rest.steps);
      assert steps + [Marked(a[..], [i, minIdx])] + rest.steps == steps + ([Marked(a[..], [i, minIdx])] + rest.steps);
      steps := steps + [Marked(a[..], [i, minIdx])];
    }
  }

  /** code.py's `selection_sort`: the same passes, recording only the lists,
      so its trace is Test.py's with the marks dropped. */
  method SelectionSortPlain(a: array<int>) returns (steps: seq<seq<int>>)
    modifies a
    ensures a[..] == SwapSelectionRun(old(a[..])).state
    ensures steps == MarkedSnapshots(SwapSelectionRun(old(a[..])).steps)
  {
    ghost var s0 := a[..];
    ghost var goal := SwapPasses(s0, 0);
    ghost var marked := [Marked(a[..], [])];
    steps := [a[..]];
    for i := 0 to a.Length
      invariant steps == MarkedSnapshots(marked)
      invariant SwapPasses(a[..], i).state == goal.state
      invariant marked + SwapPasses(a[..], i).steps == [Marked(s0, [])] + goal.steps
    {
      ghost var before := a[..];
      assert SwapPasses(before, i) == SwapThenPass(before, i);
      var minIdx := SwapMinInPlace(a, i);
      ghost var step := Marked(a[..], [i, minIdx]);
      ghost var rest := SwapPasses(a[..], i + 1);
      assert SwapPasses(before, i) == MarkedRun(rest.state, [step] + rest.steps);
      assert marked + [step] + rest.steps == marked + ([step] + rest.steps);
      MarkedSnapshotsAppend(marked, [step]);
      marked := marked + [step];
      steps := steps + [a[..]];
    }
  }
}
