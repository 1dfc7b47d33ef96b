/** The annotated selection sort of selection_sort.py (lines 1-18). */
module SelectionSort {
  import opened SortSpec

  /** What the inner scan leaves behind: the final `min_index` and the steps. */
  datatype Scan = Scan(minIndex: int, steps: seq<Step>)

  /** The loop `for j in range(j, len(l))` entered with `min_index == m`: each
      round records `comparing=[j, min_index]` with `min_index` as it was
      before `j` is looked at, then moves `min_index` to `j` when
      `l[j] < l[min_index]`. */
  function MinScan(s: seq<int>, j: int, m: int): (r: Scan)
    requires 0 <= m < j <= |s|
    ensures m <= r.minIndex < |s|
    decreases |s| - j
  {
    if j == |s| then Scan(m, [])
    else
      var rest := MinScan(s, j + 1, if s[j] < s[m] then j else m);
      Scan(rest.minIndex, [Step(s, [j, m], [])] + rest.steps)
  }

  /** Pass `i`: record `comparing=[i]`, scan, and only when the minimum is
      elsewhere swap it into place and record `swapped=[i, min_index]`. */
  function SelectPass(s: seq<int>, i: int): (r: Run)
    requires 0 <= i && i + 1 < |s|
    ensures |r.state| == |s|
  {
    var sc := MinScan(s, i + 1, i);
    var m := sc.minIndex;
    var head := [Step(s, [i], [])] + sc.steps;
    if m != i then
      var t := Swap(s, i, m);
      Run(t, head + [Step(t, [], [i, m])])
    else
      Run(s, head)
  }

  /** Passes `i`, ..., `|s| - 2`. */
  function SelectPasses(s: seq<int>, i: nat): (r: Run)
    ensures |r.state| == |s|
    decreases |s| - i
  {
    if i + 1 >= |s| then Run(s, [])
    else
      var p := SelectPass(s, i);
      var rest := SelectPasses(p.state, i + 1);
      Run(rest.state, p.steps + rest.steps)
  }

  /** The whole run of `selection_sort`: the passes run for `i` in
      `0..len-2`, so a list of length at most one records only the initial
      step. */
  function SelectionSortRun(s: seq<int>): (r: Run)
    ensures |r.steps| >= 1 && r.steps[0] == Initial(s)
    ensures |s| <= 1 ==> r == Run(s, [Initial(s)])
  {
    var ps := SelectPasses(s, 0);
    Run(ps.state, [Initial(s)] + ps.steps)
  }

  /** Round `k` of a scan started at `j` over a range beginning at `lo`
      compares `j + k` against the leftmost minimum of `s[lo..j+k)`, the
      `min_index` of that moment, and leaves the list as it is. */
  predicate ScanRounds(steps: seq<Step>, s: seq<int>, lo: int, j: int)
    requires 0 <= lo < j
    requires j + |steps| <= |s|
  {
    forall k :: 0 <= k < |steps| ==>
      steps[k] == Step(s, [j + k, LeftmostMin(s, lo, j + k)], [])
  }

  /** Scanning from `j` with the leftmost minimum of `s[lo..j)` in hand ends
      with the leftmost minimum of `s[lo..]`: the strict `<` keeps the first
      of equal minima. */
  lemma {:induction false} MinScanFinds(s: seq<int>, lo: int, j: int)
    requires 0 <= lo < j <= |s|
    ensures MinScan(s, j, LeftmostMin(s, lo, j)).minIndex == LeftmostMin(s, lo, |s|)
    decreases |s| - j
  {
    if j < |s| {
      var m := LeftmostMin(s, lo, j);
      assert LeftmostMin(s, lo, j + 1) == if s[j] < s[m] then j else m;
      MinScanFinds(s, lo, j + 1);
    }
  }

  /** The scan records one round per remaining index, as `ScanRounds` says. */
  lemma {:induction false} MinScanRounds(s: seq<int>, lo: int, j: int)
    requires 0 <= lo < j <= |s|
    ensures var r := MinScan(s, j, LeftmostMin(s, lo, j));
      |r.steps| == |s| - j && ScanRounds(r.steps, s, lo, j)
    decreases |s| - j
  {
    if j < |s| {
      var m := LeftmostMin(s, lo, j);
      assert LeftmostMin(s, lo, j + 1) == if s[j] < s[m] then j else m;
      MinScanRounds(s, lo, j + 1);
      var rest := MinScan(s, j + 1, LeftmostMin(s, lo, j + 1));
      ScanRoundsCons(Step(s, [j, m], []), rest.steps, s, lo, j);
    }
  }

  /** A round for `j` followed by the rounds from `j + 1` are the rounds from `j`. */
  lemma ScanRoundsCons(first: Step, rest: seq<Step>, s: seq<int>, lo: int, j: int)
    requires 0 <= lo < j && j + 1 + |rest| <= |s|
    requires first == Step(s, [j, LeftmostMin(s, lo, j)], [])
    requires ScanRounds(rest, s, lo, j + 1)
    ensures ScanRounds([first] + rest, s, lo, j)
  {
    var all := [first] + rest;
    forall k | 0 <= k < |all|
      ensures all[k] == Step(s, [j + k, LeftmostMin(s, lo, j + k)], [])
    {
      if k > 0 {
        assert all[k] == rest[k - 1];
      }
    }
  }

  /** Pass `i` leaves the leftmost minimum of `s[i..]` at `i`, swapping only
      when it is elsewhere; a pass that finds the minimum in place leaves the
      list as it was. */
  lemma SelectPassState(s: seq<int>, i: int)
    requires 0 <= i && i + 1 < |s|
    ensures SelectPass(s, i).state == Swap(s, i, LeftmostMin(s, i, |s|))
    ensures LeftmostMin(s, i, |s|) == i ==> SelectPass(s, i).state == s
  {
    assert LeftmostMin(s, i, i + 1) == i;
    MinScanFinds(s, i, i + 1);
    assert Swap(s, i, i) == s;
  }

  /** The steps of pass `i`: `comparing=[i]`, then one `comparing=[j, m]` per
      `j` in `i+1..len-1` with `m` the `min_index` before `j` is compared;
      then, exactly when the minimum is not already at `i`, one
      `swapped=[i, min_index]` step showing the list after the swap. */
  lemma SelectPassSteps(s: seq<int>, i: int)
    requires 0 <= i && i + 1 < |s|
    ensures var r, m := SelectPass(s, i), LeftmostMin(s, i, |s|);
      && |r.steps| == |s| - i + (if m != i then 1 else 0)
      && r.steps[0] == Step(s, [i], [])
      && ScanRounds(r.steps[1..|s| - i], s, i, i + 1)
      && (m != i ==> r.steps[|s| - i] == Step(r.state, [], [i, m]))
  {
    assert LeftmostMin(s, i, i + 1) == i;
    MinScanFinds(s, i, i + 1);
    MinScanRounds(s, i, i + 1);
    var sc := MinScan(s, i + 1, i);
    var r := SelectPass(s, i);
    assert r.steps[1..|s| - i] == sc.steps;
  }

  /** The passes from `i` on, starting from a list whose first `i` places
      hold its `i` smallest values in order, sort it; every snapshot they
      record is a rearrangement of it. */
  lemma {:induction false} SelectPassesSort(s: seq<int>, i: nat)
    requires i <= |s| && Partitioned(s, i)
    ensures var r := SelectPasses(s, i);
      && Sorted(r.state) && multiset(r.state) == multiset(s)
      && AllPermutations(r.steps, s)
    decreases |s| - i
  {
    if i + 1 < |s| {
      SelectPassExtends(s, i);
      var p := SelectPass(s, i);
      SelectPassesSort(p.state, i + 1);
      var rest := SelectPasses(p.state, i + 1);
      AllPermutationsAppend(p.steps, rest.steps, s);
    } else {
      PartitionedSorted(s, i);
    }
  }

  /** Pass `i` extends the ordered prefix of smallest values by one place and
      only rearranges the list. */
  lemma SelectPassExtends(s: seq<int>, i: int)
    requires 0 <= i && i + 1 < |s| && Partitioned(s, i)
    ensures var p := SelectPass(s, i);
      && Partitioned(p.state, i + 1)
      && multiset(p.state) == multiset(s)
      && AllPermutations(p.steps, s)
  {
    SelectPassState(s, i);
    SwapPermutes(s, i, LeftmostMin(s, i, |s|));
    SwapMinExtends(s, i);
    SelectPassSnapshots(s, i);
  }

  /** Every snapshot of pass `i` is `s` itself or `s` with the minimum
      swapped in. */
  lemma SelectPassSnapshots(s: seq<int>, i: int)
    requires 0 <= i && i + 1 < |s|
    ensures AllPermutations(SelectPass(s, i).steps, s)
  {
    SelectPassState(s, i);
    SelectPassSteps(s, i);
    SwapPermutes(s, i, LeftmostMin(s, i, |s|));
    var r := SelectPass(s, i);
    var scan := r.steps[1..|s| - i];
    forall k | 0 <= k < |r.steps|
      ensures multiset(r.steps[k].snapshot) == multiset(s)
    {
      if 0 < k < |s| - i {
        assert r.steps[k] == scan[k - 1];
      }
    }
  }

  /** selection_sort: the result is the ascending rearrangement of the
      input, and every recorded snapshot is a rearrangement of the input. */
  lemma SelectionSortSorts(s: seq<int>)
    ensures var r := SelectionSortRun(s);
      && Sorted(r.state) && multiset(r.state) == multiset(s)
      && AllPermutations(r.steps, s)
  {
    SelectPassesSort(s, 0);
    var r := SelectionSortRun(s);
    assert r.steps == [Initial(s)] + SelectPasses(s, 0).steps;
  }

  /** selection_sort.py: sorts `a` in place and returns its trace. */
  method SelectionSort(a: array<int>) returns (steps: seq<Step>)
    modifies a
    ensures a[..] == SelectionSortRun(old(a[..])).state
    ensures steps == SelectionSortRun(old(a[..])).steps
    ensures Sorted(a[..]) && multiset(a[..]) == multiset(old(a[..]))
    ensures AllPermutations(steps, old(a[..]))
  {
    ghost var s0 := a[..];
    ghost var goal := SelectPasses(s0, 0);
    steps := [Step(a[..], [], [])];
    var i := 0;
    while i < a.Length - 1
      invariant 0 <= i
      invariant SelectPasses(a[..], i).state == goal.state
      invariant steps + SelectPasses(a[..], i).steps == [Initial(s0)] + goal.steps
      decreases a.Length - i
    {
      var pass := SelectPassInPlace(a, i);
      steps := steps + pass;
      i := i + 1;
    }
    SelectionSortSorts(s0);
  }

  /** One iteration of the outer loop of selection_sort.py, in place,
      returning the steps it appends. */
  method SelectPassInPlace(a: array<int>, i: int) returns (steps: seq<Step>)
    requires 0 <= i && i + 1 < a.Length
    modifies a
    ensures a[..] == SelectPass(old(a[..]), i).state
    ensures steps == SelectPass(old(a[..]), i).steps
  {
    ghost var sc := MinScan(a[..], i + 1, i);
    var minIndex := i;
    steps := [Step(a[..], [i], [])];
    for j := i + 1 to a.Length
      invariant i <= minIndex < j
      invariant MinScan(a[..], j, minIndex).minIndex == sc.minIndex
      invariant steps + MinScan(a[..], j, minIndex).steps == [Step(a[..], [i], [])] + sc.steps
    {
      steps := steps + [Step(a[..], [j, minIndex], [])];
      if a[j] < a[minIndex] {
        minIndex := j;
      }
    }
    if minIndex != i {
      a[i], a[minIndex] := a[minIndex], a[i];
      steps := steps + [Step(a[..], [], [i, minIndex])];
    }
  }
}
