/** The insertion sort of Test.py and code.py: it sinks `arr[i]` into the
    sorted prefix by adjacent swaps, recording the list after each swap
    (Test.py also records the swapped pair, code.py only the list). */
module SwapInsertionSort {
  import opened SortSpec

  /** The loop `while j > 0 and arr[j-1] > arr[j]` entered at `j`. */
  function SinkLoop(s: seq<int>, j: int): (r: MarkedRun)
    requires 0 <= j < |s|
    ensures |r.state| == |s|
    decreases j, 1
  {
    if j > 0 && s[j - 1] > s[j] then SwapThenSink(s, j) else MarkedRun(s, [])
  }

  /** A round of that loop: swap `arr[j-1]` and `arr[j]`, move `j` left,
      record the list with `[j, j+1]` marked, and go on. */
  function SwapThenSink(s: seq<int>, j: int): (r: MarkedRun)
    requires 0 < j < |s|
    ensures |r.state| == |s|
    decreases j, 0
  {
    var t := Swap(s, j - 1, j);
    var rest := SinkLoop(t, j - 1);
    MarkedRun(rest.state, [Marked(t, [j - 1, j])] + rest.steps)
  }

  /** The passes `for i in range(1, len(arr))` from `i` on. */
  function SinkPasses(s: seq<int>, i: nat): (r: MarkedRun)
    requires 1 <= i
    ensures |r.state| == |s|
    decreases |s| - i
  {
    if i >= |s| then MarkedRun(s, [])
    else
      var p := SinkLoop(s, i);
      var rest := SinkPasses(p.state, i + 1);
      MarkedRun(rest.state, p.steps + rest.steps)
  }

  /** The whole run of Test.py's `insertion_sort`: the input with nothing
      marked, then the steps of every pass. */
  function SwapInsertionRun(s: seq<int>): (r: MarkedRun)
    ensures |r.steps| >= 1 && r.steps[0] == Marked(s, [])
    ensures |s| <= 1 ==> r == MarkedRun(s, [Marked(s, [])])
  {
    var ps := SinkPasses(s, 1);
    MarkedRun(ps.state, [Marked(s, [])] + ps.steps)
  }

  /** The pairs `p < q` with `s[p] > s[q]`, counted by their right end. */
  function Inversions(s: seq<int>): nat
  {
    if s == [] then 0
    else Inversions(s[..|s| - 1]) + CountGreater(s[..|s| - 1], s[|s| - 1])
  }

  /** Exchanging two neighbours before `c` does not change how many values
      exceed `c`. */
  lemma {:induction false} CountGreaterSwap(xs: seq<int>, k: int, c: int)
    requires 0 <= k && k + 1 < |xs|
    ensures CountGreater(Swap(xs, k, k + 1), c) == CountGreater(xs, c)
    decreases |xs|
  {
    var n, ys := |xs|, Swap(xs, k, k + 1);
    if k + 2 < n {
      assert ys[..n - 1] == Swap(xs[..n - 1], k, k + 1);
      CountGreaterSwap(xs[..n - 1], k, c);
    } else {
      assert ys[..n - 1][..n - 2] == xs[..n - 1][..n - 2];
    }
  }

  /** Swapping a strict inversion of neighbours removes exactly that one
      inversion. */
  lemma {:induction false} InversionsSwap(s: seq<int>, k: int)
    requires 0 <= k && k + 1 < |s| && s[k] > s[k + 1]
    ensures Inversions(Swap(s, k, k + 1)) + 1 == Inversions(s)
    decreases |s|
  {
    var n, t := |s|, Swap(s, k, k + 1);
    if k + 2 < n {
      assert t[..n - 1] == Swap(s[..n - 1], k, k + 1) && t[n - 1] == s[n - 1];
      InversionsSwap(s[..n - 1], k);
      CountGreaterSwap(s[..n - 1], k, s[n - 1]);
    } else {
      InversionsSwapLast(s, k);
    }
  }

  /** The case where the swapped pair ends the list. */
  lemma InversionsSwapLast(s: seq<int>, k: int)
    requires 0 <= k && k + 2 == |s| && s[k] > s[k + 1]
    ensures Inversions(Swap(s, k, k + 1)) + 1 == Inversions(s)
  {
    var before, t := s[..k], Swap(s, k, k + 1);
    var a, b := before + [s[k]], before + [s[k + 1]];
    assert s[..k + 1] == a && a[..k] == before && s[k + 1] == s[|s| - 1];
    assert t[..k + 1] == b && b[..k] == before && t[k + 1] == s[k];
    assert Inversions(a) == Inversions(before) + CountGreater(before, s[k]);
    assert Inversions(b) == Inversions(before) + CountGreater(before, s[k + 1]);
    assert CountGreater(a, s[k + 1]) == CountGreater(before, s[k + 1]) + 1;
    assert CountGreater(b, s[k]) == CountGreater(before, s[k]);
  }

  /** A sorted list has no inversions. */
  lemma {:induction false} SortedNoInversions(s: seq<int>)
    requires Sorted(s)
    ensures Inversions(s) == 0
    decreases |s|
  {
    if s != [] {
      var init := s[..|s| - 1];
      assert Sorted(init);
      SortedNoInversions(init);
      CountGreaterNone(init, s[|s| - 1]);
    }
  }

  /** `m` marks `[k, k+1]` for a strict inversion `prev[k] > prev[k+1]` and
      shows `prev` with that pair swapped. */
  predicate InversionSwapped(prev: seq<int>, m: Marked)
  {
    && |m.marked| == 2 && m.marked[1] == m.marked[0] + 1 && m.marked[1] < |prev|
    && prev[m.marked[0]] > prev[m.marked[1]]
    && m.snapshot == Swap(prev, m.marked[0], m.marked[1])
  }

  /** The list a trace started on `s` leaves. */
  function LastOf(steps: seq<Marked>, s: seq<int>): seq<int>
  {
    if steps == [] then s else steps[|steps| - 1].snapshot
  }

  /** Every step of the trace swaps one strict inversion of neighbours in
      the list the step before left (the first step: in `s`), and marks it. */
  predicate SwapsInversions(steps: seq<Marked>, s: seq<int>)
    decreases |steps|
  {
    steps == [] || (InversionSwapped(s, steps[0]) && SwapsInversions(steps[1..], steps[0].snapshot))
  }

  lemma SwapsInversionsCons(s: seq<int>, m: Marked, rest: seq<Marked>)
    requires InversionSwapped(s, m) && SwapsInversions(rest, m.snapshot)
    ensures SwapsInversions([m] + rest, s)
    ensures LastOf([m] + rest, s) == LastOf(rest, m.snapshot)
  {
    assert ([m] + rest)[1..] == rest;
  }

  lemma {:induction false} SwapsInversionsAppend(a: seq<Marked>, b: seq<Marked>, s: seq<int>)
    requires SwapsInversions(a, s) && SwapsInversions(b, LastOf(a, s))
    ensures SwapsInversions(a + b, s)
    ensures LastOf(a + b, s) == LastOf(b, LastOf(a, s))
    decreases |a|
  {
    if a == [] {
      assert a + b == b;
    } else {
      var m, rest := a[0], a[1..];
      assert LastOf(rest, m.snapshot) == LastOf(a, s);
      SwapsInversionsAppend(rest, b, m.snapshot);
      AppendSplits(a, b);
    }
  }

  /** The first step of `a + b` is that of `a`, and the others are the rest
      of `a` followed by `b`. */
  lemma AppendSplits(a: seq<Marked>, b: seq<Marked>)
    requires a != []
    ensures (a + b)[0] == a[0] && (a + b)[1..] == a[1..] + b
    ensures b != [] ==> LastOf(a + b, []) == LastOf(b, [])
    ensures b == [] ==> a + b == a
  {
  }

  /** Each step of a trace of inversion swaps removes one inversion: the
      trace is exactly as long as the inversions it removed. */
  lemma {:induction false} SwapsInversionsCount(steps: seq<Marked>, s: seq<int>)
    requires SwapsInversions(steps, s)
    ensures Inversions(LastOf(steps, s)) + |steps| == Inversions(s)
    decreases |steps|
  {
    if steps != [] {
      var m, rest := steps[0], steps[1..];
      var k, next := m.marked[0], m.snapshot;
      SwapsInversionsCount(rest, next);
      assert LastOf(rest, next) == LastOf(steps, s);
      InversionsSwap(s, k);
    }
  }

  /** Along a trace of inversion swaps every list, the last included, is a
      rearrangement of `s`. */
  lemma {:induction false} SwapsInversionsPermute(steps: seq<Marked>, s: seq<int>)
    requires SwapsInversions(steps, s)
    ensures multiset(LastOf(steps, s)) == multiset(s)
    ensures Rearranges(steps, multiset(s))
    decreases |steps|
  {
    if steps != [] {
      var m, rest := steps[0], steps[1..];
      var k, next := m.marked[0], m.snapshot;
      SwapsInversionsPermute(rest, next);
      assert LastOf(rest, next) == LastOf(steps, s);
      SwapPermutes(s, k, k + 1);
      RearrangesCons(steps, multiset(s));
    }
  }

  /** The sink loop entered at `j` in pass `i`: the list up to `i` is sorted
      apart from the sinking value at `j`, which is smaller than everything
      it has passed. */
  predicate SinkInv(s: seq<int>, j: int, i: int)
  {
    && 0 <= j <= i < |s|
    && (forall p, q :: 0 <= p < q <= i && p != j && q != j ==> s[p] <= s[q])
    && (forall q :: j < q <= i ==> s[j] < s[q])
  }

  /** The loop finishes pass `i` with `arr[0..i]` sorted and the rest of the
      list as it was. */
  lemma {:induction false} SinkLoopSorts(s: seq<int>, j: int, i: int)
    requires SinkInv(s, j, i)
    ensures var r := SinkLoop(s, j).state;
      SortedBetween(r, 0, i + 1) && SameOutside(s, r, 0, i + 1)
    decreases j
  {
    if j > 0 && s[j - 1] > s[j] {
      var t := Swap(s, j - 1, j);
      SinkStepKeeps(s, j, i);
      SinkLoopSorts(t, j - 1, i);
    } else {
      forall p, q | 0 <= p < q <= i
        ensures s[p] <= s[q]
      {
        if q == j && p < j - 1 {
          assert s[p] <= s[j - 1];
        }
      }
    }
  }

  lemma SinkStepKeeps(s: seq<int>, j: int, i: int)
    requires SinkInv(s, j, i) && 0 < j && s[j - 1] > s[j]
    ensures SinkInv(Swap(s, j - 1, j), j - 1, i)
  {
    var t := Swap(s, j - 1, j);
    forall p, q | 0 <= p < q <= i && p != j - 1 && q != j - 1
      ensures t[p] <= t[q]
    {
      if p == j {
        assert t[p] == s[j - 1];
      } else if q == j {
        assert t[q] == s[j - 1] && t[p] == s[p];
      }
    }
  }

  /** The loop's trace swaps inversions and ends on the list it leaves. */
  lemma {:induction false} SinkLoopTrace(s: seq<int>, j: int)
    requires 0 <= j < |s|
    ensures var r := SinkLoop(s, j);
      SwapsInversions(r.steps, s) && LastOf(r.steps, s) == r.state
    decreases j
  {
    if j > 0 && s[j - 1] > s[j] {
      var t := Swap(s, j - 1, j);
      var rest := SinkLoop(t, j - 1);
      SinkLoopTrace(t, j - 1);
      var m := Marked(t, [j - 1, j]);
      assert InversionSwapped(s, m);
      SwapsInversionsCons(s, m, rest.steps);
    }
  }

  /** The passes from `i` on, starting from a list sorted up to `i`, sort
      it; their trace swaps inversions and ends on the sorted list. */
  lemma {:induction false} SinkPassesSort(s: seq<int>, i: nat)
    requires 1 <= i
    requires i <= |s| || s == []
    requires i <= |s| ==> SortedBetween(s, 0, i)
    ensures var r := SinkPasses(s, i);
      && Sorted(r.state)
      && SwapsInversions(r.steps, s) && LastOf(r.steps, s) == r.state
    decreases |s| - i
  {
    if i < |s| {
      var p := SinkLoop(s, i);
      SinkLoopSorts(s, i, i);
      SinkLoopTrace(s, i);
      SinkPassesSort(p.state, i + 1);
      var rest := SinkPasses(p.state, i + 1);
      SwapsInversionsAppend(p.steps, rest.steps, s);
    } else if i == |s| {
      assert Sorted(s);
    }
  }

  /** Test.py's `insertion_sort`: the result is the ascending rearrangement
      of the input; after the unmarked first step every step swaps one
      strict inversion of neighbours and marks it, so every list is a
      rearrangement of the input and there are exactly
      `1 + Inversions(input)` steps. */
  lemma SwapInsertionSorts(s: seq<int>)
    ensures var r := SwapInsertionRun(s);
      && Sorted(r.state) && multiset(r.state) == multiset(s)
      && SwapsInversions(r.steps[1..], s)
      && |r.steps| == 1 + Inversions(s)
      && Rearranges(r.steps, multiset(s))
  {
    var r := SwapInsertionRun(s);
    var ps := SinkPasses(s, 1);
    SinkPassesSort(s, 1);
    SwapsInversionsCount(ps.steps, s);
    SwapsInversionsPermute(ps.steps, s);
    SortedNoInversions(ps.state);
    assert r.steps[1..] == ps.steps;
    RearrangesCons(r.steps, multiset(s));
  }

  /** Test.py's `insertion_sort`: sorts `a` in place and returns its trace. */
  method InsertionSortMarked(a: array<int>) returns (steps: seq<Marked>)
    modifies a
    ensures a[..] == SwapInsertionRun(old(a[..])).state
    ensures steps == SwapInsertionRun(old(a[..])).steps
  {
    ghost var s0 := a[..];
    ghost var goal := SinkPasses(s0, 1);
    steps := [Marked(a[..], [])];
    var i := 1;
    while i < a.Length
      invariant 1 <= i
      invariant SinkPasses(a[..], i).state == goal.state
      invariant steps + SinkPasses(a[..], i).steps == [Marked(s0, [])] + goal.steps
      decreases a.Length - i
    {
      ghost var before := a[..];
      var pass := SinkInPlace(a, i);
      ghost var rest := SinkPasses(a[..], i + 1);
      assert SinkPasses(before, i) == MarkedRun(rest.state, pass + rest.steps);
      assert steps + pass + rest.steps == steps + (pass + rest.steps);
      steps := steps + pass;
      i := i + 1;
    }
  }

  /** One pass of Test.py's `insertion_sort`, in place, returning the steps
      it appends. */
  method SinkInPlace(a: array<int>, i: int) returns (steps: seq<Marked>)
    requires 0 <= i < a.Length
    modifies a
    ensures SinkLoop(old(a[..]), i) == MarkedRun(a[..], steps)
  {
    ghost var goal := SinkLoop(a[..], i);
    var j := i;
    steps := [];
    while j > 0 && a[j - 1] > a[j]
      invariant 0 <= j <= i
      invariant var rest := SinkLoop(a[..], j);
        rest.state == goal.state && steps + rest.steps == goal.steps
      decreases j
    {
      ghost var before := a[..];
      assert SinkLoop(before, j) == SwapThenSink(before, j);
      var step := SwapDown(a, j);
      ghost var rest := SinkLoop(a[..], j - 1);
      assert steps + [step] + rest.steps == steps + ([step] + rest.steps);
      steps := steps + [step];
      j := j - 1;
    }
    assert SinkLoop(a[..], j) == MarkedRun(a[..], []);
  }

  /** One round of that loop: `arr[j], arr[j-1] = arr[j-1], arr[j]`, then the
      recorded step with `[j-1, j]` marked. */
  method SwapDown(a: array<int>, j: int) returns (step: Marked)
    requires 0 < j < a.Length
    modifies a
    ensures a[..] == Swap(old(a[..]), j - 1, j)
    ensures step == Marked(a[..], [j - 1, j])
  {
    a[j], a[j - 1] := a[j - 1], a[j];
    step := Marked(a[..], [j - 1, j]);
  }

  /** code.py's `insertion_sort`: the same passes over `a`, recording only
      the lists, so its trace is Test.py's with the marks dropped. */
  method InsertionSortPlain(a: array<int>) returns (steps: seq<seq<int>>)
    modifies a
    ensures a[..] == SwapInsertionRun(old(a[..])).state
    ensures steps == MarkedSnapshots(SwapInsertionRun(old(a[..])).steps)
  {
    ghost var s0 := a[..];
    ghost var goal := SinkPasses(s0, 1);
    ghost var marked := [Marked(a[..], [])];
    steps := [a[..]];
    var i := 1;
    while i < a.Length
      invariant 1 <= i
      invariant steps == MarkedSnapshots(marked)
      invariant SinkPasses(a[..], i).state == goal.state
      invariant marked + SinkPasses(a[..], i).steps == [Marked(s0, [])] + goal.steps
      decreases a.Length - i
    {
      ghost var before := a[..];
      var pass := SinkInPlace(a, i);
      ghost var rest := SinkPasses(a[..], i + 1);
      assert SinkPasses(before, i) == MarkedRun(rest.state, pass + rest.steps);
      assert marked + pass + rest.steps == marked + (pass + rest.steps);
      MarkedSnapshotsAppend(marked, pass);
      marked := marked + pass;
      steps := steps + MarkedSnapshots(pass);
      i := i + 1;
    }
  }
}
