/** The annotated, shift-based insertion sort of insertion_sort.py. */
module InsertionSort {
  import opened SortSpec

  /** What the shift loop leaves behind: the list, the final `j` (the hole is
      at `j + 1`), and the steps the loop appended. */
  datatype Shift = Shift(state: seq<int>, j: int, steps: seq<Step>)

  /** The loop `while j >= 0 and l[j] > current` entered at `j`. */
  function ShiftLoop(s: seq<int>, current: int, j: int): (r: Shift)
    requires -1 <= j < |s| - 1
    ensures |r.state| == |s| && -1 <= r.j <= j
    decreases j + 1, 1
  {
    if j >= 0 && s[j] > current then ShiftThenLoop(s, current, j) else Shift(s, j, [])
  }

  /** A round of that loop: record the comparison, copy `l[j]` one place
      right, record the write, and go on with `j - 1`. */
  function ShiftThenLoop(s: seq<int>, current: int, j: int): (r: Shift)
    requires 0 <= j < |s| - 1
    ensures |r.state| == |s| && -1 <= r.j <= j
    decreases j + 1, 0
  {
    var s' := s[j + 1 := s[j]];
    var rest := ShiftLoop(s', current, j - 1);
    Shift(rest.state, rest.j, [Step(s, [j, j + 1], []), Step(s', [], [j, j + 1])] + rest.steps)
  }

  /** Pass `i` of the outer loop: record `comparing=[i]`, shift, put `current`
      into the hole and record `swapped=[j+1]`. */
  function InsertPass(s: seq<int>, i: nat): (r: Run)
    requires 1 <= i < |s|
    ensures |r.state| == |s|
  {
    var sh := ShiftLoop(s, s[i], i - 1);
    var placed := sh.state[sh.j + 1 := s[i]];
    Run(placed, [Step(s, [i], [])] + sh.steps + [Step(placed, [], [sh.j + 1])])
  }

  /** Passes `i`, `i + 1`, ..., `|s| - 1`. */
  function InsertPasses(s: seq<int>, i: nat): (r: Run)
    requires 1 <= i
    ensures |r.state| == |s|
    decreases |s| - i
  {
    if i >= |s| then Run(s, [])
    else
      var p := InsertPass(s, i);
      var rest := InsertPasses(p.state, i + 1);
      Run(rest.state, p.steps + rest.steps)
  }

  /** The whole run: the sorted list and the trace `insertion_sort` returns.
      The trace opens with the untouched input and no annotations, and a list
      of length at most one records nothing else. */
  function InsertionSortRun(s: seq<int>): (r: Run)
    ensures |r.steps| >= 1 && r.steps[0] == Initial(s)
    ensures |s| <= 1 ==> r == Run(s, [Initial(s)])
  {
    var ps := InsertPasses(s, 1);
    Run(ps.state, [Initial(s)] + ps.steps)
  }

  /** `t` is `s` with the block `s[lo..hi)` copied one place right: `t[lo]`
      still holds `s[lo]` and the old `s[hi]` is overwritten. */
  predicate CopiedRight(s: seq<int>, t: seq<int>, lo: int, hi: int)
  {
    && |t| == |s| && 0 <= lo <= hi < |s|
    && (forall k {:trigger t[k]} :: 0 <= k < |s| && !(lo < k <= hi) ==> t[k] == s[k])
    && (forall k {:trigger t[k]} :: lo < k <= hi ==> t[k] == s[k - 1])
  }

  /** The shift loop entered at `j = top - 1` stops at the first
      `l[j] <= current` (strict `>`), every element it passes over is larger
      than `current`, and `j` never goes below -1. */
  lemma {:induction false} ShiftStops(s: seq<int>, current: int, top: int)
    requires 0 <= top < |s|
    ensures var r := ShiftLoop(s, current, top - 1);
      && (r.j == -1 || s[r.j] <= current)
      && (forall k :: r.j < k < top ==> s[k] > current)
    decreases top
  {
    var j := top - 1;
    if j >= 0 && s[j] > current {
      var s' := s[j + 1 := s[j]];
      ShiftStops(s', current, j);
      assert forall k :: 0 <= k < j ==> s'[k] == s[k];
    }
  }

  /** The shift loop copies exactly the block it passed over one place right. */
  lemma {:induction false} ShiftMoves(s: seq<int>, current: int, top: int)
    requires 0 <= top < |s|
    ensures var r := ShiftLoop(s, current, top - 1);
      CopiedRight(s, r.state, r.j + 1, top)
    decreases top
  {
    var j := top - 1;
    if j >= 0 && s[j] > current {
      var s' := s[j + 1 := s[j]];
      ShiftMoves(s', current, j);
      var rest := ShiftLoop(s', current, j - 1);
      assert CopiedRight(s', rest.state, rest.j + 1, j);
      assert forall k :: 0 <= k < |s| && k != top ==> s'[k] == s[k];
    }
  }

  /** Each round of the shift loop records a comparison of `[j, j+1]`
      followed by a write of `[j, j+1]`, whose snapshot then holds the moved
      value twice; so the loop records two steps per shift. */
  lemma {:induction false} ShiftSteps(s: seq<int>, current: int, top: int)
    requires 0 <= top < |s|
    ensures var r := ShiftLoop(s, current, top - 1);
      && |r.steps| == 2 * (top - 1 - r.j)
      && (forall t :: 0 <= t < top - 1 - r.j ==> ShiftRound(r.steps, 0, t, top))
    decreases top
  {
    var j := top - 1;
    if j >= 0 && s[j] > current {
      var s' := s[j + 1 := s[j]];
      ShiftSteps(s', current, j);
      var rest := ShiftLoop(s', current, j - 1);
      var r := ShiftLoop(s, current, j);
      assert r == ShiftThenLoop(s, current, j);
      assert r.steps == [Step(s, [j, j + 1], []), Step(s', [], [j, j + 1])] + rest.steps;
      forall t | 0 <= t < top - 1 - r.j
        ensures ShiftRound(r.steps, 0, t, top)
      {
        if t > 0 {
          assert ShiftRound(rest.steps, 0, t - 1, j);
          assert r.steps[2 * t] == rest.steps[2 * (t - 1)];
          assert r.steps[2 * t + 1] == rest.steps[2 * (t - 1) + 1];
        }
      }
    }
  }

  /** Round `t` of a shift loop that moves a value left from `top`, whose
      steps start at `steps[from]`, works on `x = top - 1 - t`: a
      `comparing=[x, x+1]` step, then a `swapped=[x, x+1]` step whose snapshot
      holds the same value at `x` and `x + 1`. */
  predicate ShiftRound(steps: seq<Step>, from: nat, t: nat, top: int)
  {
    var x, c, w := top - 1 - t, from + 2 * t, from + 2 * t + 1;
    && w < |steps| && 0 <= x
    && steps[c].comparing == [x, x + 1] && steps[c].swapped == []
    && steps[w].comparing == [] && steps[w].swapped == [x, x + 1]
    && x + 1 < |steps[w].snapshot|
    && steps[w].snapshot[x] == steps[w].snapshot[x + 1]
  }

  /** On a sorted prefix the loop shifts exactly the prefix elements greater
      than `current`. */
  lemma {:induction false} ShiftCount(s: seq<int>, current: int, j: int)
    requires -1 <= j < |s| - 1
    requires SortedBetween(s, 0, j + 1)
    ensures |ShiftLoop(s, current, j).steps| == 2 * CountGreater(s[..j + 1], current)
    decreases j + 1
  {
    if j >= 0 && s[j] > current {
      var s' := s[j + 1 := s[j]];
      assert s'[..j] == s[..j];
      assert s[..j + 1][..j] == s[..j];
      ShiftCount(s', current, j - 1);
    } else {
      assert Sorted(s[..j + 1]);
      CountGreaterNone(s[..j + 1], current);
    }
  }

  /** The list pass `i` leaves: the prefix up to the stop position `h`
      unchanged, then `current`, then the passed-over block moved one place
      right, then the rest unchanged. */
  lemma InsertPassLayout(s: seq<int>, i: nat)
    requires 1 <= i < |s|
    ensures var h, r := ShiftLoop(s, s[i], i - 1).j, InsertPass(s, i).state;
      && -1 <= h < i
      && r[..h + 1] == s[..h + 1]
      && r[h + 1] == s[i]
      && r[h + 2..i + 1] == s[h + 1..i]
      && r[i + 1..] == s[i + 1..]
  {
    var sh := ShiftLoop(s, s[i], i - 1);
    ShiftMoves(s, s[i], i);
    var h := sh.j;
    var r := InsertPass(s, i).state;
    assert r == sh.state[h + 1 := s[i]];
    assert r[..h + 1] == s[..h + 1];
    assert r[h + 2..i + 1] == s[h + 1..i];
    assert r[i + 1..] == s[i + 1..];
  }

  /** After pass `i` on a list whose prefix `l[0..i-1]` is sorted, `l[0..i]` is
      a sorted rearrangement of the old `l[0..i]`, `l[i+1..]` is unchanged, and
      so the placement step restores the multiset of the whole list. */
  lemma InsertPassSorts(s: seq<int>, i: nat)
    requires 1 <= i < |s|
    requires SortedBetween(s, 0, i)
    ensures var r := InsertPass(s, i);
      && SortedBetween(r.state, 0, i + 1)
      && multiset(r.state[..i + 1]) == multiset(s[..i + 1])
      && r.state[i + 1..] == s[i + 1..]
      && multiset(r.state) == multiset(s)
  {
    InsertPassOrders(s, i);
    InsertPassPermutes(s, i);
  }

  lemma InsertPassPermutes(s: seq<int>, i: nat)
    requires 1 <= i < |s|
    ensures var r := InsertPass(s, i);
      && multiset(r.state[..i + 1]) == multiset(s[..i + 1])
      && r.state[i + 1..] == s[i + 1..]
      && multiset(r.state) == multiset(s)
  {
    InsertPassLayout(s, i);
    var h := ShiftLoop(s, s[i], i - 1).j;
    RotatedPermutes(s, InsertPass(s, i).state, h + 1, i);
  }

  /** Moving `s[i]` left to position `lo` and the block `s[lo..i)` one
      place right rearranges `s[..i + 1]` and keeps the rest. */
  lemma RotatedPermutes(s: seq<int>, r: seq<int>, lo: int, i: int)
    requires 0 <= lo <= i < |s| && |r| == |s|
    requires r[..lo] == s[..lo] && r[lo] == s[i]
    requires r[lo + 1..i + 1] == s[lo..i] && r[i + 1..] == s[i + 1..]
    ensures multiset(r[..i + 1]) == multiset(s[..i + 1])
    ensures multiset(r) == multiset(s)
  {
    RotatedPrefix(s, r, lo, i);
    PrefixRearranged(s, r, i + 1);
  }

  lemma RotatedPrefix(s: seq<int>, r: seq<int>, lo: int, i: int)
    requires 0 <= lo <= i < |s| && |r| == |s|
    requires r[..lo] == s[..lo] && r[lo] == s[i] && r[lo + 1..i + 1] == s[lo..i]
    ensures multiset(r[..i + 1]) == multiset(s[..i + 1])
  {
    assert r[..i + 1] == r[..lo] + [r[lo]] + r[lo + 1..i + 1];
    assert s[..i + 1] == s[..lo] + s[lo..i] + [s[i]];
  }

  /** Rearranging a prefix and keeping the rest rearranges the list. */
  lemma PrefixRearranged(s: seq<int>, r: seq<int>, n: int)
    requires 0 <= n <= |s| && |r| == |s|
    requires multiset(r[..n]) == multiset(s[..n]) && r[n..] == s[n..]
    ensures multiset(r) == multiset(s)
  {
    assert r == r[..n] + r[n..];
    assert s == s[..n] + s[n..];
  }

  /** Pass `i` on a list whose prefix `l[0..i-1]` is sorted leaves
      `l[0..i]` sorted. */
  lemma InsertPassOrders(s: seq<int>, i: nat)
    requires 1 <= i < |s|
    requires SortedBetween(s, 0, i)
    ensures SortedBetween(InsertPass(s, i).state, 0, i + 1)
  {
    var current := s[i];
    var sh := ShiftLoop(s, current, i - 1);
    ShiftStops(s, current, i);
    ShiftMoves(s, current, i);
    InsertedSorted(s, sh.state, sh.j, i, current);
  }

  /** Putting `c` into the hole at `h + 1` left by shifting the block
      `s[h+1..i)` of larger values one place right keeps `[0, i]` sorted,
      when `s[h]` (if any) is at most `c`. */
  lemma InsertedSorted(s: seq<int>, t: seq<int>, h: int, i: int, c: int)
    requires 0 <= i < |s| && -1 <= h < i
    requires CopiedRight(s, t, h + 1, i) && SortedBetween(s, 0, i)
    requires h == -1 || s[h] <= c
    requires forall k :: h < k < i ==> s[k] > c
    ensures SortedBetween(t[h + 1 := c], 0, i + 1)
  {
    var r := t[h + 1 := c];
    assert forall k :: 0 <= k <= h ==> r[k] == s[k];
    assert forall k :: h + 1 < k <= i ==> r[k] == s[k - 1];
    forall p, q | 0 <= p < q < i + 1
      ensures r[p] <= r[q]
    {
      if q <= h {
      } else if q == h + 1 {
        assert r[p] == s[p] <= s[h];
      } else if p <= h {
        assert r[p] == s[p] <= s[h];
        assert r[q] == s[q - 1];
      } else if p > h + 1 {
        assert r[p] == s[p - 1] && r[q] == s[q - 1];
      }
    }
  }

  /** The steps of pass `i`: `comparing=[i]` on the unchanged list first, then
      one compare/write round per shift, then `swapped=[j+1]` on the list with
      `current` in place; on a sorted prefix this is exactly `2 + 2 * g` steps,
      `g` the number of prefix elements greater than `current`. */
  lemma InsertPassSteps(s: seq<int>, i: nat)
    requires 1 <= i < |s|
    requires SortedBetween(s, 0, i)
    ensures var r := InsertPass(s, i);
      var g := CountGreater(s[..i], s[i]);
      && |r.steps| == 2 + 2 * g
      && r.steps[0] == Step(s, [i], [])
      && (forall t :: 0 <= t < g ==> ShiftRound(r.steps, 1, t, i))
      && g <= i
      && r.steps[|r.steps| - 1] == Step(r.state, [], [i - g])
      && multiset(r.steps[|r.steps| - 1].snapshot) == multiset(s)
  {
    var sh := ShiftLoop(s, s[i], i - 1);
    ShiftSteps(s, s[i], i);
    ShiftCount(s, s[i], i - 1);
    InsertPassSorts(s, i);
    var r := InsertPass(s, i);
    assert r.steps == [Step(s, [i], [])] + sh.steps + [Step(r.state, [], [sh.j + 1])];
    forall t | 0 <= t < CountGreater(s[..i], s[i])
      ensures ShiftRound(r.steps, 1, t, i)
    {
      assert ShiftRound(sh.steps, 0, t, i);
      assert r.steps[1 + 2 * t] == sh.steps[2 * t];
      assert r.steps[1 + 2 * t + 1] == sh.steps[2 * t + 1];
    }
  }

  /** Running the remaining passes from a list whose first `i` elements are
      sorted yields a sorted rearrangement of it. */
  lemma {:induction false} InsertPassesSort(s: seq<int>, i: nat)
    requires 1 <= i
    requires i <= |s| || s == []
    requires i <= |s| ==> SortedBetween(s, 0, i)
    ensures Sorted(InsertPasses(s, i).state)
    ensures multiset(InsertPasses(s, i).state) == multiset(s)
    decreases |s| - i
  {
    if i < |s| {
      InsertPassSorts(s, i);
      var p := InsertPass(s, i);
      InsertPassesSort(p.state, i + 1);
    } else if i == |s| {
      assert Sorted(s);
    }
  }

  /** insertion_sort: the result is the ascending rearrangement of the input. */
  lemma InsertionSortSorts(s: seq<int>)
    ensures Sorted(InsertionSortRun(s).state)
    ensures multiset(InsertionSortRun(s).state) == multiset(s)
  {
    InsertPassesSort(s, 1);
  }

  /** insertion_sort.py: sorts `a` in place and returns its trace. */
  method InsertionSort(a: array<int>) returns (steps: seq<Step>)
    modifies a
    ensures a[..] == InsertionSortRun(old(a[..])).state
    ensures steps == InsertionSortRun(old(a[..])).steps
    ensures Sorted(a[..]) && multiset(a[..]) == multiset(old(a[..]))
  {
    ghost var s0 := a[..];
    ghost var goal := InsertPasses(s0, 1);
    steps := [Step(a[..], [], [])];
    var i := 1;
    while i < a.Length
      invariant 1 <= i
      invariant InsertPasses(a[..], i).state == goal.state
      invariant steps + InsertPasses(a[..], i).steps == [Initial(s0)] + goal.steps
      decreases a.Length - i
    {
      var pass := InsertPassInPlace(a, i);
      steps := steps + pass;
      i := i + 1;
    }
    InsertionSortSorts(s0);
  }

  /** One iteration of the outer loop of insertion_sort.py: the shift loop
      and the placement of `current`, in place, returning the steps it
      appends. */
  method InsertPassInPlace(a: array<int>, i: nat) returns (steps: seq<Step>)
    requires 1 <= i < a.Length
    modifies a
    ensures a[..] == InsertPass(old(a[..]), i).state
    ensures steps == InsertPass(old(a[..]), i).steps
  {
    var current := a[i];
    steps := [Step(a[..], [i], [])];
    var j, shifts := ShiftInPlace(a, current, i - 1);
    steps := steps + shifts;
    a[j + 1] := current;
    steps := steps + [Step(a[..], [], [j + 1])];
  }

  /** The loop `while j >= 0 and l[j] > current` of insertion_sort.py, in
      place, returning the final `j` and the steps it appends. */
  method ShiftInPlace(a: array<int>, current: int, j0: int) returns (j: int, steps: seq<Step>)
    requires -1 <= j0 < a.Length - 1
    modifies a
    ensures ShiftLoop(old(a[..]), current, j0) == Shift(a[..], j, steps)
  {
    ghost var goal := ShiftLoop(a[..], current, j0);
    j := j0;
    steps := [];
    while j >= 0 && a[j] > current
      invariant -1 <= j <= j0
      invariant var rest := ShiftLoop(a[..], current, j);
        rest.state == goal.state && rest.j == goal.j && steps + rest.steps == goal.steps
      decreases j
    {
      ghost var before := a[..];
      var more := ShiftOne(a, j);
      ghost var rest := ShiftLoop(a[..], current, j - 1);
      assert ShiftLoop(before, current, j) == ShiftThenLoop(before, current, j);
      assert ShiftThenLoop(before, current, j) == Shift(rest.state, rest.j, more + rest.steps);
      assert steps + more + rest.steps == steps + (more + rest.steps);
      steps := steps + more;
      j := j - 1;
    }
    assert ShiftLoop(a[..], current, j) == Shift(a[..], j, []);
  }

  /** One round of that loop: record `comparing=[j, j+1]`, copy `l[j]` to
      `l[j+1]`, record `swapped=[j, j+1]`. */
  method ShiftOne(a: array<int>, j: int) returns (steps: seq<Step>)
    requires 0 <= j < a.Length - 1
    modifies a
    ensures a[..] == old(a[..])[j + 1 := old(a[j])]
    ensures steps == [Step(old(a[..]), [j, j + 1], []), Step(a[..], [], [j, j + 1])]
  {
    steps := [Step(a[..], [j, j + 1], [])];
    a[j + 1] := a[j];
    steps := steps + [Step(a[..], [], [j, j + 1])];
  }
}
