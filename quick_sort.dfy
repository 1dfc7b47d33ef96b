/** The annotated quick sort of quick_sort.py, with Hoare's partition and
    pivot `l[low]`. */
module QuickSort {
  import opened SortSpec

  /** The result of `partition`: the list, the returned index `j`, and the
      steps appended. */
  datatype Split = Split(state: seq<int>, cut: int, steps: seq<Step>)

  /** `while l[j] > pivot: j -= 1`, started at `j`. The scan is not allowed
      below `lo`; `ScanDownStops` shows that this bound never ends it while
      some position in `[lo, j]` holds a value at most the pivot. */
  function ScanDown(s: seq<int>, pivot: int, lo: int, j: int): (r: int)
    requires 0 <= lo <= j < |s|
    ensures lo <= r <= j
    decreases j
  {
    if lo < j && s[j] > pivot then ScanDown(s, pivot, lo, j - 1) else j
  }

  /** With a value at most the pivot somewhere in `[lo, j]`, the downward
      scan stays inside `[lo, j]` and ends at the last position whose value
      is at most the pivot, passing only values above it. */
  lemma {:induction false} ScanDownStops(s: seq<int>, pivot: int, lo: int, j: int)
    requires 0 <= lo <= j < |s|
    requires exists x :: lo <= x <= j && s[x] <= pivot
    ensures var r := ScanDown(s, pivot, lo, j);
      s[r] <= pivot && forall x :: r < x <= j ==> s[x] > pivot
    decreases j
  {
    if lo < j && s[j] > pivot {
      ScanDownStops(s, pivot, lo, j - 1);
    }
  }

  /** `while l[i] < pivot: i += 1`, started at `i`. The scan is not allowed
      above `hi`; `ScanUpStops` shows that this bound never ends it while
      some position in `[i, hi]` holds a value at least the pivot. */
  function ScanUp(s: seq<int>, pivot: int, i: int, hi: int): (r: int)
    requires 0 <= i <= hi < |s|
    ensures i <= r <= hi
    decreases hi - i
  {
    if i < hi && s[i] < pivot then ScanUp(s, pivot, i + 1, hi) else i
  }

  /** With a value at least the pivot somewhere in `[i, hi]`, the upward
      scan stays inside `[i, hi]` and ends at the first position whose value
      is at least the pivot, passing only values below it. */
  lemma {:induction false} ScanUpStops(s: seq<int>, pivot: int, i: int, hi: int)
    requires 0 <= i <= hi < |s|
    requires exists x :: i <= x <= hi && s[x] >= pivot
    ensures var r := ScanUp(s, pivot, i, hi);
      s[r] >= pivot && forall x :: i <= x < r ==> s[x] < pivot
    decreases hi - i
  {
    if i < hi && s[i] < pivot {
      ScanUpStops(s, pivot, i + 1, hi);
    }
  }

  /** The index facts `partition` keeps at the top of `while True`: `i` and
      `j` are the last indices (initially `low - 1` and `high + 1`), and
      before the first round the pivot is still at `low`. */
  predicate HoareBounds(s: seq<int>, pivot: int, low: int, high: int, i: int, j: int)
  {
    && 0 <= low < high < |s|
    && low - 1 <= i < j <= high + 1
    && low < j && i < high
    && (j == high + 1 ==> i == low - 1 && s[low] == pivot)
  }

  /** What else holds at the top of `while True`: everything up to `i` is
      at most the pivot, everything from `j` is at least the pivot, and either
      no round has run yet or both indices are inside the range. */
  predicate HoareInv(s: seq<int>, pivot: int, low: int, high: int, i: int, j: int)
  {
    && HoareBounds(s, pivot, low, high, i, j)
    && (forall x :: low <= x <= i ==> s[x] <= pivot)
    && (forall x :: j <= x <= high ==> s[x] >= pivot)
    && ((i == low - 1 && j == high + 1) || (low <= i && j <= high))
  }

  /** A round that swaps keeps the loop invariant. */
  lemma SwapKeepsInv(s: seq<int>, pivot: int, low: int, high: int, i: int, j: int, i': int, j': int)
    requires HoareInv(s, pivot, low, high, i, j)
    requires i < i' < j' < j
    requires s[j'] <= pivot && (forall x :: j' < x < j ==> s[x] > pivot)
    requires s[i'] >= pivot && (forall x :: i < x < i' ==> s[x] < pivot)
    ensures HoareInv(Swap(s, i', j'), pivot, low, high, i', j')
  {
    var t := Swap(s, i', j');
    forall x | low <= x <= i'
      ensures t[x] <= pivot
    {
      if x < i' {
        assert t[x] == s[x];
      }
    }
    forall x | j' <= x <= high
      ensures t[x] >= pivot
    {
      if x > j' {
        assert t[x] == s[x];
      }
    }
    if i == low - 1 {
      assert !(s[low] < pivot);
      assert i' == low;
    }
  }

  /** The loop `while True` of `partition`, entered with the last `i` and
      `j`: move `j` down past values above the pivot, move `i` up past values
      below it, then swap and record the pair, or return `j`. */
  function HoareLoop(s: seq<int>, pivot: int, low: int, high: int, i: int, j: int): (r: Split)
    requires HoareBounds(s, pivot, low, high, i, j)
    ensures |r.state| == |s|
    ensures low <= r.cut < high
    decreases j - i
  {
    var j' := ScanDown(s, pivot, low, j - 1);
    var i' := ScanUp(s, pivot, i + 1, high);
    if i' < j' then SwapThenLoop(s, pivot, low, high, i', j')
    else Split(s, j', [])
  }

  /** The rest of `while True` after a round whose scans stopped at `i < j`:
      record `comparing=[i, j]`, swap, record `swapped=[i, j]`, and go round
      again. */
  function SwapThenLoop(s: seq<int>, pivot: int, low: int, high: int, i: int, j: int): (r: Split)
    requires 0 <= low <= i < j <= high < |s|
    ensures |r.state| == |s|
    ensures low <= r.cut < high
    decreases j - i + 1
  {
    var t := Swap(s, i, j);
    var rest := HoareLoop(t, pivot, low, high, i, j);
    Split(rest.state, rest.cut, [Step(s, [i, j], []), Step(t, [], [i, j])] + rest.steps)
  }

  /** One round of the loop from the top: where the scans stop, and what
      the round does. */
  lemma RoundScans(s: seq<int>, pivot: int, low: int, high: int, i: int, j: int)
    returns (i': int, j': int)
    requires HoareInv(s, pivot, low, high, i, j)
    ensures j' == ScanDown(s, pivot, low, j - 1) && i' == ScanUp(s, pivot, i + 1, high)
    ensures s[j'] <= pivot && forall x :: j' < x < j ==> s[x] > pivot
    ensures s[i'] >= pivot && forall x :: i < x < i' ==> s[x] < pivot
    ensures i' < j' ==> HoareInv(Swap(s, i', j'), pivot, low, high, i', j')
  {
    var wDown := if low <= i then i else low;
    assert low <= wDown <= j - 1 && s[wDown] <= pivot;
    j' := ScanDown(s, pivot, low, j - 1);
    ScanDownStops(s, pivot, low, j - 1);
    var wUp := if j <= high then j else low;
    assert i + 1 <= wUp <= high && s[wUp] >= pivot;
    i' := ScanUp(s, pivot, i + 1, high);
    ScanUpStops(s, pivot, i + 1, high);
    if i' < j' {
      SwapKeepsInv(s, pivot, low, high, i, j, i', j');
    }
  }

  /** One round of the loop, given where its scans stop: a swap and the
      rest of the loop from the swapped list, or the return of `j`. */
  lemma RoundUnfolds(s: seq<int>, pivot: int, low: int, high: int, i: int, j: int, i': int, j': int)
    requires HoareBounds(s, pivot, low, high, i, j)
    requires j' == ScanDown(s, pivot, low, j - 1) && i' == ScanUp(s, pivot, i + 1, high)
    ensures i' < j' ==> HoareBounds(Swap(s, i', j'), pivot, low, high, i', j')
    ensures i' < j' ==>
      var t := Swap(s, i', j');
      var r, rest := HoareLoop(s, pivot, low, high, i, j), HoareLoop(t, pivot, low, high, i', j');
      r.state == rest.state && r.cut == rest.cut
      && r.steps == [Step(s, [i', j'], []), Step(t, [], [i', j'])] + rest.steps
    ensures i' >= j' ==> HoareLoop(s, pivot, low, high, i, j) == Split(s, j', [])
  {
  }

  /** `partition(l, low, high)` with pivot `l[low]`. */
  function Partition(s: seq<int>, low: int, high: int): (r: Split)
    requires 0 <= low < high < |s|
    ensures |r.state| == |s| && low <= r.cut < high
  {
    HoareLoop(s, s[low], low, high, low - 1, high + 1)
  }

  /** `quick_sort_helper(l, low, high)`: partition, then sort `l[low..q]`,
      then `l[q+1..high]`; both ranges are strictly smaller because
      `low <= q < high`. */
  function QuickSortRange(s: seq<int>, low: int, high: int): (r: Run)
    requires 0 <= low && high < |s|
    ensures |r.state| == |s|
    decreases high - low, 1
  {
    if low < high then PartitionSort(s, low, high) else Run(s, [])
  }

  /** The body of `quick_sort_helper(l, low, high)` for `low < high`. */
  function PartitionSort(s: seq<int>, low: int, high: int): (r: Run)
    requires 0 <= low < high < |s|
    ensures |r.state| == |s|
    decreases high - low, 0
  {
    var p := Partition(s, low, high);
    var left := QuickSortRange(p.state, low, p.cut);
    var right := QuickSortRange(left.state, p.cut + 1, high);
    Run(right.state, p.steps + left.steps + right.steps)
  }

  /** The whole run of `quick_sort`: the initial step, then the steps of
      `quick_sort_helper(arr, 0, len(arr) - 1)`. */
  function QuickSortRun(s: seq<int>): (r: Run)
    ensures |r.steps| >= 1 && r.steps[0] == Initial(s)
    ensures |s| <= 1 ==> r == Run(s, [Initial(s)])
  {
    var h := QuickSortRange(s, 0, |s| - 1);
    Run(h.state, [Initial(s)] + h.steps)
  }

  /** Steps `2t` and `2t + 1` record one swap of `partition`: `comparing=[i, j]`
      on the list before, `swapped=[i, j]` on the list after, with
      `lo <= i < j < hi`. */
  predicate SwapPair(steps: seq<Step>, t: int, lo: int, hi: int)
  {
    && 0 <= t && 2 * t + 1 < |steps|
    && var before, after := steps[2 * t], steps[2 * t + 1];
    && |before.comparing| == 2
    && lo <= before.comparing[0] < before.comparing[1] < hi
    && before.comparing[1] < |before.snapshot|
    && before.swapped == [] && after.comparing == []
    && after.swapped == before.comparing
    && after.snapshot == Swap(before.snapshot, before.comparing[0], before.comparing[1])
  }

  /** A trace made only of swap pairs inside `[lo, hi)`. */
  predicate SwapPairs(steps: seq<Step>, lo: int, hi: int)
  {
    && |steps| % 2 == 0
    && forall t :: 0 <= t < |steps| / 2 ==> SwapPair(steps, t, lo, hi)
  }

  lemma SwapPairsCons(a: Step, b: Step, rest: seq<Step>, lo: int, hi: int)
    requires SwapPairs([a, b], lo, hi) && SwapPairs(rest, lo, hi)
    ensures SwapPairs([a, b] + rest, lo, hi)
  {
    SwapPairsAppend([a, b], rest, lo, hi, lo, hi, lo, hi);
  }

  lemma SwapPairsAppend(a: seq<Step>, b: seq<Step>, la: int, ha: int, lb: int, hb: int, lo: int, hi: int)
    requires SwapPairs(a, la, ha) && SwapPairs(b, lb, hb)
    requires lo <= la && lo <= lb && ha <= hi && hb <= hi
    ensures SwapPairs(a + b, lo, hi)
  {
    var ab := a + b;
    forall t | 0 <= t < |ab| / 2
      ensures SwapPair(ab, t, lo, hi)
    {
      if 2 * t < |a| {
        assert SwapPair(a, t, la, ha);
        assert ab[2 * t] == a[2 * t] && ab[2 * t + 1] == a[2 * t + 1];
      } else {
        var u := t - |a| / 2;
        assert SwapPair(b, u, lb, hb);
        assert ab[2 * t] == b[2 * u] && ab[2 * t + 1] == b[2 * u + 1];
      }
    }
  }

  /** From the top of the loop, `partition` returns a `j` at which the range
      splits: everything in `[low, j]` is at most the pivot and everything in
      `(j, high]` at least the pivot. */
  lemma {:induction false} HoareLoopSplits(s: seq<int>, pivot: int, low: int, high: int, i: int, j: int)
    requires HoareInv(s, pivot, low, high, i, j)
    ensures var r := HoareLoop(s, pivot, low, high, i, j);
      && (forall x :: low <= x <= r.cut ==> r.state[x] <= pivot)
      && (forall x :: r.cut < x <= high ==> r.state[x] >= pivot)
    decreases j - i
  {
    var i', j' := RoundScans(s, pivot, low, high, i, j);
    if i' < j' {
      HoareLoopSplits(Swap(s, i', j'), pivot, low, high, i', j');
      var t := Swap(s, i', j');
      assert HoareLoop(s, pivot, low, high, i, j).cut == HoareLoop(t, pivot, low, high, i', j').cut;
      assert HoareLoop(s, pivot, low, high, i, j).state == HoareLoop(t, pivot, low, high, i', j').state;
    } else {
      forall x | low <= x <= j'
        ensures s[x] <= pivot
      {
        if x > i && x < i' {
          assert s[x] < pivot;
        }
      }
    }
  }

  /** A run from `s` that only swaps inside `[lo, hi)`: it leaves a
      rearrangement of `s` that agrees with `s` outside the range, its steps
      are swap pairs inside the range, and every snapshot is a rearrangement
      of `s` that agrees with it outside the range. */
  predicate SwapsInside(s: seq<int>, state: seq<int>, steps: seq<Step>, lo: int, hi: int)
  {
    && multiset(state) == multiset(s)
    && SameOutside(s, state, lo, hi)
    && SwapPairs(steps, lo, hi)
    && AllPermutations(steps, s)
    && Untouched(steps, s, lo, hi)
  }

  /** `partition` only swaps inside the range, each swap recorded as a pair
      of steps with `i < j`. */
  lemma {:induction false} HoareLoopSwaps(s: seq<int>, pivot: int, low: int, high: int, i: int, j: int)
    requires HoareInv(s, pivot, low, high, i, j)
    ensures var r := HoareLoop(s, pivot, low, high, i, j);
      SwapsInside(s, r.state, r.steps, low, high + 1)
    decreases j - i
  {
    var i', j' := RoundScans(s, pivot, low, high, i, j);
    if i' < j' {
      var t := Swap(s, i', j');
      HoareLoopSwaps(t, pivot, low, high, i', j');
      var rest := HoareLoop(t, pivot, low, high, i', j');
      SwapRoundTrace(s, i', j', rest.state, rest.steps, low, high);
    }
  }

  /** One swapping round followed by a run that swaps inside the range is
      a run that swaps inside the range. */
  lemma SwapRoundTrace(s: seq<int>, i: int, j: int, state: seq<int>, rest: seq<Step>, low: int, high: int)
    requires 0 <= low <= i < j <= high < |s|
    requires SwapsInside(Swap(s, i, j), state, rest, low, high + 1)
    ensures SwapsInside(s, state, [Step(s, [i, j], []), Step(Swap(s, i, j), [], [i, j])] + rest, low, high + 1)
  {
    SwapRound(s, i, j, low, high + 1);
    SwapsInsideAppend(s, Swap(s, i, j), state,
      [Step(s, [i, j], []), Step(Swap(s, i, j), [], [i, j])], rest, low, high + 1);
  }

  /** A single recorded swap inside the range. */
  lemma SwapRound(s: seq<int>, i: int, j: int, lo: int, hi: int)
    requires 0 <= lo <= i < j < hi <= |s|
    ensures SwapsInside(s, Swap(s, i, j), [Step(s, [i, j], []), Step(Swap(s, i, j), [], [i, j])], lo, hi)
  {
    var t := Swap(s, i, j);
    var head := [Step(s, [i, j], []), Step(t, [], [i, j])];
    assert SwapPair(head, 0, lo, hi);
    SwapPermutes(s, i, j);
    assert AllPermutations(head, s);
  }

  /** Two runs that swap inside the range, one after the other. */
  lemma SwapsInsideAppend(s: seq<int>, t: seq<int>, u: seq<int>, a: seq<Step>, b: seq<Step>, lo: int, hi: int)
    requires SwapsInside(s, t, a, lo, hi) && SwapsInside(t, u, b, lo, hi)
    ensures SwapsInside(s, u, a + b, lo, hi)
  {
    SwapPairsAppend(a, b, lo, hi, lo, hi, lo, hi);
    assert AllPermutations(b, s);
    AllPermutationsAppend(a, b, s);
    UntouchedVia(b, s, t, lo, hi);
    UntouchedAppend(a, b, s, lo, hi);
  }

  /** A run that swaps inside `[lo, mid)` followed by one that swaps inside
      `[mid, hi)` swaps inside `[lo, hi)`. */
  lemma SwapsInsideJoin(s: seq<int>, t: seq<int>, u: seq<int>, a: seq<Step>, b: seq<Step>, lo: int, mid: int, hi: int)
    requires lo <= mid <= hi
    requires SwapsInside(s, t, a, lo, mid) && SwapsInside(t, u, b, mid, hi)
    ensures SwapsInside(s, u, a + b, lo, hi)
  {
    SwapPairsAppend(a, b, lo, mid, mid, hi, lo, hi);
    assert AllPermutations(b, s);
    AllPermutationsAppend(a, b, s);
    UntouchedWiden(a, s, lo, mid, lo, hi);
    UntouchedWiden(b, t, mid, hi, lo, hi);
    UntouchedVia(b, s, t, lo, hi);
    UntouchedAppend(a, b, s, lo, hi);
  }

  /** `partition(l, low, high)` returns `j` with `low <= j < high`; after it
      every value in `l[low..j]` is at most the pivot `l[low]`, every value
      in `l[j+1..high]` at least the pivot, and the range holds the values it
      held before. */
  lemma PartitionSplits(s: seq<int>, low: int, high: int)
    requires 0 <= low < high < |s|
    ensures var r := Partition(s, low, high);
      && low <= r.cut < high
      && (forall x :: low <= x <= r.cut ==> r.state[x] <= s[low])
      && (forall x :: r.cut < x <= high ==> r.state[x] >= s[low])
      && multiset(r.state[low..high + 1]) == multiset(s[low..high + 1])
      && SameOutside(s, r.state, low, high + 1)
  {
    var pivot, i, j := s[low], low - 1, high + 1;
    HoareLoopSplits(s, pivot, low, high, i, j);
    HoareLoopSwaps(s, pivot, low, high, i, j);
    var t := Partition(s, low, high).state;
    SliceOfRearranged(s, t, low, high + 1);
  }

  /** The steps of `partition(l, low, high)`: swap pairs inside the range,
      every snapshot a rearrangement of the list, nothing outside the range
      touched; the list it leaves is a rearrangement that agrees with the
      input outside the range. */
  lemma PartitionTrace(s: seq<int>, low: int, high: int)
    requires 0 <= low < high < |s|
    ensures var r := Partition(s, low, high);
      SwapsInside(s, r.state, r.steps, low, high + 1)
  {
    var pivot, i, j := s[low], low - 1, high + 1;
    HoareLoopSwaps(s, pivot, low, high, i, j);
  }

  /** `quick_sort_helper(l, low, high)` sorts `l[low..high]`, rearranging it
      and leaving the rest of the list alone. */
  lemma {:induction false} QuickSortRangeSorts(s: seq<int>, low: int, high: int)
    requires 0 <= low <= high + 1 <= |s|
    ensures var t := QuickSortRange(s, low, high).state;
      && SortedBetween(t, low, high + 1)
      && multiset(t[low..high + 1]) == multiset(s[low..high + 1])
      && SameOutside(s, t, low, high + 1)
    decreases high - low, 1
  {
    if low < high {
      PartitionSortSorts(s, low, high);
    }
  }

  /** Partitioning and sorting both parts sorts the range. */
  lemma {:induction false} PartitionSortSorts(s: seq<int>, low: int, high: int)
    requires 0 <= low < high < |s|
    ensures var t := PartitionSort(s, low, high).state;
      && SortedBetween(t, low, high + 1)
      && multiset(t[low..high + 1]) == multiset(s[low..high + 1])
      && SameOutside(s, t, low, high + 1)
    decreases high - low, 0
  {
    var p := Partition(s, low, high);
    var left := QuickSortRange(p.state, low, p.cut).state;
    var right := QuickSortRange(left, p.cut + 1, high).state;
    assert PartitionSort(s, low, high).state == right;
    PartitionSplits(s, low, high);
    QuickSortRangeSorts(p.state, low, p.cut);
    QuickSortRangeSorts(left, p.cut + 1, high);
    SortedAfterCalls(s, p.state, left, right, low, p.cut, high);
  }

  /** Partitioning `[low, high]` at `cut` and then sorting `[low, cut]` and
      `(cut, high]` sorts and rearranges `[low, high]`. */
  lemma SortedAfterCalls(s: seq<int>, p: seq<int>, a: seq<int>, b: seq<int>, low: int, cut: int, high: int)
    requires 0 <= low <= cut < high < |s| == |p| == |a| == |b|
    requires forall x :: low <= x <= cut ==> p[x] <= s[low]
    requires forall x :: cut < x <= high ==> p[x] >= s[low]
    requires SameOutside(s, p, low, high + 1) && multiset(p[low..high + 1]) == multiset(s[low..high + 1])
    requires SameOutside(p, a, low, cut + 1) && SortedBetween(a, low, cut + 1)
    requires multiset(a[low..cut + 1]) == multiset(p[low..cut + 1])
    requires SameOutside(a, b, cut + 1, high + 1) && SortedBetween(b, cut + 1, high + 1)
    requires multiset(b[cut + 1..high + 1]) == multiset(a[cut + 1..high + 1])
    ensures SortedBetween(b, low, high + 1)
    ensures multiset(b[low..high + 1]) == multiset(s[low..high + 1])
    ensures SameOutside(s, b, low, high + 1)
  {
    SortedAroundPivot(p, a, b, low, cut, high, s[low]);
    RearrangedTwice(s, p, a, b, low, cut, high);
  }

  /** After the partition and both recursive calls the range is sorted: the
      left part holds only values at most the pivot, the right part only
      values at least the pivot, and each is sorted. */
  lemma SortedAroundPivot(p: seq<int>, a: seq<int>, b: seq<int>,
                          low: int, cut: int, high: int, pivot: int)
    requires 0 <= low <= cut < high < |p|
    requires forall x :: low <= x <= cut ==> p[x] <= pivot
    requires forall x :: cut < x <= high ==> p[x] >= pivot
    requires SameOutside(p, a, low, cut + 1) && SortedBetween(a, low, cut + 1)
    requires multiset(a[low..cut + 1]) == multiset(p[low..cut + 1])
    requires SameOutside(a, b, cut + 1, high + 1) && SortedBetween(b, cut + 1, high + 1)
    requires multiset(b[cut + 1..high + 1]) == multiset(a[cut + 1..high + 1])
    ensures SortedBetween(b, low, high + 1)
  {
    BoundsCarryOver(p, a, low, cut + 1, pivot);
    assert forall x :: cut < x <= high ==> a[x] == p[x];
    BoundsCarryOver(a, b, cut + 1, high + 1, pivot);
    forall x, y | low <= x < y <= high
      ensures b[x] <= b[y]
    {
      if x <= cut < y {
        assert b[x] == a[x];
      } else if y <= cut {
        assert b[x] == a[x] && b[y] == a[y];
      }
    }
  }

  /** Rearranging `[low, cut]` and then `(cut, high]` of a rearrangement of
      `s[low..high]` rearranges `s[low..high]` and leaves the rest alone. */
  lemma RearrangedTwice(s: seq<int>, p: seq<int>, a: seq<int>, b: seq<int>, low: int, cut: int, high: int)
    requires 0 <= low <= cut < high < |s|
    requires SameOutside(s, p, low, high + 1) && multiset(p[low..high + 1]) == multiset(s[low..high + 1])
    requires SameOutside(p, a, low, cut + 1) && multiset(a[low..cut + 1]) == multiset(p[low..cut + 1])
    requires SameOutside(a, b, cut + 1, high + 1)
    requires multiset(b[cut + 1..high + 1]) == multiset(a[cut + 1..high + 1])
    ensures multiset(b[low..high + 1]) == multiset(s[low..high + 1])
    ensures SameOutside(s, b, low, high + 1)
  {
    assert a[cut + 1..high + 1] == p[cut + 1..high + 1];
    assert b[low..cut + 1] == a[low..cut + 1];
    assert b[low..high + 1] == b[low..cut + 1] + b[cut + 1..high + 1];
    assert a[low..high + 1] == a[low..cut + 1] + a[cut + 1..high + 1];
    assert p[low..high + 1] == p[low..cut + 1] + p[cut + 1..high + 1];
  }

  /** Every snapshot `quick_sort_helper(l, low, high)` records is a
      rearrangement of the list it started from, each swap is recorded as a
      pair of steps inside `[low, high]`, and nothing outside is touched. */
  lemma {:induction false} QuickSortRangeSteps(s: seq<int>, low: int, high: int)
    requires 0 <= low <= high + 1 <= |s|
    ensures var r := QuickSortRange(s, low, high);
      SwapsInside(s, r.state, r.steps, low, high + 1)
    decreases high - low, 1
  {
    if low < high {
      PartitionSortSteps(s, low, high);
    }
  }

  /** The steps of the partition and of both recursive calls. */
  lemma {:induction false} PartitionSortSteps(s: seq<int>, low: int, high: int)
    requires 0 <= low < high < |s|
    ensures var r := PartitionSort(s, low, high);
      SwapsInside(s, r.state, r.steps, low, high + 1)
    decreases high - low, 0
  {
    var p := Partition(s, low, high);
    var left := QuickSortRange(p.state, low, p.cut);
    var right := QuickSortRange(left.state, p.cut + 1, high);
    assert PartitionSort(s, low, high) == Run(right.state, p.steps + left.steps + right.steps);
    PartitionTrace(s, low, high);
    QuickSortRangeSteps(p.state, low, p.cut);
    QuickSortRangeSteps(left.state, p.cut + 1, high);
    RecursionTrace(s, p.state, p.steps, left.state, left.steps, right.state, right.steps, low, p.cut, high);
  }

  /** The partition followed by both recursive calls swaps only inside the
      range. */
  lemma RecursionTrace(s: seq<int>, p: seq<int>, parted: seq<Step>, a: seq<int>, left: seq<Step>,
                       b: seq<int>, right: seq<Step>, low: int, cut: int, high: int)
    requires 0 <= low <= cut < high < |s|
    requires SwapsInside(s, p, parted, low, high + 1)
    requires SwapsInside(p, a, left, low, cut + 1)
    requires SwapsInside(a, b, right, cut + 1, high + 1)
    ensures SwapsInside(s, b, parted + left + right, low, high + 1)
  {
    SwapsInsideJoin(p, a, b, left, right, low, cut + 1, high + 1);
    SwapsInsideAppend(s, p, b, parted, left + right, low, high + 1);
    assert parted + (left + right) == parted + left + right;
  }

  /** quick_sort: the result is the ascending rearrangement of the input,
      every snapshot is a rearrangement of the input, and after the initial
      step the trace is made of swap pairs. */
  lemma QuickSortSorts(s: seq<int>)
    ensures var r := QuickSortRun(s);
      && Sorted(r.state) && multiset(r.state) == multiset(s)
      && AllPermutations(r.steps, s)
      && SwapPairs(r.steps[1..], 0, |s|)
  {
    var h := QuickSortRange(s, 0, |s| - 1);
    QuickSortRangeSorts(s, 0, |s| - 1);
    QuickSortRangeSteps(s, 0, |s| - 1);
    SortedSlice(h.state, 0, |s|);
    assert h.state[0..|s|] == h.state && s[0..|s|] == s;
    var r := QuickSortRun(s);
    assert r.steps[1..] == h.steps;
    assert AllPermutations([Initial(s)], s);
    AllPermutationsAppend([Initial(s)], h.steps, s);
  }

  /** quick_sort.py: sorts `a` in place and returns its trace. */
  method QuickSort(a: array<int>) returns (steps: seq<Step>)
    modifies a
    ensures a[..] == QuickSortRun(old(a[..])).state
    ensures steps == QuickSortRun(old(a[..])).steps
    ensures Sorted(a[..]) && multiset(a[..]) == multiset(old(a[..]))
    ensures AllPermutations(steps, old(a[..]))
  {
    ghost var s0 := a[..];
    steps := [Step(a[..], [], [])];
    var more := QuickSortHelper(a, 0, a.Length - 1);
    steps := steps + more;
    QuickSortSorts(s0);
  }

  /** `quick_sort_helper(l, low, high)`, returning the steps it appends. */
  method QuickSortHelper(a: array<int>, low: int, high: int) returns (steps: seq<Step>)
    requires 0 <= low && high < a.Length
    modifies a
    ensures a[..] == QuickSortRange(old(a[..]), low, high).state
    ensures steps == QuickSortRange(old(a[..]), low, high).steps
    decreases high - low
  {
    if low < high {
      ghost var s0 := a[..];
      var q, parted := PartitionInPlace(a, low, high);
      ghost var s1 := a[..];
      var left := QuickSortHelper(a, low, q);
      ghost var s2 := a[..];
      var right := QuickSortHelper(a, q + 1, high);
      steps := parted + left + right;
      assert Partition(s0, low, high) == Split(s1, q, parted);
      assert QuickSortRange(s1, low, q) == Run(s2, left);
      assert QuickSortRange(s2, q + 1, high) == Run(a[..], right);
      assert QuickSortRange(s0, low, high) == PartitionSort(s0, low, high);
    } else {
      steps := [];
    }
  }

  /** `partition(l, low, high)` in place, returning `j` and the steps it
      appends. */
  method PartitionInPlace(a: array<int>, low: int, high: int) returns (cut: int, steps: seq<Step>)
    requires 0 <= low < high < a.Length
    modifies a
    ensures Partition(old(a[..]), low, high) == Split(a[..], cut, steps)
  {
    var pivot := a[low];
    var i, j := low - 1, high + 1;
    cut, steps := HoareLoopInPlace(a, pivot, low, high, i, j);
  }

  /** The `while True` loop of `partition`, entered with the last `i` and
      `j`, in place. */
  method HoareLoopInPlace(a: array<int>, pivot: int, low: int, high: int, i0: int, j0: int)
    returns (cut: int, steps: seq<Step>)
    requires HoareInv(a[..], pivot, low, high, i0, j0)
    modifies a
    ensures HoareLoop(old(a[..]), pivot, low, high, i0, j0) == Split(a[..], cut, steps)
  {
    ghost var goal := HoareLoop(a[..], pivot, low, high, i0, j0);
    var i, j := i0, j0;
    steps := [];
    while true
      invariant HoareInv(a[..], pivot, low, high, i, j)
      invariant var rest := HoareLoop(a[..], pivot, low, high, i, j);
        goal == Split(rest.state, rest.cut, steps + rest.steps)
      decreases j - i
    {
      ghost var s := a[..];
      var i', j', more := PartitionRound(a, pivot, low, high, i, j);
      RoundUnfolds(s, pivot, low, high, i, j, i', j');
      if i' >= j' {
        cut := j';
        return;
      }
      ghost var iUp, jDown := RoundScans(s, pivot, low, high, i, j);
      ghost var rest := HoareLoop(a[..], pivot, low, high, i', j');
      assert steps + more + rest.steps == steps + (more + rest.steps);
      steps := steps + more;
      i, j := i', j';
    }
  }

  /** One round of `while True`: both scans, then the swap when `i < j`,
      returning the new `i` and `j` and the steps the swap appends. */
  method PartitionRound(a: array<int>, pivot: int, low: int, high: int, i: int, j: int)
    returns (i': int, j': int, steps: seq<Step>)
    requires HoareInv(a[..], pivot, low, high, i, j)
    modifies a
    ensures j' == ScanDown(old(a[..]), pivot, low, j - 1) && i' == ScanUp(old(a[..]), pivot, i + 1, high)
    ensures i' < j' ==>
      a[..] == Swap(old(a[..]), i', j') &&
      steps == [Step(old(a[..]), [i', j'], []), Step(a[..], [], [i', j'])]
    ensures i' >= j' ==> a[..] == old(a[..]) && steps == []
  {
    j' := ScanDownInPlace(a, pivot, low, j - 1, if low <= i then i else low);
    i' := ScanUpInPlace(a, pivot, i + 1, high, if j <= high then j else low);
    steps := [];
    if i' < j' {
      steps := steps + [Step(a[..], [i', j'], [])];
      a[i'], a[j'] := a[j'], a[i'];
      steps := steps + [Step(a[..], [], [i', j'])];
    }
  }

  /** `while l[j] > pivot: j -= 1`, which stops at the latest by the
      position `w` holding a value at most the pivot. */
  method ScanDownInPlace(a: array<int>, pivot: int, lo: int, j: int, ghost w: int) returns (r: int)
    requires 0 <= lo <= w <= j < a.Length && a[w] <= pivot
    ensures r == ScanDown(a[..], pivot, lo, j)
  {
    r := j;
    while a[r] > pivot
      invariant w <= r <= j
      invariant ScanDown(a[..], pivot, lo, r) == ScanDown(a[..], pivot, lo, j)
      decreases r
    {
      r := r - 1;
    }
  }

  /** `while l[i] < pivot: i += 1`, which stops at the latest by the
      position `w` holding a value at least the pivot. */
  method ScanUpInPlace(a: array<int>, pivot: int, i: int, hi: int, ghost w: int) returns (r: int)
    requires 0 <= i <= w <= hi < a.Length && a[w] >= pivot
    ensures r == ScanUp(a[..], pivot, i, hi)
  {
    r := i;
    while a[r] < pivot
      invariant i <= r <= w
      invariant ScanUp(a[..], pivot, r, hi) == ScanUp(a[..], pivot, i, hi)
      decreases w - r
    {
      r := r + 1;
    }
  }
}
