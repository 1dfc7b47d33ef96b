/** The quick sort of Test.py and code.py (identical in both): a generator
    with Lomuto partitioning around `pivot = array[high]`, recording and
    yielding a copy of the list after every swap. */
module LomutoQuickSort {
  import opened SortSpec
  import MergeSort

  /** The list after a partition, where the pivot ended, and the copies it
      recorded. */
  datatype Parted = Parted(state: seq<int>, cut: int, lists: seq<seq<int>>)

  /** Number of elements of `xs` smaller than `c`. */
  function CountLess(xs: seq<int>, c: int): nat
  {
    if xs == [] then 0 else (if xs[0] < c then 1 else 0) + CountLess(xs[1..], c)
  }

  /** The loop `for j in range(low, high)` entered at `j` with `i` the next
      place for a value below the pivot. */
  function ScanFrom(s: seq<int>, pivot: int, high: int, i: int, j: int): (r: Parted)
    requires 0 <= i <= j <= high < |s|
    ensures |r.state| == |s| && i <= r.cut <= high
    decreases high - j, 1
  {
    if j == high then Parted(s, i, []) else ScanAt(s, pivot, high, i, j)
  }

  /** One round of that loop: when `array[j] < pivot`, swap it to `i`,
      advance `i` and record the list; then go on with `j + 1`. */
  function ScanAt(s: seq<int>, pivot: int, high: int, i: int, j: int): (r: Parted)
    requires 0 <= i <= j < high < |s|
    ensures |r.state| == |s| && i <= r.cut <= high
    decreases high - j, 0
  {
    if s[j] < pivot then
      var t := Swap(s, i, j);
      var rest := ScanFrom(t, pivot, high, i + 1, j + 1);
      Parted(rest.state, rest.cut, [t] + rest.lists)
    else
      ScanFrom(s, pivot, high, i, j + 1)
  }

  /** The partition step of `quick_sort_helper(array, low, high)`: scan with
      `pivot = array[high]` from `i = low`, then swap the pivot to `i` and
      record the list. */
  function LomutoPartition(s: seq<int>, low: int, high: int): (r: Parted)
    requires 0 <= low < high < |s|
    ensures |r.state| == |s| && low <= r.cut <= high
  {
    var sc := ScanFrom(s, s[high], high, low, low);
    var t := Swap(sc.state, sc.cut, high);
    Parted(t, sc.cut, sc.lists + [t])
  }

  /** `quick_sort_helper(array, low, high)`: nothing for fewer than two
      elements. */
  function LomutoRange(s: seq<int>, low: int, high: int): (r: PlainRun)
    requires 0 <= low && high < |s|
    ensures |r.state| == |s|
    decreases high - low, 1
  {
    if low < high then SortAround(s, low, high) else PlainRun(s, [])
  }

  /** The body for `low < high`: partition, then sort `[low, i - 1]`, then
      `[i + 1, high]`; both ranges leave out the pivot, so are smaller. */
  function SortAround(s: seq<int>, low: int, high: int): (r: PlainRun)
    requires 0 <= low < high < |s|
    ensures |r.state| == |s|
    decreases high - low, 0
  {
    var p := LomutoPartition(s, low, high);
    var left := LomutoRange(p.state, low, p.cut - 1);
    var right := LomutoRange(left.state, p.cut + 1, high);
    PlainRun(right.state, p.lists + left.lists + right.lists)
  }

  /** The lists `quick_sort(arr)` yields, and the list it leaves; it records
      the input followed by the same lists. */
  function LomutoRun(s: seq<int>): (r: PlainRun)
    ensures |s| <= 1 ==> r == PlainRun(s, [])
  {
    LomutoRange(s, 0, |s| - 1)
  }

  /** The loop invariant: `[low, i)` holds values below the pivot and
      `[i, j)` values at least the pivot. */
  predicate LomutoInv(s: seq<int>, pivot: int, low: int, high: int, i: int, j: int)
  {
    && 0 <= low <= i <= j <= high < |s|
    && (forall x :: low <= x < i ==> s[x] < pivot)
    && (forall x :: i <= x < j ==> s[x] >= pivot)
  }

  /** The scan ends with `[low, cut)` below the pivot and `[cut, high)` at
      least the pivot. */
  lemma {:induction false} ScanFromSplits(s: seq<int>, pivot: int, low: int, high: int, i: int, j: int)
    requires LomutoInv(s, pivot, low, high, i, j)
    ensures var r := ScanFrom(s, pivot, high, i, j);
      LomutoInv(r.state, pivot, low, high, r.cut, high)
    decreases high - j
  {
    if j < high {
      assert ScanFrom(s, pivot, high, i, j) == ScanAt(s, pivot, high, i, j);
      if s[j] < pivot {
        ScanSwapKeeps(s, pivot, low, high, i, j);
        ScanFromSplits(Swap(s, i, j), pivot, low, high, i + 1, j + 1);
      } else {
        ScanFromSplits(s, pivot, low, high, i, j + 1);
      }
    }
  }

  /** Swapping a value below the pivot from `j` to `i` keeps the scan's
      invariant with both indices advanced. */
  lemma ScanSwapKeeps(s: seq<int>, pivot: int, low: int, high: int, i: int, j: int)
    requires LomutoInv(s, pivot, low, high, i, j) && j < high && s[j] < pivot
    ensures LomutoInv(Swap(s, i, j), pivot, low, high, i + 1, j + 1)
  {
  }

  /** The scan only swaps values inside `[i, high)`, so it rearranges the
      list and leaves the rest alone. */
  lemma {:induction false} ScanFromKeeps(s: seq<int>, pivot: int, high: int, i: int, j: int)
    requires 0 <= i <= j <= high < |s|
    ensures var r := ScanFrom(s, pivot, high, i, j);
      SameOutside(s, r.state, i, high) && multiset(r.state) == multiset(s)
    decreases high - j
  {
    if j < high {
      assert ScanFrom(s, pivot, high, i, j) == ScanAt(s, pivot, high, i, j);
      if s[j] < pivot {
        var t := Swap(s, i, j);
        SwapPermutes(s, i, j);
        ScanFromKeeps(t, pivot, high, i + 1, j + 1);
        var r := ScanFrom(t, pivot, high, i + 1, j + 1);
        assert ScanFrom(s, pivot, high, i, j).state == r.state;
        SameOutsideWiden(s, t, r.state, i, high);
      } else {
        ScanFromKeeps(s, pivot, high, i, j + 1);
      }
    }
  }

  /** Agreeing outside `[i, high)` and then outside `[i + 1, high)` is
      agreeing outside `[i, high)`. */
  lemma SameOutsideWiden(s: seq<int>, t: seq<int>, u: seq<int>, i: int, high: int)
    requires SameOutside(s, t, i, high) && SameOutside(t, u, i + 1, high)
    ensures SameOutside(s, u, i, high)
  {
  }

  /** The scan moves `i` once per value below the pivot it meets. */
  lemma {:induction false} ScanFromCounts(s: seq<int>, pivot: int, high: int, i: int, j: int)
    requires 0 <= i <= j <= high < |s|
    ensures ScanFrom(s, pivot, high, i, j).cut - i == CountLess(s[j..high], pivot)
    decreases high - j
  {
    if j < high {
      assert ScanFrom(s, pivot, high, i, j) == ScanAt(s, pivot, high, i, j);
      assert s[j..high][1..] == s[j + 1..high];
      if s[j] < pivot {
        var t := Swap(s, i, j);
        ScanFromCounts(t, pivot, high, i + 1, j + 1);
        assert t[j + 1..high] == s[j + 1..high];
      } else {
        ScanFromCounts(s, pivot, high, i, j + 1);
      }
    } else {
      assert s[j..high] == [];
    }
  }

  /** The scan records one list per value below the pivot it meets, each a
      rearrangement of `s` agreeing with it outside `[i, high)`. */
  lemma {:induction false} ScanFromLists(s: seq<int>, pivot: int, high: int, i: int, j: int)
    requires 0 <= i <= j <= high < |s|
    ensures var r := ScanFrom(s, pivot, high, i, j);
      && |r.lists| == r.cut - i
      && ListsRearrange(r.lists, multiset(s))
      && ListsOutside(r.lists, s, i, high)
    decreases high - j
  {
    if j < high {
      assert ScanFrom(s, pivot, high, i, j) == ScanAt(s, pivot, high, i, j);
      if s[j] < pivot {
        var t := Swap(s, i, j);
        SwapPermutes(s, i, j);
        ScanFromLists(t, pivot, high, i + 1, j + 1);
        ListsCons(s, t, ScanFrom(t, pivot, high, i + 1, j + 1).lists, i, high);
      } else {
        ScanFromLists(s, pivot, high, i, j + 1);
      }
    }
  }

  /** The list right after a swap inside `[i, high)`, followed by the copies
      from there. */
  lemma ListsCons(s: seq<int>, t: seq<int>, rest: seq<seq<int>>, i: int, high: int)
    requires multiset(t) == multiset(s) && SameOutside(s, t, i, high)
    requires ListsRearrange(rest, multiset(t)) && ListsOutside(rest, t, i + 1, high)
    ensures ListsRearrange([t] + rest, multiset(s)) && ListsOutside([t] + rest, s, i, high)
  {
    var all := [t] + rest;
    forall x | 0 <= x < |all|
      ensures multiset(all[x]) == multiset(s) && SameOutside(s, all[x], i, high)
    {
      if x > 0 {
        assert all[x] == rest[x - 1];
      }
    }
  }

  /** `partition` splits `[low, high]` at `cut` into three parts: values
      below the pivot, the pivot, and values at least the pivot; it only
      rearranges that range. */
  lemma PartitionSplits(s: seq<int>, low: int, high: int)
    requires 0 <= low < high < |s|
    ensures var r, pivot := LomutoPartition(s, low, high), s[high];
      && (forall x :: low <= x < r.cut ==> r.state[x] < pivot)
      && r.state[r.cut] == pivot
      && (forall x :: r.cut < x <= high ==> r.state[x] >= pivot)
      && SameOutside(s, r.state, low, high + 1)
      && multiset(r.state) == multiset(s)
  {
    var pivot := s[high];
    var sc := ScanFrom(s, pivot, high, low, low);
    ScanFromSplits(s, pivot, low, high, low, low);
    ScanFromKeeps(s, pivot, high, low, low);
    SwapPermutes(sc.state, sc.cut, high);
    assert LomutoPartition(s, low, high).state == Swap(sc.state, sc.cut, high);
  }

  /** `partition` records one list per value below the pivot in
      `[low, high)`, plus one for the pivot's swap, and the pivot lands
      after exactly those values. */
  lemma PartitionCounts(s: seq<int>, low: int, high: int)
    requires 0 <= low < high < |s|
    ensures var r := LomutoPartition(s, low, high);
      && r.cut - low == CountLess(s[low..high], s[high])
      && |r.lists| == r.cut - low + 1
  {
    var pivot := s[high];
    ScanFromSplits(s, pivot, low, high, low, low);
    ScanFromCounts(s, pivot, high, low, low);
    ScanFromLists(s, pivot, high, low, low);
  }

  /** Each list the partition records is a rearrangement of the list and
      agrees with it outside `[low, high]`. */
  lemma PartitionLists(s: seq<int>, low: int, high: int)
    requires 0 <= low < high < |s|
    ensures var r := LomutoPartition(s, low, high);
      ListsRearrange(r.lists, multiset(s)) && ListsOutside(r.lists, s, low, high + 1)
  {
    var pivot := s[high];
    var sc := ScanFrom(s, pivot, high, low, low);
    ScanFromKeeps(s, pivot, high, low, low);
    ScanFromLists(s, pivot, high, low, low);
    var t := Swap(sc.state, sc.cut, high);
    SwapPermutes(sc.state, sc.cut, high);
    assert LomutoPartition(s, low, high).lists == sc.lists + [t];
    assert ListsRearrange([t], multiset(s));
    ListsRearrangeAppend(sc.lists, [t], multiset(s));
    assert ListsOutside(sc.lists, s, low, high + 1);
    assert ListsOutside([t], s, low, high + 1);
    ListsOutsideAppend(sc.lists, [t], s, low, high + 1);
  }

  /** `quick_sort_helper(array, low, high)` sorts `[low, high]`, rearranging
      it and leaving the rest of the list alone. */
  lemma {:induction false} LomutoRangeSorts(s: seq<int>, low: int, high: int)
    requires 0 <= low <= high + 1 <= |s|
    ensures MergeSort.SortedWithin(s, LomutoRange(s, low, high).state, low, high + 1)
    decreases high - low, 1
  {
    if low < high {
      SortAroundSorts(s, low, high);
    }
  }

  /** Partitioning and sorting both sides sorts the range. */
  lemma {:induction false} SortAroundSorts(s: seq<int>, low: int, high: int)
    requires 0 <= low < high < |s|
    ensures MergeSort.SortedWithin(s, SortAround(s, low, high).state, low, high + 1)
    decreases high - low, 0
  {
    var p := LomutoPartition(s, low, high);
    var a := LomutoRange(p.state, low, p.cut - 1).state;
    var b := LomutoRange(a, p.cut + 1, high).state;
    assert SortAround(s, low, high).state == b;
    PartitionSplits(s, low, high);
    LomutoRangeSorts(p.state, low, p.cut - 1);
    LomutoRangeSorts(a, p.cut + 1, high);
    SortedAfterCalls(s, p.state, a, b, low, p.cut, high);
  }

  /** Partitioning `[low, high]` around `cut` and then sorting `[low, cut)`
      and `(cut, high]` sorts and rearranges `[low, high]`. */
  lemma SortedAfterCalls(s: seq<int>, p: seq<int>, a: seq<int>, b: seq<int>, low: int, cut: int, high: int)
    requires 0 <= low <= cut <= high < |s| == |p|
    requires forall x :: low <= x < cut ==> p[x] < p[cut]
    requires forall x :: cut < x <= high ==> p[x] >= p[cut]
    requires SameOutside(s, p, low, high + 1) && multiset(p) == multiset(s)
    requires MergeSort.SortedWithin(p, a, low, cut)
    requires MergeSort.SortedWithin(a, b, cut + 1, high + 1)
    ensures MergeSort.SortedWithin(s, b, low, high + 1)
  {
    SortedAroundCut(p, a, b, low, cut, high);
    RearrangedAround(s, p, a, b, low, cut, high);
  }

  /** After the partition and both recursive calls the range is sorted. */
  lemma SortedAroundCut(p: seq<int>, a: seq<int>, b: seq<int>, low: int, cut: int, high: int)
    requires 0 <= low <= cut <= high < |p|
    requires forall x :: low <= x < cut ==> p[x] < p[cut]
    requires forall x :: cut < x <= high ==> p[x] >= p[cut]
    requires MergeSort.SortedWithin(p, a, low, cut)
    requires MergeSort.SortedWithin(a, b, cut + 1, high + 1)
    ensures SortedBetween(b, low, high + 1)
  {
    var pivot := p[cut];
    BoundsCarryOver(p, a, low, cut, pivot);
    assert forall x :: cut <= x <= high ==> a[x] == p[x];
    BoundsCarryOver(a, b, cut + 1, high + 1, pivot);
    forall x, y | low <= x < y <= high
      ensures b[x] <= b[y]
    {
      if y <= cut {
        assert b[x] == a[x] && b[y] == a[y];
      } else if x <= cut {
        assert b[x] == a[x];
      }
    }
  }

  /** Rearranging `[low, cut)` and then `(cut, high]` of a rearrangement of
      `s[low..high]` rearranges `s[low..high]` and leaves the rest alone. */
  lemma RearrangedAround(s: seq<int>, p: seq<int>, a: seq<int>, b: seq<int>, low: int, cut: int, high: int)
    requires 0 <= low <= cut <= high < |s|
    requires SameOutside(s, p, low, high + 1) && multiset(p) == multiset(s)
    requires MergeSort.SortedWithin(p, a, low, cut)
    requires MergeSort.SortedWithin(a, b, cut + 1, high + 1)
    ensures multiset(b[low..high + 1]) == multiset(s[low..high + 1])
    ensures SameOutside(s, b, low, high + 1)
  {
    SliceRearranged(p, a, low, cut);
    SliceRearranged(a, b, cut + 1, high + 1);
    assert multiset(b) == multiset(s);
    assert SameOutside(s, b, low, high + 1);
    SliceOfRearranged(s, b, low, high + 1);
  }

  /** Every list `quick_sort_helper(array, low, high)` yields is a
      rearrangement of the list it started from and agrees with it outside
      `[low, high]`. */
  lemma {:induction false} LomutoRangeLists(s: seq<int>, low: int, high: int)
    requires 0 <= low <= high + 1 <= |s|
    ensures var r := LomutoRange(s, low, high);
      ListsRearrange(r.lists, multiset(s)) && ListsOutside(r.lists, s, low, high + 1)
    decreases high - low, 1
  {
    if low < high {
      SortAroundLists(s, low, high);
    }
  }

  /** The lists of the partition and of both recursive calls. */
  lemma {:induction false} SortAroundLists(s: seq<int>, low: int, high: int)
    requires 0 <= low < high < |s|
    ensures var r := SortAround(s, low, high);
      ListsRearrange(r.lists, multiset(s)) && ListsOutside(r.lists, s, low, high + 1)
    decreases high - low, 0
  {
    var p := LomutoPartition(s, low, high);
    var left := LomutoRange(p.state, low, p.cut - 1);
    var right := LomutoRange(left.state, p.cut + 1, high);
    assert SortAround(s, low, high) == PlainRun(right.state, p.lists + left.lists + right.lists);
    LomutoRangeLists(p.state, low, p.cut - 1);
    LomutoRangeLists(left.state, p.cut + 1, high);
    JoinLists(s, p, left, right, low, high);
  }

  /** The facts about the partition and the left call that joining the
      lists needs, gathered apart from the recursion. */
  lemma JoinLists(s: seq<int>, p: Parted, left: PlainRun, right: PlainRun, low: int, high: int)
    requires 0 <= low < high < |s|
    requires p == LomutoPartition(s, low, high)
    requires left == LomutoRange(p.state, low, p.cut - 1)
    requires ListsRearrange(left.lists, multiset(p.state)) && ListsOutside(left.lists, p.state, low, p.cut)
    requires ListsRearrange(right.lists, multiset(left.state))
    requires ListsOutside(right.lists, left.state, p.cut + 1, high + 1)
    ensures ListsRearrange(p.lists + left.lists + right.lists, multiset(s))
    ensures ListsOutside(p.lists + left.lists + right.lists, s, low, high + 1)
  {
    PartitionSplits(s, low, high);
    PartitionLists(s, low, high);
    LomutoRangeSorts(p.state, low, p.cut - 1);
    CallsLists(s, p, left, right, low, high);
  }

  /** Joining the lists of the partition and both recursive calls. */
  lemma CallsLists(s: seq<int>, p: Parted, left: PlainRun, right: PlainRun, low: int, high: int)
    requires 0 <= low <= p.cut <= high < |s| && |p.state| == |s|
    requires SameOutside(s, p.state, low, high + 1) && multiset(p.state) == multiset(s)
    requires ListsRearrange(p.lists, multiset(s)) && ListsOutside(p.lists, s, low, high + 1)
    requires MergeSort.SortedWithin(p.state, left.state, low, p.cut)
    requires ListsRearrange(left.lists, multiset(p.state)) && ListsOutside(left.lists, p.state, low, p.cut)
    requires ListsRearrange(right.lists, multiset(left.state))
    requires ListsOutside(right.lists, left.state, p.cut + 1, high + 1)
    ensures ListsRearrange(p.lists + left.lists + right.lists, multiset(s))
    ensures ListsOutside(p.lists + left.lists + right.lists, s, low, high + 1)
  {
    SliceRearranged(p.state, left.state, low, p.cut);
    assert SameOutside(s, left.state, low, high + 1);
    assert ListsOutside(left.lists, s, low, high + 1);
    assert ListsOutside(right.lists, s, low, high + 1);
    ListsRearrangeAppend(p.lists, left.lists, multiset(s));
    ListsRearrangeAppend(p.lists + left.lists, right.lists, multiset(s));
    ListsOutsideAppend(p.lists, left.lists, s, low, high + 1);
    ListsOutsideAppend(p.lists + left.lists, right.lists, s, low, high + 1);
  }

  /** Test.py's and code.py's `quick_sort`: the list ends sorted and
      rearranged, and every yielded list is a rearrangement of the input. */
  lemma LomutoSorts(s: seq<int>)
    ensures var r := LomutoRun(s);
      && Sorted(r.state) && multiset(r.state) == multiset(s)
      && ListsRearrange(r.lists, multiset(s))
  {
    var r := LomutoRun(s);
    LomutoRangeSorts(s, 0, |s| - 1);
    LomutoRangeLists(s, 0, |s| - 1);
    SortedSlice(r.state, 0, |s|);
    assert r.state[0..|s|] == r.state && s[0..|s|] == s;
  }

  /** Test.py's and code.py's `quick_sort`, run to exhaustion: it sorts `a`
      in place; `steps` is the list it records, `yielded` the lists the
      generator yields, which are `steps` without its first element. */
  method LomutoQuickSort(a: array<int>) returns (steps: seq<seq<int>>, yielded: seq<seq<int>>)
    modifies a
    ensures a[..] == LomutoRun(old(a[..])).state
    ensures yielded == LomutoRun(old(a[..])).lists
    ensures steps == [old(a[..])] + yielded
    ensures Sorted(a[..]) && multiset(a[..]) == multiset(old(a[..]))
  {
    ghost var s0 := a[..];
    steps := [a[..]];
    yielded := LomutoHelper(a, 0, a.Length - 1);
    steps := steps + yielded;
    LomutoSorts(s0);
  }

  /** `quick_sort_helper(array, low, high)`, returning the lists it yields
      (each also appended to `steps`). */
  method LomutoHelper(a: array<int>, low: int, high: int) returns (yielded: seq<seq<int>>)
    requires 0 <= low && high < a.Length
    modifies a
    ensures LomutoRange(old(a[..]), low, high) == PlainRun(a[..], yielded)
    decreases high - low
  {
    if low < high {
      ghost var s0 := a[..];
      var i, parted := PartitionInPlace(a, low, high);
      ghost var s1 := a[..];
      var left := LomutoHelper(a, low, i - 1);
      ghost var s2 := a[..];
      var right := LomutoHelper(a, i + 1, high);
      yielded := parted + left + right;
      assert LomutoPartition(s0, low, high) == Parted(s1, i, parted);
      assert LomutoRange(s1, low, i - 1) == PlainRun(s2, left);
      assert SortAround(s0, low, high) == PlainRun(a[..], yielded);
    } else {
      yielded := [];
    }
  }

  /** The partition step in place: the scan, then
      `array[i], array[high] = array[high], array[i]` and its copy. */
  method PartitionInPlace(a: array<int>, low: int, high: int) returns (i: int, lists: seq<seq<int>>)
    requires 0 <= low < high < a.Length
    modifies a
    ensures LomutoPartition(old(a[..]), low, high) == Parted(a[..], i, lists)
  {
    var pivot := a[high];
    i, lists := ScanInPlace(a, pivot, low, high);
    a[i], a[high] := a[high], a[i];
    lists := lists + [a[..]];
  }

  /** The loop `for j in range(low, high)` in place. */
  method ScanInPlace(a: array<int>, pivot: int, low: int, high: int) returns (i: int, lists: seq<seq<int>>)
    requires 0 <= low < high < a.Length
    modifies a
    ensures ScanFrom(old(a[..]), pivot, high, low, low) == Parted(a[..], i, lists)
  {
    ghost var goal := ScanFrom(a[..], pivot, high, low, low);
    i := low;
    lists := [];
    for j := low to high
      invariant low <= i <= j
      invariant var rest := ScanFrom(a[..], pivot, high, i, j);
        rest.state == goal.state && rest.cut == goal.cut && lists + rest.lists == goal.lists
    {
      ghost var before := a[..];
      assert ScanFrom(before, pivot, high, i, j) == ScanAt(before, pivot, high, i, j);
      if a[j] < pivot {
        a[i], a[j] := a[j], a[i];
        assert a[..] == Swap(before, i, j);
        ghost var rest := ScanFrom(a[..], pivot, high, i + 1, j + 1);
        assert lists + [a[..]] + rest.lists == lists + ([a[..]] + rest.lists);
        i := i + 1;
        lists := lists + [a[..]];
      }
    }
    assert ScanFrom(a[..], pivot, high, i, high) == Parted(a[..], i, []);
  }
}
