/** The merge sort of Test.py and code.py (identical in both): a generator
    over half-open ranges `[l, r)` that copies the halves into `left` and
    `right`, takes from `right` on ties, and records and yields a copy of
    the list after every write. */
module HalfOpenMergeSort {
  import opened SortSpec
  import MergeSort

  /** The test `j >= len(right) or (i < len(left) and left[i] < right[j])`:
      while values remain to be written it never reads an exhausted run, and
      it picks the head the reference merge picks with ties going right. */
  function TakesLeftStrict(L: seq<int>, R: seq<int>, i: int, j: int): (left: bool)
    requires 0 <= i <= |L| && 0 <= j <= |R| && i + j < |L| + |R|
    ensures left ==> i < |L|
    ensures !left ==> j < |R|
    ensures left <==> MergeSort.HeadFromLeft(L[i..], R[j..], false)
  {
    j >= |R| || (i < |L| && L[i] < R[j])
  }

  /** The loop `for k in range(l, r)` entered with `i` values of `left` and
      `j` of `right` written, so at `k == l + i + j`. */
  function WriteFrom(A: seq<int>, L: seq<int>, R: seq<int>, l: int, i: int, j: int): (r: PlainRun)
    requires 0 <= l && l + |L| + |R| <= |A|
    requires 0 <= i <= |L| && 0 <= j <= |R|
    ensures |r.state| == |A|
    decreases |L| + |R| - i - j, 1
  {
    if i + j == |L| + |R| then PlainRun(A, []) else WriteNext(A, L, R, l, i, j)
  }

  /** One round of that loop: write the selected head to `array[k]`, advance
      past it, record the list, and go on. */
  function WriteNext(A: seq<int>, L: seq<int>, R: seq<int>, l: int, i: int, j: int): (r: PlainRun)
    requires 0 <= l && l + |L| + |R| <= |A|
    requires 0 <= i <= |L| && 0 <= j <= |R| && i + j < |L| + |R|
    ensures |r.state| == |A|
    decreases |L| + |R| - i - j, 0
  {
    var k := l + i + j;
    var left := TakesLeftStrict(L, R, i, j);
    var A' := A[k := if left then L[i] else R[j]];
    var rest := WriteFrom(A', L, R, l, if left then i + 1 else i, if left then j else j + 1);
    PlainRun(rest.state, [A'] + rest.lists)
  }

  /** The merge step of `merge_sort_helper(array, l, r)` with `m` the middle:
      `left, right = array[l:m], array[m:r]`, then the write loop. */
  function MergeHalves(s: seq<int>, l: int, m: int, r: int): (res: PlainRun)
    requires 0 <= l <= m <= r <= |s|
    ensures |res.state| == |s|
  {
    WriteFrom(s, s[l..m], s[m..r], l, 0, 0)
  }

  /** `merge_sort_helper(array, l, r)`: a range of fewer than two elements is
      left alone; a longer one is split at `m = (l + r) // 2`. */
  function HalfSort(s: seq<int>, l: int, r: int): (res: PlainRun)
    requires 0 <= l && r <= |s|
    ensures |res.state| == |s|
    decreases r - l, 1
  {
    if r - l > 1 then SortSplit(s, l, (l + r) / 2, r) else PlainRun(s, [])
  }

  /** The body of `merge_sort_helper(array, l, r)` for `r - l > 1`: sort
      `[l, m)`, then `[m, r)`, then merge them. */
  function SortSplit(s: seq<int>, l: int, m: int, r: int): (res: PlainRun)
    requires 0 <= l < m < r <= |s|
    ensures |res.state| == |s|
    decreases r - l, 0
  {
    var left := HalfSort(s, l, m);
    var right := HalfSort(left.state, m, r);
    var merged := MergeHalves(right.state, l, m, r);
    PlainRun(merged.state, left.lists + right.lists + merged.lists)
  }

  /** The lists `merge_sort(arr)` yields, and the list it leaves; it records
      the input followed by the same lists. */
  function HalfMergeSortRun(s: seq<int>): (r: PlainRun)
    ensures |s| <= 1 ==> r == PlainRun(s, [])
  {
    HalfSort(s, 0, |s|)
  }

  /** `s` with `[k, k + |M|)` showing the first `t` values of `M` and the
      rest of `s` as it was. */
  function Shown(s: seq<int>, k: int, M: seq<int>, t: int): (r: seq<int>)
    requires 0 <= k && k + |M| <= |s| && 0 <= t <= |M|
    ensures |r| == |s|
  {
    s[..k] + M[..t] + s[k + t..]
  }

  /** The merge of what is left of the runs starts with the head the loop
      selects, followed by the merge of what is left after it. */
  lemma RunsAdvance(L: seq<int>, R: seq<int>, i: int, j: int)
    requires 0 <= i <= |L| && 0 <= j <= |R| && i + j < |L| + |R|
    ensures var left := TakesLeftStrict(L, R, i, j);
      MergeSort.MergeRuns(L[i..], R[j..], false)
      == [if left then L[i] else R[j]]
         + MergeSort.MergeRuns(L[if left then i + 1 else i..], R[if left then j else j + 1..], false)
  {
    var X, Y := L[i..], R[j..];
    if TakesLeftStrict(L, R, i, j) {
      assert X[0] == L[i] && X[1..] == L[i + 1..];
    } else {
      assert Y[0] == R[j] && Y[1..] == R[j + 1..];
    }
  }

  /** Writing `v` at `k` brings it from the merge still to come into the
      part already shown. */
  lemma ShownAdvance(s: seq<int>, k: int, v: int, M: seq<int>, t: int)
    requires 0 <= k && k + 1 + |M| <= |s| && 0 <= t <= |M|
    ensures Shown(s[k := v], k + 1, M, t) == Shown(s, k, [v] + M, t + 1)
  {
    var s' := s[k := v];
    assert s'[..k + 1] == s[..k] + [v];
    assert ([v] + M)[..t + 1] == [v] + M[..t];
    assert s'[k + 1 + t..] == s[k + 1 + t..];
  }

  /** Copy `t` (from 0) of a write loop entered at `k` shows the first
      `t + 1` values of the merge `M` in place. */
  predicate ShowsMerge(lists: seq<seq<int>>, s: seq<int>, k: int, M: seq<int>)
    requires 0 <= k && k + |M| <= |s|
  {
    |lists| == |M| && forall t :: 0 <= t < |lists| ==> lists[t] == Shown(s, k, M, t + 1)
  }

  /** The write loop leaves `[k, e)` holding the merge of what is left of the
      runs, ties taken from the right, and nothing outside `[k, e)` changed. */
  lemma {:induction false} WriteFromState(A: seq<int>, L: seq<int>, R: seq<int>, l: int, i: int, j: int)
    requires 0 <= l && l + |L| + |R| <= |A|
    requires 0 <= i <= |L| && 0 <= j <= |R|
    ensures var M := MergeSort.MergeRuns(L[i..], R[j..], false);
      WriteFrom(A, L, R, l, i, j).state == Shown(A, l + i + j, M, |M|)
    decreases |L| + |R| - i - j, 1
  {
    var k := l + i + j;
    if i + j == |L| + |R| {
      assert L[i..] == [] && R[j..] == [];
      assert A == A[..k] + A[k..];
    } else {
      WriteNextState(A, L, R, l, i, j);
    }
  }

  /** The same for a round that writes one value. */
  lemma {:induction false} WriteNextState(A: seq<int>, L: seq<int>, R: seq<int>, l: int, i: int, j: int)
    requires 0 <= l && l + |L| + |R| <= |A|
    requires 0 <= i <= |L| && 0 <= j <= |R| && i + j < |L| + |R|
    ensures var M := MergeSort.MergeRuns(L[i..], R[j..], false);
      WriteNext(A, L, R, l, i, j).state == Shown(A, l + i + j, M, |M|)
    decreases |L| + |R| - i - j, 0
  {
    var k := l + i + j;
    var left := TakesLeftStrict(L, R, i, j);
    var v := if left then L[i] else R[j];
    var i', j' := if left then i + 1 else i, if left then j else j + 1;
    var A' := A[k := v];
    WriteFromState(A', L, R, l, i', j');
    assert l + i' + j' == k + 1;
    assert WriteNext(A, L, R, l, i, j).state == WriteFrom(A', L, R, l, i', j').state;
    RunsAdvance(L, R, i, j);
    WrittenShown(A, k, v, MergeSort.MergeRuns(L[i..], R[j..], false), MergeSort.MergeRuns(L[i'..], R[j'..], false));
  }

  /** Writing the head `v` of the merge `M` at `k` and showing the rest `M'`
      from `k + 1` shows all of `M` from `k`. */
  lemma WrittenShown(s: seq<int>, k: int, v: int, M: seq<int>, M': seq<int>)
    requires 0 <= k && k + |M| <= |s| && M == [v] + M'
    ensures Shown(s[k := v], k + 1, M', |M'|) == Shown(s, k, M, |M|)
  {
    ShownAdvance(s, k, v, M', |M'|);
  }

  /** After each write the loop records the list with one more value of that
      merge in place. */
  lemma {:induction false} WriteFromLists(A: seq<int>, L: seq<int>, R: seq<int>, l: int, i: int, j: int)
    requires 0 <= l && l + |L| + |R| <= |A|
    requires 0 <= i <= |L| && 0 <= j <= |R|
    ensures ShowsMerge(WriteFrom(A, L, R, l, i, j).lists, A, l + i + j, MergeSort.MergeRuns(L[i..], R[j..], false))
    decreases |L| + |R| - i - j, 1
  {
    if i + j == |L| + |R| {
      assert L[i..] == [] && R[j..] == [];
    } else {
      WriteNextLists(A, L, R, l, i, j);
    }
  }

  /** The same for a round that writes one value. */
  lemma {:induction false} WriteNextLists(A: seq<int>, L: seq<int>, R: seq<int>, l: int, i: int, j: int)
    requires 0 <= l && l + |L| + |R| <= |A|
    requires 0 <= i <= |L| && 0 <= j <= |R| && i + j < |L| + |R|
    ensures ShowsMerge(WriteNext(A, L, R, l, i, j).lists, A, l + i + j, MergeSort.MergeRuns(L[i..], R[j..], false))
    decreases |L| + |R| - i - j, 0
  {
    var k := l + i + j;
    var left := TakesLeftStrict(L, R, i, j);
    var v := if left then L[i] else R[j];
    var i', j' := if left then i + 1 else i, if left then j else j + 1;
    var A' := A[k := v];
    var rest := WriteFrom(A', L, R, l, i', j');
    WriteFromLists(A', L, R, l, i', j');
    assert l + i' + j' == k + 1;
    assert WriteNext(A, L, R, l, i, j).lists == [A'] + rest.lists;
    RunsAdvance(L, R, i, j);
    var M' := MergeSort.MergeRuns(L[i'..], R[j'..], false);
    ShownCons(A, k, v, M', rest.lists);
  }

  /** The list after writing `v` at `k`, followed by the copies of the loop
      from there, are the copies of the loop from `k`. */
  lemma ShownCons(s: seq<int>, k: int, v: int, M: seq<int>, rest: seq<seq<int>>)
    requires 0 <= k && k + 1 + |M| <= |s|
    requires ShowsMerge(rest, s[k := v], k + 1, M)
    ensures ShowsMerge([s[k := v]] + rest, s, k, [v] + M)
  {
    var all := [s[k := v]] + rest;
    forall t | 0 <= t < |all|
      ensures all[t] == Shown(s, k, [v] + M, t + 1)
    {
      if t == 0 {
        assert Shown(s, k, [v] + M, 1) == s[k := v];
      } else {
        assert all[t] == rest[t - 1];
        ShownAdvance(s, k, v, M, t);
      }
    }
  }

  /** A list showing part of a merge placed at `[k, k + |M|)` agrees with
      `s` elsewhere. */
  lemma ShownOutside(s: seq<int>, k: int, M: seq<int>, t: int)
    requires 0 <= k && k + |M| <= |s| && 0 <= t <= |M|
    ensures SameOutside(s, Shown(s, k, M, t), k, k + |M|)
  {
    var r := Shown(s, k, M, t);
    forall x | 0 <= x < |s| && !(k <= x < k + |M|)
      ensures s[x] == r[x]
    {
      if x < k {
        assert r[x] == s[..k][x];
      } else {
        assert r[x] == s[k + t..][x - k - t];
      }
    }
  }

  /** Merging `[l, m)` and `[m, r)` leaves `[l, r)` holding the merge of the
      two halves as they were, ties from the right, and records one list per
      position of `[l, r)`, each agreeing with `s` outside that range. */
  lemma MergeHalvesLayout(s: seq<int>, l: int, m: int, r: int)
    requires 0 <= l <= m <= r <= |s|
    ensures var res := MergeHalves(s, l, m, r);
      && res.state[l..r] == MergeSort.MergeRuns(s[l..m], s[m..r], false)
      && SameOutside(s, res.state, l, r)
      && |res.lists| == r - l
      && ListsOutside(res.lists, s, l, r)
  {
    var L, R := s[l..m], s[m..r];
    var M := MergeSort.MergeRuns(L, R, false);
    WriteFromState(s, L, R, l, 0, 0);
    WriteFromLists(s, L, R, l, 0, 0);
    assert L[0..] == L && R[0..] == R;
    var res := MergeHalves(s, l, m, r);
    assert res.state == s[..l] + M + s[r..];
    assert res.state[l..r] == M;
    ShownOutside(s, l, M, |M|);
    forall t | 0 <= t < |res.lists|
      ensures SameOutside(s, res.lists[t], l, r)
    {
      ShownOutside(s, l, M, t + 1);
    }
  }

  /** Merging two adjacent sorted ranges leaves their union sorted and
      rearranged, and the rest of the list alone. */
  lemma MergeHalvesSorts(s: seq<int>, l: int, m: int, r: int)
    requires 0 <= l <= m <= r <= |s|
    requires SortedBetween(s, l, m) && SortedBetween(s, m, r)
    ensures MergeSort.SortedWithin(s, MergeHalves(s, l, m, r).state, l, r)
  {
    MergeHalvesLayout(s, l, m, r);
    MergedSorted(s, MergeHalves(s, l, m, r).state, l, m, r);
  }

  /** A list whose `[l, r)` holds the merge of the sorted halves of `s` there,
      and which agrees with `s` elsewhere, is `s` with `[l, r)` sorted. */
  lemma MergedSorted(s: seq<int>, t: seq<int>, l: int, m: int, r: int)
    requires 0 <= l <= m <= r <= |s|
    requires SortedBetween(s, l, m) && SortedBetween(s, m, r)
    requires SameOutside(s, t, l, r)
    requires t[l..r] == MergeSort.MergeRuns(s[l..m], s[m..r], false)
    ensures MergeSort.SortedWithin(s, t, l, r)
  {
    var L, R := s[l..m], s[m..r];
    assert s[l..r] == L + R;
    SortedSlice(s, l, m);
    SortedSlice(s, m, r);
    MergeSort.MergeRunsSorted(L, R, false);
    SortedSlice(t, l, r);
    assert SortedBetween(t, l, r);
    MergeSort.MergeRunsPermutes(L, R, false);
    assert multiset(t[l..r]) == multiset(L) + multiset(R) == multiset(s[l..r]);
  }

  /** `merge_sort_helper(array, l, r)` sorts `[l, r)` in place, rearranging
      it and leaving the rest of the list as it was. */
  lemma {:induction false} HalfSortSorts(s: seq<int>, l: int, r: int)
    requires 0 <= l <= r <= |s|
    ensures MergeSort.SortedWithin(s, HalfSort(s, l, r).state, l, r)
    decreases r - l, 1
  {
    if r - l > 1 {
      SortSplitSorts(s, l, (l + r) / 2, r);
    }
  }

  /** Sorting both halves and merging them sorts the range. */
  lemma {:induction false} SortSplitSorts(s: seq<int>, l: int, m: int, r: int)
    requires 0 <= l < m < r <= |s|
    ensures MergeSort.SortedWithin(s, SortSplit(s, l, m, r).state, l, r)
    decreases r - l, 0
  {
    var a := HalfSort(s, l, m).state;
    HalfSortSorts(s, l, m);
    var b := HalfSort(a, m, r).state;
    HalfSortSorts(a, m, r);
    SortedHalvesMerge(s, a, b, l, m, r);
  }

  /** After both recursive calls each half is sorted and holds the values it
      started with, so the merge sorts the whole range. */
  lemma SortedHalvesMerge(s: seq<int>, a: seq<int>, b: seq<int>, l: int, m: int, r: int)
    requires 0 <= l < m < r <= |s|
    requires MergeSort.SortedWithin(s, a, l, m) && MergeSort.SortedWithin(a, b, m, r)
    ensures MergeSort.SortedWithin(s, MergeHalves(b, l, m, r).state, l, r)
  {
    assert b[l..m] == a[l..m];
    assert a[m..r] == s[m..r];
    assert SortedBetween(b, l, m);
    MergeHalvesSorts(b, l, m, r);
    assert s[l..r] == s[l..m] + s[m..r];
    assert b[l..r] == b[l..m] + b[m..r];
  }

  /** The lists `merge_sort_helper(array, l, r)` yields: one per written
      position of every merged range, those ranges being `[l, r)` and the
      ranges of both halves, when at least two long. */
  function HalfWork(l: int, r: int): (n: nat)
    ensures r - l > 1 ==> n >= r - l
    decreases r - l
  {
    if r - l > 1 then
      var m := (l + r) / 2;
      HalfWork(l, m) + HalfWork(m, r) + (r - l)
    else 0
  }

  /** `merge_sort_helper(array, l, r)` yields `HalfWork(l, r)` lists, each
      agreeing with the list it started on outside `[l, r)`. */
  lemma {:induction false} HalfSortLists(s: seq<int>, l: int, r: int)
    requires 0 <= l <= r <= |s|
    ensures var res := HalfSort(s, l, r);
      |res.lists| == HalfWork(l, r) && ListsOutside(res.lists, s, l, r)
    decreases r - l, 1
  {
    if r - l > 1 {
      SortSplitLists(s, l, (l + r) / 2, r);
    }
  }

  /** The lists of both halves and of the merge. */
  lemma {:induction false} SortSplitLists(s: seq<int>, l: int, m: int, r: int)
    requires 0 <= l < m < r <= |s|
    ensures var res := SortSplit(s, l, m, r);
      && |res.lists| == HalfWork(l, m) + HalfWork(m, r) + (r - l)
      && ListsOutside(res.lists, s, l, r)
    decreases r - l, 0
  {
    var left := HalfSort(s, l, m);
    var right := HalfSort(left.state, m, r);
    HalfSortLists(s, l, m);
    HalfSortLists(left.state, m, r);
    HalfSortSorts(s, l, m);
    HalfSortSorts(left.state, m, r);
    SplitListsOutside(s, left, right, l, m, r);
  }

  /** The lists of both recursive calls followed by those of the merge stay
      within `[l, r)`. */
  lemma SplitListsOutside(s: seq<int>, left: PlainRun, right: PlainRun, l: int, m: int, r: int)
    requires 0 <= l < m < r <= |s|
    requires SameOutside(s, left.state, l, m) && SameOutside(left.state, right.state, m, r)
    requires ListsOutside(left.lists, s, l, m) && ListsOutside(right.lists, left.state, m, r)
    ensures var merged := MergeHalves(right.state, l, m, r);
      && |merged.lists| == r - l
      && ListsOutside(left.lists + right.lists + merged.lists, s, l, r)
  {
    var merged := MergeHalves(right.state, l, m, r);
    MergeHalvesLayout(right.state, l, m, r);
    assert SameOutside(s, right.state, l, r);
    assert ListsOutside(left.lists, s, l, r);
    assert ListsOutside(right.lists, s, l, r);
    assert ListsOutside(merged.lists, s, l, r);
    ListsOutsideAppend(left.lists, right.lists, s, l, r);
    ListsOutsideAppend(left.lists + right.lists, merged.lists, s, l, r);
  }

  /** Test.py's and code.py's `merge_sort`: the list ends sorted and
      rearranged; one list is yielded per written position (none for a
      list of at most one element), every yielded list has the input's
      length. */
  lemma HalfMergeSortSorts(s: seq<int>)
    ensures var r := HalfMergeSortRun(s);
      && Sorted(r.state) && multiset(r.state) == multiset(s)
      && |r.lists| == HalfWork(0, |s|)
      && forall t :: 0 <= t < |r.lists| ==> |r.lists[t]| == |s|
  {
    var r := HalfMergeSortRun(s);
    HalfSortSorts(s, 0, |s|);
    HalfSortLists(s, 0, |s|);
    SortedSlice(r.state, 0, |s|);
    assert r.state[0..|s|] == r.state && s[0..|s|] == s;
  }

  /** Unlike the swap-based sorts, the yielded lists are not all
      rearrangements of the input: sorting `[2, 1]` first writes the right
      half's `1` over the `2`. */
  lemma MergeDuplicates()
    ensures HalfMergeSortRun([2, 1]).lists == [[1, 1], [1, 2]]
    ensures multiset(HalfMergeSortRun([2, 1]).lists[0]) != multiset([2, 1])
  {
    var s := [2, 1];
    assert s[0..1] == [2] && s[1..2] == [1];
    assert !TakesLeftStrict([2], [1], 0, 0);
    assert s[0 := 1] == [1, 1];
    assert TakesLeftStrict([2], [1], 0, 1);
    assert [1, 1][1 := 2] == [1, 2];
    assert WriteFrom([1, 2], [2], [1], 0, 1, 1) == PlainRun([1, 2], []);
    assert WriteNext([1, 1], [2], [1], 0, 0, 1) == PlainRun([1, 2], [[1, 2]]);
    assert WriteNext(s, [2], [1], 0, 0, 0) == PlainRun([1, 2], [[1, 1], [1, 2]]);
    assert HalfSort(s, 0, 1) == PlainRun(s, []);
    assert HalfSort(s, 1, 2) == PlainRun(s, []);
    assert SortSplit(s, 0, 1, 2) == PlainRun([1, 2], [[1, 1], [1, 2]]);
    assert multiset([1, 1])[2] == 0;
  }

  /** Test.py's and code.py's `merge_sort`, run to exhaustion: it sorts `a`
      in place; `steps` is the list it records, `yielded` the lists the
      generator yields, which are `steps` without its first element. */
  method HalfMergeSort(a: array<int>) returns (steps: seq<seq<int>>, yielded: seq<seq<int>>)
    modifies a
    ensures a[..] == HalfMergeSortRun(old(a[..])).state
    ensures yielded == HalfMergeSortRun(old(a[..])).lists
    ensures steps == [old(a[..])] + yielded
    ensures Sorted(a[..]) && multiset(a[..]) == multiset(old(a[..]))
  {
    ghost var s0 := a[..];
    steps := [a[..]];
    yielded := HalfSortInPlace(a, 0, a.Length);
    steps := steps + yielded;
    HalfMergeSortSorts(s0);
  }

  /** `merge_sort_helper(array, l, r)`, returning the lists it yields (each
      also appended to `steps`). */
  method HalfSortInPlace(a: array<int>, l: int, r: int) returns (yielded: seq<seq<int>>)
    requires 0 <= l && r <= a.Length
    modifies a
    ensures HalfSort(old(a[..]), l, r) == PlainRun(a[..], yielded)
    decreases r - l
  {
    if r - l > 1 {
      ghost var s0 := a[..];
      var m := (l + r) / 2;
      var left := HalfSortInPlace(a, l, m);
      ghost var s1 := a[..];
      var right := HalfSortInPlace(a, m, r);
      ghost var s2 := a[..];
      var merged := MergeHalvesInPlace(a, l, m, r);
      yielded := left + right + merged;
      assert HalfSort(s0, l, m) == PlainRun(s1, left);
      assert HalfSort(s1, m, r) == PlainRun(s2, right);
      assert MergeHalves(s2, l, m, r) == PlainRun(a[..], merged);
      assert SortSplit(s0, l, m, r) == PlainRun(a[..], yielded);
    } else {
      yielded := [];
    }
  }

  /** `left, right = array[l:m], array[m:r]` and the loop writing `[l, r)`
      back from them. */
  method MergeHalvesInPlace(a: array<int>, l: int, m: int, r: int) returns (lists: seq<seq<int>>)
    requires 0 <= l <= m <= r <= a.Length
    modifies a
    ensures MergeHalves(old(a[..]), l, m, r) == PlainRun(a[..], lists)
  {
    var L, R := a[l..m], a[m..r];
    ghost var goal := WriteFrom(a[..], L, R, l, 0, 0);
    var i, j := 0, 0;
    lists := [];
    for k := l to r
      invariant i + j == k - l && 0 <= i <= |L| && 0 <= j <= |R|
      invariant WriteFrom(a[..], L, R, l, i, j).state == goal.state
      invariant lists + WriteFrom(a[..], L, R, l, i, j).lists == goal.lists
    {
      ghost var before := a[..];
      assert WriteFrom(before, L, R, l, i, j) == WriteNext(before, L, R, l, i, j);
      i, j := WriteHead(a, L, R, l, i, j);
      ghost var rest := WriteFrom(a[..], L, R, l, i, j);
      assert lists + [a[..]] + rest.lists == lists + ([a[..]] + rest.lists);
      lists := lists + [a[..]];
    }
  }

  /** One round of that loop at `k == l + i + j`: copy the selected head
      into `array[k]` and advance past it. */
  method WriteHead(a: array<int>, L: seq<int>, R: seq<int>, l: int, i: int, j: int)
    returns (i': int, j': int)
    requires 0 <= l && l + |L| + |R| <= a.Length
    requires 0 <= i <= |L| && 0 <= j <= |R| && i + j < |L| + |R|
    modifies a
    ensures i' + j' == i + j + 1 && 0 <= i' <= |L| && 0 <= j' <= |R|
    ensures var w, rest := WriteNext(old(a[..]), L, R, l, i, j), WriteFrom(a[..], L, R, l, i', j');
      w == PlainRun(rest.state, [a[..]] + rest.lists)
  {
    var k := l + i + j;
    if j >= |R| || (i < |L| && L[i] < R[j]) {
      a[k] := L[i];
      i', j' := i + 1, j;
    } else {
      a[k] := R[j];
      i', j' := i, j + 1;
    }
  }
}
