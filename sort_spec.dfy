/** Vocabulary shared by the instrumented sorts: the recorded steps,
    sortedness, and reference definitions that several sorts are proved against. */
module SortSpec {

  /** One step of the annotated sorts (insertion_sort.py, selection_sort.py,
      merge_sort.py, quick_sort.py): a copy of the list, the indices being
      compared, and the indices just written. */
  datatype Step = Step(snapshot: seq<int>, comparing: seq<nat>, swapped: seq<nat>)

  /** One step of the Test.py insertion and selection sorts: a copy of the
      list and the pair of highlighted indices (empty for the initial step). */
  datatype Marked = Marked(snapshot: seq<int>, marked: seq<nat>)

  /** The list after a run of (part of) a sort, and the steps it appended. */
  datatype Run = Run(state: seq<int>, steps: seq<Step>)

  /** The list after a run of (part of) a Test.py sort, and the steps it appended. */
  datatype MarkedRun = MarkedRun(state: seq<int>, steps: seq<Marked>)

  /** The list after a run of (part of) a Test.py or code.py generator sort,
      and the copies of the list it recorded (and yielded), in order. */
  datatype PlainRun = PlainRun(state: seq<int>, lists: seq<seq<int>>)

  /** Every copy agrees with `s` outside `[lo, hi)`. */
  predicate ListsOutside(lists: seq<seq<int>>, s: seq<int>, lo: int, hi: int)
  {
    forall t :: 0 <= t < |lists| ==> SameOutside(s, lists[t], lo, hi)
  }

  /** Joining two runs of copies that agree with `s` outside `[lo, hi)`. */
  lemma ListsOutsideAppend(a: seq<seq<int>>, b: seq<seq<int>>, s: seq<int>, lo: int, hi: int)
    requires ListsOutside(a, s, lo, hi) && ListsOutside(b, s, lo, hi)
    ensures ListsOutside(a + b, s, lo, hi)
  {
    forall t | 0 <= t < |a + b|
      ensures SameOutside(s, (a + b)[t], lo, hi)
    {
      if t >= |a| {
        assert (a + b)[t] == b[t - |a|];
      }
    }
  }

  /** Every copy holds exactly the values `values`. */
  predicate ListsRearrange(lists: seq<seq<int>>, values: multiset<int>)
  {
    forall t :: 0 <= t < |lists| ==> multiset(lists[t]) == values
  }

  /** Joining two runs of copies holding `values`. */
  lemma ListsRearrangeAppend(a: seq<seq<int>>, b: seq<seq<int>>, values: multiset<int>)
    requires ListsRearrange(a, values) && ListsRearrange(b, values)
    ensures ListsRearrange(a + b, values)
  {
    forall t | 0 <= t < |a + b|
      ensures multiset((a + b)[t]) == values
    {
      if t >= |a| {
        assert (a + b)[t] == b[t - |a|];
      }
    }
  }

  /** The lists a Test.py trace records, in order: the trace of the
      corresponding code.py sort, which records only the lists. */
  function MarkedSnapshots(steps: seq<Marked>): (r: seq<seq<int>>)
    ensures |r| == |steps|
    ensures forall k :: 0 <= k < |steps| ==> r[k] == steps[k].snapshot
  {
    if steps == [] then [] else [steps[0].snapshot] + MarkedSnapshots(steps[1..])
  }

  /** Recording two traces one after the other records their lists one
      after the other. */
  lemma MarkedSnapshotsAppend(a: seq<Marked>, b: seq<Marked>)
    ensures MarkedSnapshots(a + b) == MarkedSnapshots(a) + MarkedSnapshots(b)
  {
  }

  /** Every list the trace records holds exactly the values `values`. */
  predicate Rearranges(steps: seq<Marked>, values: multiset<int>)
  {
    forall t :: 0 <= t < |steps| ==> multiset(steps[t].snapshot) == values
  }

  /** A first step holding `values` followed by steps that do gives steps that do. */
  lemma RearrangesCons(steps: seq<Marked>, values: multiset<int>)
    requires steps != [] && multiset(steps[0].snapshot) == values
    requires Rearranges(steps[1..], values)
    ensures Rearranges(steps, values)
  {
    forall t | 0 < t < |steps|
      ensures multiset(steps[t].snapshot) == values
    {
      assert steps[t] == steps[1..][t - 1];
    }
  }

  /** The first step of every annotated trace: the input, nothing highlighted. */
  function Initial(s: seq<int>): (r: Step)
    ensures r.snapshot == s && r.comparing == [] && r.swapped == []
  {
    Step(s, [], [])
  }

  predicate Sorted(s: seq<int>)
  {
    forall p, q :: 0 <= p < q < |s| ==> s[p] <= s[q]
  }

  /** `s[lo..hi)` is in ascending order. */
  predicate SortedBetween(s: seq<int>, lo: int, hi: int)
    requires 0 <= lo <= hi <= |s|
  {
    forall p, q :: lo <= p < q < hi ==> s[p] <= s[q]
  }

  /** `s` and `t` agree everywhere outside `[lo, hi)`. */
  predicate SameOutside(s: seq<int>, t: seq<int>, lo: int, hi: int)
  {
    |s| == |t| && forall k :: 0 <= k < |s| && !(lo <= k < hi) ==> s[k] == t[k]
  }

  /** Every snapshot of the trace agrees with `s` outside `[lo, hi)`: the
      steps never touch the rest of the list. */
  predicate Untouched(steps: seq<Step>, s: seq<int>, lo: int, hi: int)
  {
    forall k :: 0 <= k < |steps| ==> SameOutside(s, steps[k].snapshot, lo, hi)
  }

  /** A trace that leaves `[lo, hi)` alone relative to `t` does so relative to
      any `s` that `t` agrees with outside that range. */
  lemma UntouchedVia(steps: seq<Step>, s: seq<int>, t: seq<int>, lo: int, hi: int)
    requires SameOutside(s, t, lo, hi) && Untouched(steps, t, lo, hi)
    ensures Untouched(steps, s, lo, hi)
  {
  }

  /** Staying inside a range means staying inside any range around it. */
  lemma UntouchedWiden(steps: seq<Step>, s: seq<int>, lo: int, hi: int, lo': int, hi': int)
    requires lo' <= lo && hi <= hi' && Untouched(steps, s, lo, hi)
    ensures Untouched(steps, s, lo', hi')
  {
  }

  /** Joining two traces that leave the rest of `s` alone gives one. */
  lemma UntouchedAppend(a: seq<Step>, b: seq<Step>, s: seq<int>, lo: int, hi: int)
    requires Untouched(a, s, lo, hi) && Untouched(b, s, lo, hi)
    ensures Untouched(a + b, s, lo, hi)
  {
    forall k | 0 <= k < |a + b|
      ensures SameOutside(s, (a + b)[k].snapshot, lo, hi)
    {
      if k >= |a| {
        assert (a + b)[k] == b[k - |a|];
      }
    }
  }

  /** A slice is sorted exactly when the list is sorted between its bounds. */
  lemma SortedSlice(s: seq<int>, lo: int, hi: int)
    requires 0 <= lo <= hi <= |s|
    ensures Sorted(s[lo..hi]) <==> SortedBetween(s, lo, hi)
  {
    if SortedBetween(s, lo, hi) {
      forall p, q | 0 <= p < q < hi - lo
        ensures s[lo..hi][p] <= s[lo..hi][q]
      {
        assert s[lo..hi][p] == s[lo + p] && s[lo..hi][q] == s[lo + q];
      }
    }
    if Sorted(s[lo..hi]) {
      forall p, q | lo <= p < q < hi
        ensures s[p] <= s[q]
      {
        assert s[p] == s[lo..hi][p - lo] && s[q] == s[lo..hi][q - lo];
      }
    }
  }

  /** Every recorded copy holds exactly the values of `s` (a permutation of it). */
  predicate AllPermutations(steps: seq<Step>, s: seq<int>)
  {
    forall k :: 0 <= k < |steps| ==> multiset(steps[k].snapshot) == multiset(s)
  }

  /** Joining two traces of rearrangements of `s` gives one. */
  lemma AllPermutationsAppend(a: seq<Step>, b: seq<Step>, s: seq<int>)
    requires AllPermutations(a, s) && AllPermutations(b, s)
    ensures AllPermutations(a + b, s)
  {
    forall k | 0 <= k < |a + b|
      ensures multiset((a + b)[k].snapshot) == multiset(s)
    {
      if k >= |a| {
        assert (a + b)[k] == b[k - |a|];
      }
    }
  }

  /** `s` with the values at positions `i` and `j` exchanged. */
  function Swap(s: seq<int>, i: int, j: int): (r: seq<int>)
    requires 0 <= i < |s| && 0 <= j < |s|
    ensures |r| == |s| && r[i] == s[j] && r[j] == s[i]
    ensures forall k :: 0 <= k < |s| && k != i && k != j ==> r[k] == s[k]
  {
    s[i := s[j]][j := s[i]]
  }

  /** A swap rearranges the list. (Kept out of `Swap`'s own contract: every
      swapped list in scope would otherwise drag its multiset along.) */
  lemma SwapPermutes(s: seq<int>, i: int, j: int)
    requires 0 <= i < |s| && 0 <= j < |s|
    ensures multiset(Swap(s, i, j)) == multiset(s)
  {
  }

  /** If `t[lo..hi)` is a rearrangement of `s[lo..hi)`, every bound that holds of
      all of `s[lo..hi)` still holds of all of `t[lo..hi)`. */
  lemma BoundsCarryOver(s: seq<int>, t: seq<int>, lo: int, hi: int, x: int)
    requires 0 <= lo <= hi <= |s| && hi <= |t|
    requires multiset(t[lo..hi]) == multiset(s[lo..hi])
    ensures (forall k :: lo <= k < hi ==> s[k] <= x) ==> (forall k :: lo <= k < hi ==> t[k] <= x)
    ensures (forall k :: lo <= k < hi ==> s[k] >= x) ==> (forall k :: lo <= k < hi ==> t[k] >= x)
  {
    forall k | lo <= k < hi
      ensures exists m :: lo <= m < hi && t[k] == s[m]
    {
      assert t[k] == t[lo..hi][k - lo];
      assert t[k] in multiset(s[lo..hi]);
      var m :| 0 <= m < hi - lo && s[lo..hi][m] == t[k];
      assert s[lo + m] == t[k];
    }
  }

  /** Replacing a slice by a rearrangement of it leaves the multiset of the whole list unchanged. */
  lemma SliceRearranged(s: seq<int>, t: seq<int>, lo: int, hi: int)
    requires 0 <= lo <= hi <= |s|
    requires SameOutside(s, t, lo, hi)
    requires multiset(t[lo..hi]) == multiset(s[lo..hi])
    ensures multiset(t) == multiset(s)
  {
    assert s == s[..lo] + s[lo..hi] + s[hi..];
    assert t == t[..lo] + t[lo..hi] + t[hi..];
    assert s[..lo] == t[..lo];
    assert s[hi..] == t[hi..];
  }

  /** If `t` rearranges `s` and agrees with it outside `[lo, hi)`, then
      `t[lo..hi)` rearranges `s[lo..hi)`. */
  lemma SliceOfRearranged(s: seq<int>, t: seq<int>, lo: int, hi: int)
    requires 0 <= lo <= hi <= |s|
    requires SameOutside(s, t, lo, hi) && multiset(t) == multiset(s)
    ensures multiset(t[lo..hi]) == multiset(s[lo..hi])
  {
    MultisetOfThirds(s, lo, hi);
    MultisetOfThirds(t, lo, hi);
    assert s[..lo] == t[..lo];
    assert s[hi..] == t[hi..];
    MultisetCancel(multiset(s[..lo]), multiset(s[lo..hi]), multiset(t[lo..hi]), multiset(s[hi..]));
  }

  /** The values of a list are those of its three parts around `[lo, hi)`. */
  lemma MultisetOfThirds(s: seq<int>, lo: int, hi: int)
    requires 0 <= lo <= hi <= |s|
    ensures multiset(s) == multiset(s[..lo]) + multiset(s[lo..hi]) + multiset(s[hi..])
  {
    assert s == s[..lo] + s[lo..hi] + s[hi..];
  }

  /** The same values around two middles leave the two middles equal. */
  lemma MultisetCancel(a: multiset<int>, b: multiset<int>, b': multiset<int>, c: multiset<int>)
    requires a + b + c == a + b' + c
    ensures b == b'
  {
    forall v
      ensures b[v] == b'[v]
    {
      assert (a + b + c)[v] == (a + b' + c)[v];
    }
  }

  /** The smallest index of `s[lo..hi)` holding its minimum: what a left-to-right
      scan keeping the first strictly smaller element (`if l[j] < l[m]: m = j`)
      ends with. */
  function LeftmostMin(s: seq<int>, lo: int, hi: int): (m: int)
    requires 0 <= lo < hi <= |s|
    ensures lo <= m < hi
    ensures forall k :: lo <= k < hi ==> s[m] <= s[k]
    ensures forall k :: lo <= k < m ==> s[k] > s[m]
    decreases hi - lo
  {
    if hi == lo + 1 then lo
    else
      var m := LeftmostMin(s, lo, hi - 1);
      if s[hi - 1] < s[m] then hi - 1 else m
  }

  /** `s[..i]` is sorted and none of its elements exceeds an element of `s[i..]`:
      the first `i` places hold the `i` smallest values in order. */
  predicate Partitioned(s: seq<int>, i: int)
    requires 0 <= i <= |s|
  {
    && SortedBetween(s, 0, i)
    && forall p, q :: 0 <= p < i <= q < |s| ==> s[p] <= s[q]
  }

  /** Once all but (at most) the last place are partitioned, the list is sorted. */
  lemma PartitionedSorted(s: seq<int>, i: int)
    requires 0 <= i <= |s| && |s| <= i + 1
    requires Partitioned(s, i)
    ensures Sorted(s)
  {
    forall p, q | 0 <= p < q < |s|
      ensures s[p] <= s[q]
    {
      if q >= i {
        assert p < i <= q;
      }
    }
  }

  /** Putting the leftmost minimum of `s[i..]` at position `i` extends a
      partitioned prefix by one place. */
  lemma {:induction false} SwapMinExtends(s: seq<int>, i: int)
    requires 0 <= i < |s|
    requires Partitioned(s, i)
    ensures Partitioned(Swap(s, i, LeftmostMin(s, i, |s|)), i + 1)
  {
    var m := LeftmostMin(s, i, |s|);
    var t := Swap(s, i, m);
    forall p, q | 0 <= p < q < i + 1
      ensures t[p] <= t[q]
    {
      if q == i {
        assert t[q] == s[m] && t[p] == s[p];
      }
    }
    forall p, q | 0 <= p < i + 1 <= q < |s|
      ensures t[p] <= t[q]
    {
      if q == m {
        assert t[q] == s[i];
      }
      if p == i {
        assert t[p] == s[m];
      } else {
        assert t[p] == s[p];
      }
    }
  }

  /** Number of elements of `xs` greater than `c`. */
  function CountGreater(xs: seq<int>, c: int): nat
  {
    if xs == [] then 0
    else CountGreater(xs[..|xs| - 1], c) + (if xs[|xs| - 1] > c then 1 else 0)
  }

  /** A sorted list whose last element is at most `c` holds nothing greater
      than `c`. */
  lemma {:induction false} CountGreaterNone(xs: seq<int>, c: int)
    requires Sorted(xs)
    requires xs == [] || xs[|xs| - 1] <= c
    ensures CountGreater(xs, c) == 0
  {
    if xs != [] {
      var init := xs[..|xs| - 1];
      assert Sorted(init);
      if init != [] {
        assert init[|init| - 1] == xs[|xs| - 2] <= xs[|xs| - 1];
      }
      CountGreaterNone(init, c);
    }
  }
}
