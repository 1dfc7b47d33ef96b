# Instrumented sorts and graph searches, modelled in Dafny

The repository is an algorithm visualiser. Each algorithm runs over a mutable subject (a list of integers or a networkx graph) and records an ordered trace of snapshots, which the UI replays. This project models those algorithms and proves what they compute and what their traces look like.

- **Annotated sorts** (`insertion_sort.py`, `selection_sort.py`, `merge_sort.py`, `quick_sort.py`).
  - Each sorts a list in place.
  - Each appends `(snapshot, {'comparing': [...], 'swapped': [...]})` steps (`SortSpec.Step`).
- **The sorts of `Test.py` and `code.py`.**
  - Insertion sort by adjacent swaps.
  - Selection sort that always swaps.
  - Half-open generator merge sort that takes the right run on ties.
  - Lomuto generator quick sort with pivot `array[high]`.
  - `Test.py` records `(list, [i, j])` pairs (`SortSpec.Marked`); `code.py` records bare lists.
  - The merge sort and quick sort of the two files are the same line for line (Test.py:108-147, code.py:101-140).
- **Graph searches** `bfs`, `dfs`, `ucs`. They are the same in both files (Test.py:33-78, code.py:35-80). Each returns the list of snapshots of its visited list.

Each in-place algorithm has two parts:
- A functional specification: recursive functions over `seq<int>` that return the final list and the trace.
- An imperative `method` over `array<int>`. Its loops and recursion are those of the source. Its `ensures` equates the new array contents and the returned trace with the specification applied to `old(a[..])`.

Lemmas about the specification functions carry the properties: sortedness, permutation, exact trace shape, index bounds, and untouched ranges.

The graph searches are methods over values:
- A graph is a `map<string, seq<Edge>>`. The edge lists are in networkx's iteration order. A missing `weight` attribute is `None`.
- Each search is proved equal to a functional loop.
- Lemmas relate that loop to reachability (`Graphs.Reachable`, an existentially quantified path).

Modules and files:

| file | module | source |
|---|---|---|
| sort_spec.dfy | SortSpec | shared definitions: steps, traces, `Swap`, sortedness, leftmost minimum |
| insertion_sort.dfy | InsertionSort | insertion_sort.py |
| selection_sort.dfy | SelectionSort | selection_sort.py (lines 1-18) |
| merge_sort.dfy | MergeSort | merge_sort.py |
| quick_sort.dfy | QuickSort | quick_sort.py |
| swap_insertion_sort.dfy | SwapInsertionSort | `insertion_sort` of Test.py and code.py |
| swap_selection_sort.dfy | SwapSelectionSort | `selection_sort` of Test.py and code.py |
| half_merge_sort.dfy | HalfOpenMergeSort | `merge_sort` of Test.py and code.py |
| lomuto_quick_sort.dfy | LomutoQuickSort | `quick_sort` of Test.py and code.py |
| graph.dfy | Graphs | the networkx graph, visited-list snapshots, reachability |
| bfs.dfy | BreadthFirst | `bfs` |
| dfs.dfy | DepthFirst | `dfs` |
| ucs.dfy | UniformCost | `ucs` |

UCS pops equal costs in node-name order, because `heapq` compares `(cost, node)` tuples (Test.py:67). `merge_sort` and `quick_sort` of Test.py and code.py are generators that return nothing; the list they record is modelled as an output.

## Model

| member | source | states |
|---|---|---|
| SortSpec.Swap | selection_sort.py:13 | the list with positions `i` and `j` exchanged and every other position unchanged |
| SortSpec.Initial | insertion_sort.py:2 | the first step of every annotated trace: the untouched input, nothing compared or swapped |
| SortSpec.SwapPermutes | quick_sort.py:20 | a swap only rearranges the list (its multiset is unchanged) |
| SortSpec.LeftmostMin | selection_sort.py:9-10 | the index a strict-`<` scan keeps: it holds the minimum of `s[lo..hi)`, and every earlier index holds a strictly larger value |
| SortSpec.SwapMinExtends | selection_sort.py:12-13 | swapping the leftmost minimum of `s[i..]` into place `i` extends a sorted prefix of smallest values by one place |
| SortSpec.PartitionedSorted | selection_sort.py:3 | once every place but the last holds a sorted prefix of smallest values, the list is sorted, so `len - 1` passes suffice |
| SortSpec.MarkedSnapshots | code.py:97 | the lists a marked trace records, one per step and in order: a `code.py` trace is the `Test.py` trace with the marks dropped |
| SortSpec.MarkedSnapshotsAppend | code.py:97 | recording two traces in turn records their lists in turn |
| InsertionSort.ShiftLoop | insertion_sort.py:8-12 | the shift loop keeps the length and ends with `-1 <= j <= ` its start |
| InsertionSort.ShiftThenLoop | insertion_sort.py:9-12 | one shift round followed by the loop: same bounds on `j` |
| InsertionSort.InsertPass | insertion_sort.py:4-15 | pass `i` keeps the list length |
| InsertionSort.InsertPasses | insertion_sort.py:3-15 | the passes `i..len-1` keep the list length |
| InsertionSort.InsertionSortRun | insertion_sort.py:2-15 | the trace opens with the untouched input and empty annotations; for length at most one it is the only step |
| InsertionSort.ShiftStops | insertion_sort.py:8 | the loop stops at the first `l[j] <= current` (strict `>`) or at `j == -1`, and passes only values greater than `current` |
| InsertionSort.ShiftMoves | insertion_sort.py:8-12 | the loop copies exactly the block it passed over one place right (`l[j + 1] = l[j]`) |
| InsertionSort.ShiftSteps | insertion_sort.py:8-12 | per shift, `comparing=[j, j+1]` then `swapped=[j, j+1]`, whose snapshot holds the moved value twice |
| InsertionSort.ShiftCount | insertion_sort.py:8-12 | on a sorted prefix the loop shifts exactly the prefix elements greater than `current` |
| InsertionSort.InsertPassLayout | insertion_sort.py:4-15 | after pass `i`: the prefix up to the stop unchanged, then `current`, then the shifted block, then the rest unchanged |
| InsertionSort.InsertPassSorts | insertion_sort.py:3-15 | after pass `i`, `l[0..i]` is a sorted rearrangement of the old `l[0..i]`, `l[i+1..]` is unchanged, and the whole list is a rearrangement |
| InsertionSort.InsertPassPermutes | insertion_sort.py:10-14 | placing `current` restores the multiset of `l[0..i]` and of the whole list |
| InsertionSort.InsertPassOrders | insertion_sort.py:3-15 | pass `i` on a sorted `l[0..i-1]` leaves `l[0..i]` sorted |
| InsertionSort.InsertPassSteps | insertion_sort.py:6-15 | pass `i` appends exactly `2 + 2g` steps, `g` the prefix elements greater than `current`: `comparing=[i]` first, one compare/write pair per shift, then `swapped=[j+1]` holding the input's values |
| InsertionSort.InsertPassesSort | insertion_sort.py:3-15 | the remaining passes from a list sorted up to `i` leave a sorted rearrangement |
| InsertionSort.InsertionSortSorts | insertion_sort.py:2-15 | the result is the ascending rearrangement of the input |
| InsertionSort.InsertionSort | insertion_sort.py:1-19 | the in-place sort leaves and returns what the specification says; the array ends sorted and rearranged |
| InsertionSort.InsertPassInPlace | insertion_sort.py:4-15 | one outer round in place equals `InsertPass` |
| InsertionSort.ShiftInPlace | insertion_sort.py:8-12 | the `while` loop in place equals `ShiftLoop` |
| InsertionSort.ShiftOne | insertion_sort.py:9-11 | one shift writes `l[j]` into `l[j+1]` and records the compare and write steps |
| SelectionSort.MinScan | selection_sort.py:7-10 | the scan's `min_index` stays in range, at or after where it started |
| SelectionSort.SelectPass | selection_sort.py:4-14 | pass `i` keeps the list length |
| SelectionSort.SelectPasses | selection_sort.py:3-14 | the passes keep the list length |
| SelectionSort.SelectionSortRun | selection_sort.py:2-14 | passes run for `i` in `0..len-2`; for length at most one the trace is only the initial step |
| SelectionSort.MinScanFinds | selection_sort.py:9-10 | `min_index` ends as the smallest index holding the minimum of `l[i..]` |
| SelectionSort.MinScanRounds | selection_sort.py:7-10 | one `comparing=[j, min_index]` per `j`, with `min_index` as it was before `j` is compared |
| SelectionSort.SelectPassState | selection_sort.py:12-13 | pass `i` swaps the leftmost minimum into place `i`, and leaves the list as it was when the minimum is already there |
| SelectionSort.SelectPassSteps | selection_sort.py:5-14 | pass `i` records `comparing=[i]`, the scan rounds, and `swapped=[i, min_index]` exactly when `min_index != i` |
| SelectionSort.SelectPassExtends | selection_sort.py:3-14 | after pass `i`, `l[0..i]` is sorted and no larger than anything in `l[i+1..]`; every snapshot is a rearrangement |
| SelectionSort.SelectPassSnapshots | selection_sort.py:12-14 | every snapshot of a pass is a rearrangement of the input |
| SelectionSort.SelectPassesSort | selection_sort.py:3-14 | the passes from a partitioned prefix sort the list, every snapshot a rearrangement |
| SelectionSort.SelectionSortSorts | selection_sort.py:2-14 | the result is sorted and rearranged, and every snapshot is a rearrangement of the input |
| SelectionSort.SelectionSort | selection_sort.py:1-18 | the in-place sort equals the specification, ends sorted and rearranged, and its snapshots are rearrangements |
| SelectionSort.SelectPassInPlace | selection_sort.py:4-14 | one outer round in place equals `SelectPass` |
| MergeSort.MergeRuns | merge_sort.py:23-30 | the reference merge of two runs, one value per source value |
| MergeSort.MergeRunsPermutes | merge_sort.py:23-30 | a merge holds exactly the values of both runs |
| MergeSort.MergeRunsSorted | merge_sort.py:23-30 | merging sorted runs gives a sorted run, whichever way ties go |
| MergeSort.Buffered | merge_sort.py:8-18 | entry `i` of buffer `L` or `R`: the sentinel `inf` exactly at index `n1` (the run's length), the run's value before it |
| MergeSort.AtMost | merge_sort.py:25 | Python's `<=` once `inf` is in play: everything is at most `inf`, `inf` is at most only `inf`, and finite values compare as integers |
| MergeSort.TakesLeft | merge_sort.py:25 | `L[i] <= R[j]` on the sentinel buffers: ties go left, and an exhausted run is never drawn from |
| MergeSort.MergeFrom | merge_sort.py:23-31 | the write loop keeps the list length |
| MergeSort.MergeWrite | merge_sort.py:24-31 | one write round keeps the list length |
| MergeSort.Merge | merge_sort.py:4-31 | `merge` keeps the list length |
| MergeSort.MergeSortRange | merge_sort.py:33-38 | `merge_sort_helper` keeps the list length; it recurses on strictly smaller halves |
| MergeSort.SortHalves | merge_sort.py:34-38 | the two recursive calls and the merge keep the list length |
| MergeSort.MergeSortRun | merge_sort.py:2-40 | the trace opens with the initial step; for length at most one nothing else is appended |
| MergeSort.MergeFromState | merge_sort.py:23-31 | the loop leaves `A[k..r]` holding the merge of what is left of the runs, ties from the left, and nothing else changed |
| MergeSort.MergeWriteState | merge_sort.py:24-31 | the same, from a round that writes one value |
| MergeSort.MergeRunsAdvance | merge_sort.py:25-30 | the value `merge` writes is the head of the reference merge |
| MergeSort.MergeFromSteps | merge_sort.py:23-31 | two steps per position written, in position order, none differing from `A` outside the positions still to be written |
| MergeSort.MergeLayout | merge_sort.py:4-31 | after `merge`, `A[p..r]` is the merge of the two runs, ties from the left, and the rest unchanged |
| MergeSort.MergeSteps | merge_sort.py:23-31 | `merge` appends exactly `2(r-p+1)` steps, `comparing=[k]` then `swapped=[k]` for each `k` in `p..r`, touching nothing outside `A[p..r]` |
| MergeSort.MergeSorts | merge_sort.py:4-31 | merging adjacent sorted ranges leaves `A[p..r]` sorted and rearranged and the rest alone |
| MergeSort.MergeWork | merge_sort.py:33-38 | the writes of `merge_sort_helper(A, p, r)`: at least `r - p + 1` when `p < r` |
| MergeSort.MergeSortRangeSorts | merge_sort.py:33-38 | `merge_sort_helper` sorts and rearranges `A[p..r]` and leaves the rest alone |
| MergeSort.SortHalvesSorts | merge_sort.py:34-38 | both halves and the merge sort the range |
| MergeSort.MergeSortRangeSteps | merge_sort.py:33-38 | its trace is `MergeWork(p, r)` write pairs inside `A[p..r]`, no snapshot differing outside |
| MergeSort.SortHalvesSteps | merge_sort.py:34-38 | the trace of both halves and the merge |
| MergeSort.MergeSortSorts | merge_sort.py:2-40 | the result is sorted and rearranged; after the initial step the trace is write pairs over the list |
| MergeSort.MidMergeDuplicates | merge_sort.py:23-31 | mid-merge snapshots need not be rearrangements: sorting `[2, 1]` records `[1, 1]` |
| MergeSort.MergeTwoOne | merge_sort.py:4-31 | the full trace of `merge([2, 1], 0, 0, 1)` |
| MergeSort.LastWrite | merge_sort.py:23-31 | its last round writes the left run's `2` at index 1 |
| MergeSort.MergeSort | merge_sort.py:1-43 | the in-place sort equals the specification and ends sorted and rearranged |
| MergeSort.MergeSortHelper | merge_sort.py:33-38 | the recursion in place equals `MergeSortRange` |
| MergeSort.MergeInPlace | merge_sort.py:4-31 | `merge` in place equals `Merge` |
| MergeSort.CopyRun | merge_sort.py:8-15 | a buffer is a fresh copy of its run |
| MergeSort.MergeBack | merge_sort.py:20-31 | the write loop over the buffers equals `MergeFrom` |
| MergeSort.WriteRound | merge_sort.py:24-31 | one round advances exactly one buffer position and equals `MergeWrite` |
| QuickSort.ScanDown | quick_sort.py:11-12 | the downward scan stays at or below where it started |
| QuickSort.ScanDownStops | quick_sort.py:11-12 | with a value at most the pivot in range, `j` stops at the last such position, inside `[low, high]` |
| QuickSort.ScanUp | quick_sort.py:15-16 | the upward scan stays at or above where it started |
| QuickSort.ScanUpStops | quick_sort.py:15-16 | with a value at least the pivot in range, `i` stops at the first such position, inside `[low, high]` |
| QuickSort.SwapKeepsInv | quick_sort.py:18-20 | a swapping round keeps the loop invariant |
| QuickSort.HoareLoop | quick_sort.py:9-23 | the loop returns a `j` with `low <= j < high` |
| QuickSort.SwapThenLoop | quick_sort.py:18-21 | after a swap the loop still returns `low <= j < high` |
| QuickSort.RoundScans | quick_sort.py:10-16 | where one round's scans stop, and that a swap there keeps the invariant |
| QuickSort.RoundUnfolds | quick_sort.py:9-23 | a round swaps and records `comparing=[i, j]`/`swapped=[i, j]` when `i < j`, and otherwise returns `j` |
| QuickSort.Partition | quick_sort.py:4-23 | `partition` with pivot `l[low]` returns `low <= j < high` |
| QuickSort.QuickSortRange | quick_sort.py:25-29 | `quick_sort_helper` keeps the list length; both recursive ranges are strictly smaller |
| QuickSort.PartitionSort | quick_sort.py:26-29 | the body for `low < high` keeps the list length |
| QuickSort.QuickSortRun | quick_sort.py:2-31 | the trace opens with the initial step |
| QuickSort.HoareLoopSplits | quick_sort.py:9-23 | the returned `j` splits the range: `l[low..j]` at most the pivot, `l[j+1..high]` at least it |
| QuickSort.HoareLoopSwaps | quick_sort.py:9-23 | `partition` only swaps inside the range, with `i < j` |
| QuickSort.PartitionSplits | quick_sort.py:4-23 | `low <= j < high`, the split around `l[low]`, the range rearranged, the rest unchanged |
| QuickSort.PartitionTrace | quick_sort.py:18-21 | its steps are swap pairs inside the range, every snapshot a rearrangement |
| QuickSort.QuickSortRangeSorts | quick_sort.py:25-29 | `quick_sort_helper` sorts and rearranges `l[low..high]` and leaves the rest alone |
| QuickSort.PartitionSortSorts | quick_sort.py:26-29 | partitioning and sorting both parts sorts the range |
| QuickSort.SortedAfterCalls | quick_sort.py:27-29 | partition followed by the calls on `(low, q)` and `(q+1, high)` sorts and rearranges the range |
| QuickSort.QuickSortRangeSteps | quick_sort.py:25-29 | every snapshot is a rearrangement, each swap a pair inside `[low, high]`, nothing outside touched |
| QuickSort.PartitionSortSteps | quick_sort.py:26-29 | the same for the partition and both calls |
| QuickSort.QuickSortSorts | quick_sort.py:1-31 | the result is sorted and rearranged, every snapshot is a rearrangement, and the trace after the first step is swap pairs |
| QuickSort.QuickSort | quick_sort.py:1-34 | the in-place sort equals the specification, ends sorted and rearranged, and its snapshots are rearrangements |
| QuickSort.QuickSortHelper | quick_sort.py:25-29 | the recursion in place equals `QuickSortRange` |
| QuickSort.PartitionInPlace | quick_sort.py:4-23 | `partition` in place equals `Partition` |
| QuickSort.HoareLoopInPlace | quick_sort.py:9-23 | the `while True` loop in place equals `HoareLoop` |
| QuickSort.PartitionRound | quick_sort.py:10-21 | one round in place: both scans, and the swap with its two steps exactly when `i < j` |
| QuickSort.ScanDownInPlace | quick_sort.py:11-12 | the scan in place equals `ScanDown` |
| QuickSort.ScanUpInPlace | quick_sort.py:15-16 | the scan in place equals `ScanUp` |
| SwapInsertionSort.SinkLoop | Test.py:101-104 | the adjacent-swap loop keeps the length |
| SwapInsertionSort.SwapThenSink | Test.py:102-104 | one swap round and the rest keep the length |
| SwapInsertionSort.SinkPasses | Test.py:99-104 | the passes keep the length |
| SwapInsertionSort.SwapInsertionRun | Test.py:98-104 | the trace opens with the untouched input, nothing marked; for length at most one that is all |
| SwapInsertionSort.InversionsSwap | Test.py:101-102 | swapping a strict inversion of neighbours removes exactly one inversion |
| SwapInsertionSort.SortedNoInversions | Test.py:101 | a sorted list has no inversions |
| SwapInsertionSort.SwapsInversionsCount | Test.py:101-104 | a trace of inversion swaps is exactly as long as the inversions it removes |
| SwapInsertionSort.SwapsInversionsPermute | Test.py:102 | along it every list is a rearrangement of the input |
| SwapInsertionSort.SinkLoopSorts | Test.py:101-104 | the loop leaves `arr[0..i]` sorted and the rest alone |
| SwapInsertionSort.SinkStepKeeps | Test.py:101-103 | a swap keeps the loop invariant |
| SwapInsertionSort.SinkLoopTrace | Test.py:101-104 | each recorded step swaps a strict inversion and marks `[j, j+1]` |
| SwapInsertionSort.SinkPassesSort | Test.py:99-104 | the passes from a sorted prefix sort the list by inversion swaps |
| SwapInsertionSort.SwapInsertionSorts | Test.py:97-106 | sorted and rearranged; every later step swaps one strict inversion, so there are `1 + Inversions(input)` steps, each a rearrangement |
| SwapInsertionSort.InsertionSortMarked | Test.py:97-106 | the in-place sort equals the specification |
| SwapInsertionSort.SinkInPlace | Test.py:100-104 | one pass in place equals `SinkLoop` |
| SwapInsertionSort.SwapDown | Test.py:102-104 | one round swaps `arr[j-1]`, `arr[j]` and records the marked list |
| SwapInsertionSort.InsertionSortPlain | code.py:90-99 | code.py's sort: the same list, and the trace is Test.py's with the marks dropped |
| SwapSelectionSort.SwapPasses | Test.py:151-157 | the passes keep the length |
| SwapSelectionSort.SwapThenPass | Test.py:152-157 | one pass and the rest keep the length |
| SwapSelectionSort.SwapSelectionRun | Test.py:150-157 | the trace opens with the input, nothing marked |
| SwapSelectionSort.SwapPassesSort | Test.py:151-157 | the passes sort and rearrange, one step per pass |
| SwapSelectionSort.SwapPassesSteps | Test.py:151-157 | each step marks `[i, min_idx]`, `min_idx` the leftmost minimum of `arr[i:]` in the list the step before left, and shows that list with the two swapped: a rearrangement whose first `i + 1` places are final |
| SwapSelectionSort.SwapPassesMinSwaps | Test.py:151-157 | the passes from `i` record one step per pass, each swapping the leftmost minimum of the rest into place `i` of the list the step before left and marking `[i, min_idx]` |
| SwapSelectionSort.PassStepFirst | Test.py:152-157 | the unconditional swap extends the final prefix, even when `min_idx == i` |
| SwapSelectionSort.SwapSelectionSorts | Test.py:149-159 | sorted and rearranged, exactly `len + 1` steps; each later step swaps the leftmost minimum of the rest into place `i` of the list before, marks `[i, min_idx]`, and shows the prefix `0..i` final |
| SwapSelectionSort.MinIndex | Test.py:152-155 | the scan finds the leftmost minimum of `arr[i:]` |
| SwapSelectionSort.SwapMinInPlace | Test.py:152-156 | the pass swaps it into place `i` |
| SwapSelectionSort.SelectionSortMarked | Test.py:149-159 | the in-place sort equals the specification |
| SwapSelectionSort.SelectionSortPlain | code.py:142-152 | code.py's sort: the same list, and the trace is Test.py's with the marks dropped |
| HalfOpenMergeSort.TakesLeftStrict | code.py:111 | the test never reads an exhausted run and takes `right[j]` on ties |
| HalfOpenMergeSort.WriteFrom | code.py:110-118 | the write loop keeps the length |
| HalfOpenMergeSort.WriteNext | code.py:111-118 | one write round keeps the length |
| HalfOpenMergeSort.MergeHalves | code.py:108-118 | the merge step keeps the length |
| HalfOpenMergeSort.HalfSort | code.py:103-118 | `merge_sort_helper` keeps the length |
| HalfOpenMergeSort.SortSplit | code.py:104-118 | both calls and the merge keep the length |
| HalfOpenMergeSort.HalfMergeSortRun | code.py:101-119 | for length at most one nothing is yielded |
| HalfOpenMergeSort.RunsAdvance | code.py:111-116 | the written value is the head of the reference merge with ties going right |
| HalfOpenMergeSort.WriteFromState | code.py:110-116 | the loop leaves `[k, r)` holding that merge, nothing else changed |
| HalfOpenMergeSort.WriteNextState | code.py:111-116 | the same from one round |
| HalfOpenMergeSort.WriteFromLists | code.py:110-118 | after each write the recorded list shows one more value of the merge |
| HalfOpenMergeSort.WriteNextLists | code.py:111-118 | the same from one round |
| HalfOpenMergeSort.MergeHalvesLayout | code.py:108-118 | `[l, r)` holds the merge of the halves, the rest unchanged, one list per position, each unchanged outside `[l, r)` |
| HalfOpenMergeSort.MergeHalvesSorts | code.py:108-118 | merging sorted halves leaves `[l, r)` sorted and rearranged |
| HalfOpenMergeSort.HalfSortSorts | code.py:103-118 | `merge_sort_helper` sorts and rearranges `[l, r)`, leaving the rest |
| HalfOpenMergeSort.SortSplitSorts | code.py:104-118 | both calls and the merge sort the range |
| HalfOpenMergeSort.HalfWork | code.py:103-118 | the yields of `merge_sort_helper`: at least `r - l` when `r - l > 1` |
| HalfOpenMergeSort.HalfSortLists | code.py:103-118 | `HalfWork(l, r)` lists, one per destination index of every merged range, each unchanged outside `[l, r)` |
| HalfOpenMergeSort.SortSplitLists | code.py:104-118 | the same for both calls and the merge |
| HalfOpenMergeSort.HalfMergeSortSorts | code.py:101-120 | sorted and rearranged, `HalfWork(0, len)` yields, each a full-length list |
| HalfOpenMergeSort.MergeDuplicates | code.py:108-118 | yielded lists need not be rearrangements: sorting `[2, 1]` yields `[1, 1]` |
| HalfOpenMergeSort.HalfMergeSort | code.py:101-120 | run to exhaustion: the array is sorted, and `steps` is the initial list followed by the yielded lists |
| HalfOpenMergeSort.HalfSortInPlace | code.py:103-118 | the recursion in place equals `HalfSort` |
| HalfOpenMergeSort.MergeHalvesInPlace | code.py:108-118 | the merge in place equals `MergeHalves` |
| HalfOpenMergeSort.WriteHead | code.py:111-116 | one round advances exactly one run and equals `WriteNext` |
| LomutoQuickSort.ScanFrom | code.py:128-133 | the scan keeps the length and `i` stays in `[i, high]` |
| LomutoQuickSort.ScanAt | code.py:129-133 | one round and the rest: same bounds |
| LomutoQuickSort.LomutoPartition | code.py:126-136 | the partition puts the pivot at `low <= i <= high` |
| LomutoQuickSort.LomutoRange | code.py:124-138 | `quick_sort_helper` keeps the length |
| LomutoQuickSort.SortAround | code.py:125-138 | the body for `low < high` keeps the length; both ranges leave out the pivot |
| LomutoQuickSort.LomutoRun | code.py:122-140 | for length at most one nothing is yielded |
| LomutoQuickSort.ScanFromSplits | code.py:128-133 | the scan ends with `[low, i)` below the pivot and `[i, high)` at least it |
| LomutoQuickSort.ScanSwapKeeps | code.py:129-131 | a swap of a smaller value to `i` keeps the invariant |
| LomutoQuickSort.ScanFromKeeps | code.py:128-133 | the scan rearranges and leaves everything outside `[i, high)` alone |
| LomutoQuickSort.ScanFromCounts | code.py:128-133 | `i` advances once per value below the pivot |
| LomutoQuickSort.ScanFromLists | code.py:128-133 | one list per value below the pivot (self-swaps included), each a rearrangement |
| LomutoQuickSort.PartitionSplits | code.py:126-136 | after the pivot swap: `array[low..i-1] < pivot`, `array[i] == pivot`, `array[i+1..high] >= pivot`, only that range rearranged |
| LomutoQuickSort.PartitionCounts | code.py:126-136 | `i - low` is the number of values below the pivot, and there is one more list, for the pivot placement |
| LomutoQuickSort.PartitionLists | code.py:126-136 | every list of the partition is a rearrangement, unchanged outside `[low, high]` |
| LomutoQuickSort.LomutoRangeSorts | code.py:124-138 | `quick_sort_helper` sorts and rearranges `[low, high]`, leaving the rest |
| LomutoQuickSort.SortAroundSorts | code.py:125-138 | partitioning and sorting both sides sorts the range |
| LomutoQuickSort.SortedAfterCalls | code.py:134-138 | the partition and the calls on `(low, i-1)` then `(i+1, high)` sort the range |
| LomutoQuickSort.LomutoRangeLists | code.py:124-138 | every yielded list is a rearrangement, unchanged outside `[low, high]` |
| LomutoQuickSort.SortAroundLists | code.py:125-138 | the same for the partition and both calls |
| LomutoQuickSort.LomutoSorts | code.py:122-140 | sorted and rearranged, and every yielded list is a rearrangement of the input |
| LomutoQuickSort.LomutoQuickSort | code.py:122-140 | run to exhaustion: the array is sorted, and `steps` is the initial list followed by the yielded lists |
| LomutoQuickSort.LomutoHelper | code.py:124-138 | the recursion in place equals `LomutoRange` |
| LomutoQuickSort.PartitionInPlace | code.py:126-136 | the partition in place equals `LomutoPartition` |
| LomutoQuickSort.ScanInPlace | code.py:128-133 | the `for j` loop in place equals `ScanFrom` |
| Graphs.Neighbors | Test.py:42 | `graph.neighbors(node)`: the targets of the node's edges, in order |
| Graphs.WeightOf | Test.py:72 | `.get('weight', 1)`: 1 when the attribute is missing, the weight otherwise |
| Graphs.VisitSnapshots | Test.py:40-41 | the `visited[:]` copies taken after each visit, one per visit |
| Graphs.VisitSnapshotsAppend | Test.py:40-41 | visiting one more node appends one snapshot, the new visited list |
| Graphs.SnapshotsExtend | Test.py:39-41 | for a repeat-free order from `start`: the first step is `[start]`, each step adds one new node, and the last is the order |
| BreadthFirst.BfsLoop | Test.py:37-44 | the `while queue:` loop ends with a visited list that extends the one it started with |
| BreadthFirst.BfsOrder | Test.py:33-44 | from `queue = [start_node]` and an empty visited list, the start is visited first |
| BreadthFirst.EnqueueNew | Test.py:42-44 | the queue grows only at the back, only by neighbours |
| BreadthFirst.EnqueueNewKeeps | Test.py:42-44 | no node is queued twice or queued once visited, and every neighbour ends visited or queued |
| BreadthFirst.BfsRoundKeeps | Test.py:37-44 | the pop never finds a visited node, and every round keeps the invariant |
| BreadthFirst.BfsLoopFifo | Test.py:37-44 | FIFO: the visited list followed by the queue is a prefix of the final order, which has no repeats |
| BreadthFirst.BfsLoopCloses | Test.py:37-44 | the final order is closed under neighbours, holds the start, and holds only reachable nodes |
| BreadthFirst.BfsOrderReaches | Test.py:33-46 | the order starts with the start, has no repeats, and holds exactly the reachable nodes |
| BreadthFirst.BfsTrace | Test.py:33-46 | the first step is `[start]`, each later step adds one new node, and the last step holds exactly the reachable nodes |
| BreadthFirst.Bfs | Test.py:33-46 | the search returns the snapshots of `BfsOrder`, or the missing-node failure |
| BreadthFirst.EnqueueNeighbors | Test.py:42-44 | the inner loop equals `EnqueueNew` |
| DepthFirst.DfsOrder | Test.py:48-57 | `dfs(graph, start_node)` with fresh lists visits the start first |
| DepthFirst.DfsVisit | Test.py:53-57 | a call appends `node` right after the current visited list, before anything else |
| DepthFirst.DfsEach | Test.py:55-57 | the loop over neighbours only extends the visited list |
| DepthFirst.DfsVisitCloses | Test.py:53-57 | a call returns only once every neighbour of every node it visited is visited |
| DepthFirst.DfsEachCloses | Test.py:55-57 | the loop visits every neighbour and closes what it visited |
| DepthFirst.DfsVisitReaches | Test.py:53-57 | every node a call visits is reachable from its node |
| DepthFirst.DfsEachReaches | Test.py:55-57 | the same for the loop |
| DepthFirst.DfsVisitNoDup | Test.py:53-57 | no node is visited twice |
| DepthFirst.DfsEachNoDup | Test.py:55-57 | the same for the loop |
| DepthFirst.DfsVisitWhitePath | Test.py:53-57 | pre-order: a call returns only after visiting every node reachable from its node through unvisited nodes |
| DepthFirst.DfsOrderReaches | Test.py:48-58 | the order starts with the start, has no repeats, and holds exactly the reachable nodes |
| DepthFirst.DfsTrace | Test.py:48-58 | the first step is `[start]`, each later step adds one new node, and the last holds exactly the reachable nodes |
| DepthFirst.Dfs | Test.py:48-58 | the search returns the snapshots of `DfsOrder`, or the missing-node failure |
| DepthFirst.DfsFrom | Test.py:53-57 | the recursive call in place equals `DfsVisit`, and appends one snapshot per new visit |
| DepthFirst.DfsNeighbor | Test.py:56-57 | an unvisited neighbour is searched, a visited one skipped |
| UniformCost.StrLess | Test.py:67 | Python's string `<`: a proper prefix comes first, and no string is less than itself |
| UniformCost.EntryLess | Test.py:67 | Python's `<` on `(cost, node)` tuples: a lower cost comes first, a higher cost never does, and no pair is less than itself |
| UniformCost.StrLessIrreflexive | Test.py:67 | Python string `<` is irreflexive |
| UniformCost.StrLessTransitive | Test.py:67 | and transitive |
| UniformCost.StrLessTotal | Test.py:67 | and total on different strings |
| UniformCost.EntryOrder | Test.py:67 | `(cost, node)` tuple order is a strict total order |
| UniformCost.LeastAt | Test.py:67 | `heappop`'s pick is an index of the heap |
| UniformCost.LeastAtIsLeast | Test.py:67 | and no pair in the heap is smaller than it |
| UniformCost.Without | Test.py:67 | the heap after the pop: one pair fewer, every other pair kept, nothing new |
| UniformCost.RelaxFrom | Test.py:71-76 | relaxing only appends to the heap, keeps every recorded node, and pushes only neighbours |
| UniformCost.RelaxInGraph | Test.py:71-76 | pushed nodes are nodes of the graph |
| UniformCost.RelaxRecords | Test.py:74-76 | each recorded cost is unchanged or has its pair pushed |
| UniformCost.RelaxCosts | Test.py:72-75 | each neighbour's cost becomes `cost + weight` (weight default 1) if it had none or that is strictly lower, and stays otherwise |
| UniformCost.RelaxKeepsOthers | Test.py:71-76 | nodes that are not neighbours keep their cost |
| UniformCost.RelaxPushesOnly | Test.py:72-76 | a pair is pushed only for a neighbour with no cost or a strictly higher one |
| UniformCost.RelaxPushesAll | Test.py:72-76 | every such neighbour's pair is pushed |
| UniformCost.Improves | Test.py:74 | the relaxation test: a neighbour without a cost always improves, and one that does not already has a cost no higher than `cost + edge_weight` |
| UniformCost.UcsLoop | Test.py:66-76 | the loop runs until the heap is empty: it pops at least as many pairs as the heap holds, and the visited list only grows |
| UniformCost.UcsPop | Test.py:67-76 | one round on a non-empty heap and the rest of the loop: the same |
| UniformCost.UcsFrom | Test.py:61-76 | from `queue = [(0, start_node)]` and `costs = {start_node: 0}`, the first pair popped is `(0, start)` and the start is visited first |
| UniformCost.UcsOrder | Test.py:60-78 | the visit order of `ucs` begins with the start |
| UniformCost.StaleKeeps | Test.py:67-68 | popping a stale pair keeps the invariant |
| UniformCost.VisitKeeps | Test.py:68-76 | visiting a fresh node and relaxing keeps the invariant |
| UniformCost.UcsLoopCloses | Test.py:66-76 | the final order is closed under neighbours, holds the start, and holds only reachable nodes |
| UniformCost.UcsLoopNoDup | Test.py:66-76 | the visited list only grows, without repeats |
| UniformCost.UcsSkipsStale | Test.py:66-70 | stale pairs are skipped without a step: the order is the popped nodes, each at its first pop |
| UniformCost.RelaxCostsMore | Test.py:72-76 | with weights of at least 1 every pushed pair costs more than the popped one |
| UniformCost.UcsPopsAscend | Test.py:66-76 | with weights of at least 1 pairs pop in non-decreasing tuple order |
| UniformCost.UcsPopOrder | Test.py:60-78 | with weights of at least 1 (Test.py:229): the start pops first, popped costs never decrease, and equal costs pop in node-name order |
| UniformCost.UcsOrderReaches | Test.py:60-78 | the order starts with the start, has no repeats, and holds exactly the reachable nodes |
| UniformCost.UcsFirstVisit | Test.py:62-70 | the start is visited first |
| UniformCost.UcsTrace | Test.py:60-78 | the first step is `[start]`, each later step adds one new node, and the last holds exactly the reachable nodes |
| UniformCost.Ucs | Test.py:60-78 | the search returns the snapshots of `UcsOrder`, or the missing-node failure |
| UniformCost.RelaxNeighbors | Test.py:71-76 | the inner loop equals `RelaxFrom` |

## Left out

- The Streamlit UI, `draw_graph`, `draw_bars`, `time.sleep` pacing and `main` (Test.py:18-30, 81-95, 162-335; code.py:21-31, 84-88, 156-260): rendering, with no behaviour to state.
- `save_log` and the `logs` directory (Test.py:9-15, code.py:11-17), and the optional `save_log` callbacks of the standalone sorts: file output. The callbacks are taken as absent.
- main.py, a to-do list driven by `input()` and `print()`, shares no code with the visualiser and is left out, as is the `print` tail of selection_sort.py (lines 20-22).
- Input parsing and random data in the UI: the sorts take any list of integers.
- Generator suspension: `merge_sort` and `quick_sort` of Test.py and code.py are run to exhaustion. The model states the yielded lists and `steps` as the initial list followed by them.
- `float('inf')` sentinels of merge_sort.py: they are an `Inf` entry after each buffer (`MergeSort.Buffered`), not a floating-point value. The lists hold integers only.
- networkx internals: a graph is an ordered adjacency map.
  - `Graphs.Adjacency` requires what networkx guarantees: every neighbour is a node, and no node lists a neighbour twice.
  - Directed and undirected graphs differ only in which edges the map lists.
- The `heapq` layout: the heap is the sequence of pushed pairs, and `heappop` is extract-min in tuple order (`UniformCost.LeastAt`). The position of each pair in the binary heap is not modelled.
- A start node missing from the graph makes `graph.neighbors` raise after the first snapshot. The model's result is `UnknownNode(start)`, not a propagating exception.
- DepthFirst.Dfs: Python's recursion limit is not modelled. A very deep graph raises `RecursionError` in the source but not in the model.
- UniformCost.Ucs: the model does not prove that the recorded costs are shortest-path costs. The source does not promise this, and the trace does not show it.
- UniformCost.UcsPopOrder: it assumes weights of at least 1, which the edge form enforces (Test.py:229). For other weights the model proves only reachability and the shape of the trace.
- MergeSort.MergeRuns: stability is stated as "ties are taken from the left run" (`tiesLeft`). With plain integers there is no satellite data whose order could be observed. The same holds for HalfOpenMergeSort.TakesLeftStrict with ties going right.
- MergeSort.MergeWork and HalfOpenMergeSort.HalfWork: the number of writes is a recursive count with a lower bound. No closed form is given.
