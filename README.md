# Merge sort with a scatter / sort / gather pipeline, in Dafny

This project models the sequential merge sort of `MergeSort_MPI.cpp` and the
two-phase parallel sort that the program's `main` builds on it.

- `merge` merges two adjacent runs `a[low..mid]` and `a[mid+1..high]` into the scratch
  array `b`, at the same absolute indices. It uses two cursors and takes the left head
  when the keys are equal. It then copies the rest of the run that is not used up, and
  copies `b[low..high]` back into `a`.
- `mergeSort` is the top-down recursion. It splits at `(low+high)/2` and does nothing
  when `low >= high`.
- `main` scatters an array of N ints from rank 0 into W blocks of N/W. Every rank sorts
  its block with `mergeSort`, and the sorted blocks are gathered at rank 0 in rank order.
  Rank 0 then runs `mergeSort` once more over the whole gathered array.

The project has four modules, one per file:

- `sorting.dfy`, module `Sorting`: the value-level specification.
  - `Merge` is the two-cursor merge of two sequences.
  - `Sort` is the top-down merge sort with the source's split point.
  - The lemmas prove that the result is sorted, that it is a permutation of the input,
    and that it is stable. Stability is where the left-first tie-break shows.
  - They also prove that sorting an already sorted sequence changes nothing, and that on
    ints the result is the unique ascending permutation of the input.
  - Elements are compared through an integer key. The source's ints are the instance
    `key == IntKey`.
- `merge_sort.dfy`, module `MergeSortArray`: `merge` and `mergeSort` as methods over
  `array<int>`, with the source's loops and loop invariants.
  - Each method's postcondition states the array's whole new state in terms of
    `Sorting.Merge` or `Sorting.Sort`.
  - The lemmas `MergedRange` and `SortedRange` turn that state into the promised
    properties: a sorted range, a permutation, and everything outside the range unchanged.
- `pipeline.dfy`, module `Pipeline`: the pipeline in two forms.
  - As functions: `Scatter` cuts the array into blocks, `SortEach` sorts every block,
    `Gather` concatenates the blocks in rank order, and `TwoPhaseSort` sorts the gathered
    result.
  - As a method, `RunPipeline`, which runs the ranks one after another over arrays, calls
    the array merge sort, and is proved to compute `TwoPhaseSort`.
  - The lemmas prove that the result is sorted, a permutation and stable. On ints it is
    exactly what one sequential merge sort of the whole array gives.
- `scenarios.dfy`, module `Scenarios`: two concrete runs worked through merge step by
  merge step. The first is eight values over two ranks; the second is four values over
  four ranks.

## Model

| member | source | states |
|---|---|---|
| Sorting.Merge | MergeSort_MPI.cpp:15-41 | the two-cursor merge: while both runs have elements, the smaller head goes first, the left run's head on equal keys; once one run is used up, the rest of the other follows unchanged (definition; its properties are the Merge lemmas below) |
| Sorting.MergeNonEmpty | MergeSort_MPI.cpp:17-24 | one step of the two-cursor loop: the left head is taken when its key is not greater than the right head's (`<=`), otherwise the right head is (definition) |
| Sorting.MergePermutation | MergeSort_MPI.cpp:15-41 | the merge holds exactly the elements of both runs (multiset equality): nothing is lost or duplicated |
| Sorting.MergeLength | MergeSort_MPI.cpp:15-41 | the merge is as long as both runs together: every output position from low to high is written once |
| Sorting.MergeKeysAtLeast | MergeSort_MPI.cpp:15-41 | a lower bound on the keys of both runs bounds every key of the merge |
| Sorting.MergeSorted | MergeSort_MPI.cpp:7-46 | merging two ascending runs gives an ascending sequence |
| Sorting.MergeStable | MergeSort_MPI.cpp:17-20 | equal keys leave in the order they came in: those of the left run first, each run's own order kept (the `<=` takes the left head on ties) |
| Sorting.MergeOfOrderedRuns | MergeSort_MPI.cpp:15-41 | when the left run followed by the right run is already ascending, the merge is exactly that concatenation |
| Sorting.Sort | MergeSort_MPI.cpp:51-69 | top-down merge sort: a sequence of at most one element is returned as it is, a longer one is split and merged (definition; its properties are the Sort lemmas below) |
| Sorting.MergeHalves | MergeSort_MPI.cpp:54-66 | the recursive case: for a range [0, n-1] the middle is (0 + n-1)/2, the halves [0, mid] and [mid+1, n-1] are sorted and then merged (definition) |
| Sorting.SortPermutation | MergeSort_MPI.cpp:51-69 | merge sort returns a permutation of its input |
| Sorting.SortLength | MergeSort_MPI.cpp:51-69 | merge sort keeps the length |
| Sorting.SortSorted | MergeSort_MPI.cpp:51-69 | merge sort returns an ascending sequence |
| Sorting.SortStable | MergeSort_MPI.cpp:51-69 | merge sort is stable: equal keys keep their input order |
| Sorting.SortFixesSorted | MergeSort_MPI.cpp:51-69 | merge sort leaves an already ascending sequence unchanged |
| Sorting.SortIdempotent | MergeSort_MPI.cpp:51-69 | sorting twice gives the same result as sorting once |
| Sorting.SortIsAscendingPermutation | MergeSort_MPI.cpp:51-69 | on ints, t is the merge sort of s if and only if t is ascending and a permutation of s |
| MergeSortArray.Merge | MergeSort_MPI.cpp:7-48 | afterwards `a` is its old prefix before low, then the merge of the old runs a[low..mid] and a[mid+1..high], then its old suffix after high; b changes only inside [low, high] |
| MergeSortArray.MergeInto | MergeSort_MPI.cpp:9-41 | b[low..high] receives the merge of the two runs; b outside [low, high] is unchanged |
| MergeSortArray.MergeHeads | MergeSort_MPI.cpp:15-26 | the two-cursor loop ends with one run used up; the output b[low..i) followed by the merge of what is left equals the merge of the whole runs; b changes only in [low, i) |
| MergeSortArray.TakeLeft | MergeSort_MPI.cpp:17-20 | when the left head is not greater than the right one, writing it to b[i] and advancing h keeps the loop invariant |
| MergeSortArray.TakeRight | MergeSort_MPI.cpp:21-24 | when the right head is strictly smaller, writing it to b[i] and advancing j keeps the loop invariant |
| MergeSortArray.FinishMerge | MergeSort_MPI.cpp:28-41 | copying the tail of whichever run is not used up completes b[low..high] as the whole merge |
| MergeSortArray.CopyRange | MergeSort_MPI.cpp:44-46 | the destination range receives the source range element for element; the rest of the destination is unchanged |
| MergeSortArray.MergeSort | MergeSort_MPI.cpp:51-69 | with valid bounds, `a` becomes its old prefix, then the merge sort of its old range [low, high], then its old suffix; when low >= high neither array changes |
| MergeSortArray.SortStep | MergeSort_MPI.cpp:54-66 | sorting [low, mid], then [mid+1, high], then merging them sorts [low, high] and leaves the rest of the array alone |
| MergeSortArray.MergedRange | MergeSort_MPI.cpp:7-48 | after merge, a[low..high] is a permutation of the two runs, it is ascending when both runs were ascending, and every other element is unchanged |
| MergeSortArray.SortedRange | MergeSort_MPI.cpp:51-69 | after mergeSort, a[low..high] is ascending and a permutation of its old contents, every other element is unchanged, and a range that was already sorted is left as it was |
| Pipeline.Scatter | MergeSort_MPI.cpp:116 | the scatter gives W blocks, each of N/W elements |
| Pipeline.ScatterBlock | MergeSort_MPI.cpp:116 | rank r receives exactly the slice [r*N/W, (r+1)*N/W) of the root's array |
| Pipeline.SortEach | MergeSort_MPI.cpp:119-120 | every rank's block is replaced by its merge sort, and the number of blocks is kept |
| Pipeline.Gather | MergeSort_MPI.cpp:146 | the gather at the root: the blocks laid out one after another in rank order (definition) |
| Pipeline.Gathered | MergeSort_MPI.cpp:116-146 | the root's receive buffer after the gather: every rank's block, sorted, in rank order (definition) |
| Pipeline.GatherLength | MergeSort_MPI.cpp:146 | gathering W blocks of n elements gives W*n elements |
| Pipeline.GatherBlock | MergeSort_MPI.cpp:146 | rank r's block lands at offsets [r*n, (r+1)*n) of the gathered array |
| Pipeline.ScatterGather | MergeSort_MPI.cpp:116-146 | gathering the scattered blocks unchanged gives back the root's array |
| Pipeline.GatherPermutation | MergeSort_MPI.cpp:146 | blocks with the same contents, block by block, gather to the same contents |
| Pipeline.GatheredPermutation | MergeSort_MPI.cpp:116-146 | the gathered array is a permutation of the root's array |
| Pipeline.GatheredRuns | MergeSort_MPI.cpp:116-146 | after the gather the root holds W ascending runs; the run at [r*N/W, (r+1)*N/W) is the sorted block of rank r |
| Pipeline.TwoPhaseSort | MergeSort_MPI.cpp:91-152 | the whole pipeline, the root's final merge sort over the gathered buffer; when W divides N its result is ascending and a permutation of the input |
| Pipeline.TwoPhaseSortStable | MergeSort_MPI.cpp:91-152 | the pipeline is stable: equal keys leave in the order they stood in the root's array |
| Pipeline.TwoPhaseSortOfSorted | MergeSort_MPI.cpp:91-152 | the pipeline leaves an ascending array unchanged |
| Pipeline.TwoPhaseSortIdempotent | MergeSort_MPI.cpp:91-152 | running the pipeline on its own output changes nothing |
| Pipeline.TwoPhaseSortMatchesSequential | MergeSort_MPI.cpp:150-152 | on ints, the pipeline gives exactly the sequential merge sort of the whole array, for any number of ranks that divides N |
| Pipeline.RunPipeline | MergeSort_MPI.cpp:91-152 | over arrays, scatter, local sort, gather and the root's final merge sort produce a fresh array equal to TwoPhaseSort of the input |
| Pipeline.ScatterSortGather | MergeSort_MPI.cpp:116-146 | the root's receive buffer ends up holding the gathered sorted blocks |
| Pipeline.SortLocalBlock | MergeSort_MPI.cpp:116-120 | a rank's local array holds the merge sort of its block of the root's array |
| Pipeline.GatherStep | MergeSort_MPI.cpp:146 | copying rank r's sorted block to offset r*N/W extends the gathered prefix by that block |
| Scenarios.TwoRanksOfFour | MergeSort_MPI.cpp:91-152 | [5,3,8,1,9,2,7,4] over 2 ranks scatters to [5,3,8,1] and [9,2,7,4], gathers to [1,3,5,8,2,4,7,9] and finishes as [1,2,3,4,5,7,8,9] |
| Scenarios.FourRanksOfOne | MergeSort_MPI.cpp:91-152 | [4,3,2,1] over 4 ranks gathers unchanged and finishes as [1,2,3,4] |

## Left out

- The MPI runtime calls (`MPI_Init`, `MPI_Comm_rank`, `MPI_Comm_size`, `MPI_Barrier`,
  `MPI_Finalize`) are left out: they are process start-up and synchronisation.
  `RunPipeline` runs the ranks one after another, and the scatter and gather become
  slicing and concatenation.
- Concurrent execution of the ranks is not modelled. Each rank owns its local and
  scratch arrays, so the order in which ranks run does not change the gathered buffer.
- `MPI_Wtime` timing and the elapsed-time report are left out: they are wall-clock
  floating point.
- Input generation with `rand()` and the fixed size 1024 are left out. The input is an
  arbitrary array of ints of any length divisible by W.
- `printf` output is left out: it is I/O.
- `malloc`/`free` are left out. Dafny's `new` arrays take their place, and deallocation
  has no counterpart.
- A world size W that does not divide N is left out. Every pipeline member requires
  `N % W == 0`. Otherwise the truncated block size leaves the tail of the receive buffer
  unwritten.
- 32-bit `int` overflow of `(low + high) / 2` and of the element values is not modelled.
  Indices and elements are unbounded integers.
- Pipeline.RunPipeline: only rank 0's view is modelled. The root's buffer is the
  function's result, and the other ranks' `sortedArray == NULL` is not represented.
- MergeSortArray.MergeSort: does not state that `b` is unchanged outside [low, high].
  The source never writes there, but the recursive call's frame on `b` is not part of the
  contract. `Merge` and `MergeInto` do state it.
- MergeSortArray.Merge: accepts empty runs (`low <= mid + 1 <= high + 1`). It is
  therefore more general than the calls the source makes, which always have
  `low <= mid < high`.
