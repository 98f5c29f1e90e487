# Bottom-up MPI merge sort: a verified model of its sorting core

The program sorts `howMany * numTasks` random integers across MPI ranks.
Every rank sorts its own block with a bottom-up merge sort. Rank 0 then
gathers the sorted blocks, one after another in rank order, and sorts the
gathered array with the same merge sort. That last call starts from width
`howMany`, because every run of `howMany` values is already sorted.

This project models that sorting core in Dafny:

- `Sortedness` (`sorted.dfy`): sortedness of a sequence, the neighbour
  test that `isSorted` performs, and the fact that a multiset has only one
  sorted arrangement.
- `Merging` (`merge.dfy`): `min`, `max` and `merge`. `MergeFrom` is the
  merge as a function: it takes the left head when the right run is used up
  or when the left head is no larger than the right head. The `Merge` method
  is the loop of the source, over two arrays, proved to write exactly that
  merge.
- `Sorting` (`merge_sort.dfy`): `mergeSort`. `MergePass` is one pass over
  the array and `SortFrom` is all passes from a start width. `MergePassInto`
  is the inner loop. The `MergeSort` method is the outer loop: it swaps the
  roles of the two arrays after every pass and copies the result back when it
  ended up in the scratch array. A failed allocation of the scratch array is
  the `allocFails` parameter.
- `Aggregation` (`aggregate.dfy`): rank 0's part of `mergeAll` from the
  gather on. The gather is the concatenation `Gathered` of the per-rank
  blocks, and `MergeAll` sorts it with `mergeSort(A, n, howMany)`.
- `Scenarios` (`scenarios.dfy`): concrete scenarios: the tie rule of the
  merge, sorts from single-value runs, and a two-rank aggregation.

## Model

| member | source | states |
|---|---|---|
| Merging.Min | mpi_mergesort.cpp:12-15 | the result is at most both arguments and is one of them |
| Merging.Max | mpi_mergesort.cpp:17-20 | the result is at least both arguments and is one of them |
| Merging.MergeFrom | mpi_mergesort.cpp:54-63 | the merge loop as a function, taking the left head on ties; what is left to write after consuming `p` left and `q` right values has as many entries as values not yet consumed |
| Scenarios.TieTakesLeft | mpi_mergesort.cpp:56 | with equal heads the left one is written first: `[2, 1]` and `[2, 5]` merge to `[2, 1, 2, 5]`, not the `[2, 2, 1, 5]` a right-first rule gives |
| Merging.MergeHead | mpi_mergesort.cpp:56-63 | the first value written is the head of one of the two runs |
| Merging.MergeRightDone | mpi_mergesort.cpp:56-59 | once the right run is used up, the rest of the left run is copied in order |
| Merging.MergeLeftDone | mpi_mergesort.cpp:60-63 | once the left run is used up, the rest of the right run is copied in order |
| Merging.MergedEmptySide | mpi_mergesort.cpp:54-63 | with one run empty, the merge is a copy of the other run |
| Merging.MergeInOrderRuns | mpi_mergesort.cpp:56 | runs already in order (equal values included) come out as the left run followed by the right run |
| Merging.MergePermutes | mpi_mergesort.cpp:54-64 | every suffix of the merge is a permutation of the values not yet consumed |
| Merging.MergeSorted | mpi_mergesort.cpp:54-64 | every suffix of the merge of two sorted runs is sorted |
| Merging.MergedPermutes | mpi_mergesort.cpp:47-65 | the merge is a permutation of the two runs together |
| Merging.MergedSorted | mpi_mergesort.cpp:47-65 | the merge of two sorted runs is sorted |
| Merging.MergeAdvance | mpi_mergesort.cpp:54-64 | one loop step writes the head the comparison picks, and the merge goes on from the advanced position |
| Merging.Merge | mpi_mergesort.cpp:47-65 | `B[iLeft, iEnd)` receives the merge of `A[iLeft, iRight)` and `A[iRight, iEnd)`; the rest of `B` is untouched and `A` is only read |
| Sorting.BlocksSortedIffAligned | mpi_mergesort.cpp:87 | the run-by-run and the index form of "every aligned run of width `w` is sorted" agree, in both directions |
| Sorting.SingleRunsSorted | mpi_mergesort.cpp:81-83 | every 1-value run is sorted, so start width 1 needs nothing from the input |
| Sorting.SortedBlocks | mpi_mergesort.cpp:67-68 | a sorted array has sorted runs at every width |
| Sorting.MergePass | mpi_mergesort.cpp:88-91 | one pass keeps the length of the array |
| Sorting.MergePassPermutes | mpi_mergesort.cpp:88-91 | one pass is a permutation of the array |
| Sorting.MergePassBlocks | mpi_mergesort.cpp:87-97 | a pass turns sorted runs of width `w` into sorted runs of width `2 * w` |
| Sorting.PassStep | mpi_mergesort.cpp:88-90 | the pass from position `i` merges the two runs starting at `i`, clamped by `min` to `n`, then goes on from `min(i + 2 * width, n)` |
| Sorting.PassAdvance | mpi_mergesort.cpp:88-90 | one step of the inner loop writes that merge to `[i, min(i + 2 * width, n))` |
| Sorting.SortFrom | mpi_mergesort.cpp:84-98 | the passes from width `w`, doubling it while it is below the length, keep the length |
| Sorting.SortFromPermutes | mpi_mergesort.cpp:84-98 | all passes together are a permutation of the input |
| Sorting.SortFromSorts | mpi_mergesort.cpp:84-98 | from sorted runs of the start width, the passes produce a sorted array |
| Sorting.SortFromIsSortedPermutation | mpi_mergesort.cpp:84-98 | from sorted runs of the start width, the passes produce the one sorted permutation of the input |
| Sorting.SortFromAgrees | mpi_mergesort.cpp:67-68 | any two start widths that the input satisfies give the same result |
| Sorting.SortFromKeepsSorted | mpi_mergesort.cpp:84-98 | a sorted input comes out unchanged, whatever the start width |
| Sorting.MergePassInto | mpi_mergesort.cpp:88-91 | the inner loop writes one pass of `a[0, n)` into `b[0, n)` and nothing beyond `n` |
| Sorting.MergeSort | mpi_mergesort.cpp:69-108 | on allocation failure `list` is untouched; otherwise `list[0, n)` holds the passes from `startWidth` over the old contents, a permutation of them, sorted when the runs of `startWidth` were; nothing beyond `n` changes; with `startWidth >= n` the array is unchanged |
| Sorting.CopyBack | mpi_mergesort.cpp:103-107 | the copy back leaves `list[0, n)` equal to the scratch array and leaves the rest of `list` as it was |
| Sortedness.AdjacentOrderedIffSorted | mpi_mergesort.cpp:111-114 | no value is below its left neighbour exactly when the sequence is sorted |
| Sortedness.IsSorted | mpi_mergesort.cpp:110-115 | returns 1 exactly when `numbers[0, howMany)` is sorted and 0 exactly when it is not; returns 1 when `howMany <= 1` |
| Aggregation.GatheredTwo | mpi_mergesort.cpp:127-129 | with two ranks, the gather is the first block followed by the second |
| Aggregation.GatheredLength | mpi_mergesort.cpp:123-129 | with `howMany` values per rank, the gathered array has `howMany * numTasks` values |
| Aggregation.GatheredPermutes | mpi_mergesort.cpp:127-129 | the gathered array holds every value of every block, each as often as it occurs |
| Aggregation.GatheredBlock | mpi_mergesort.cpp:127-129 | rank `i`'s block is aligned run `i` of width `howMany` of the gathered array |
| Aggregation.GatheredBlocksSorted | mpi_mergesort.cpp:137-140 | if every rank's block is sorted, the gathered array has sorted runs of width `howMany` |
| Aggregation.Aggregated | mpi_mergesort.cpp:137-140 | sorting the gathered array from width `howMany` yields all values of all blocks, sorted |
| Aggregation.SortedOutcome | mpi_mergesort.cpp:140-142 | what rank 0 returns is a permutation of all blocks' values, and sorted when every block was sorted and the scratch allocation succeeded |
| Aggregation.Gather | mpi_mergesort.cpp:122-129 | rank 0's fresh array of `howMany * numTasks` entries holds the blocks in rank order |
| Aggregation.MergeAll | mpi_mergesort.cpp:118-143 | rank 0's result is the gathered array sorted from width `howMany`, or the gathered array itself when the allocation fails; either way a permutation of all blocks; sorted when every block was sorted and the allocation succeeded |
| Scenarios.SortFromSingles | mpi_mergesort.cpp:182 | as each rank sorts its own block from width 1, `[4, 1, 3, 2]` sorts to `[1, 2, 3, 4]` |
| Scenarios.SortFromSinglesOdd | mpi_mergesort.cpp:88-90 | from width 1, `[5, 3, 1, 4, 2]` sorts to `[1, 2, 3, 4, 5]`, with the last runs clamped by `min` to `n` |
| Scenarios.TwoRanks | mpi_mergesort.cpp:137-140 | blocks `[3, 7]` and `[1, 4]`, gathered and sorted from width 2, give `[1, 3, 4, 7]` |

## Left out

- MPI itself is not modelled: `MPI_Init`, the rank and size queries, `MPI_Finalize`, and the other ranks. `MPI_Gather` becomes the concatenation `Gathered`. Ranks other than 0 return `NULL` from `mergeAll` (line 131); that path is not modelled.
- `createNumbers` and its use of `srand`/`rand` are left out. The model takes the values as input.
- `printNumbers`, the error messages, the timing with `MPI_Wtime` and `main`'s argument handling are I/O and are left out.
- C `int` overflow is not modelled. Widths, lengths and indices are unbounded naturals, so `2 * width`, `i + 2 * width` and `howMany * numTasks` never wrap. Values are unbounded integers; the source only compares and copies them.
- A failed `malloc` in `mergeSort` (lines 72-77) is the `allocFails` parameter of `Sorting.MergeSort`. `free` is not modelled.
- Aggregation.MergeAll: rank 0's `malloc` of `A` (line 126) is not checked by the source; the model always allocates it.
- Sorting.MergeSort: requires `startWidth >= 1` when `n > 0`. With width 0 the source's loops never end, and `mergeAll` always passes `howMany`, which is at least 1 when there is data.
- Sortedness.IsSorted: `howMany` is a natural number here; the source's negative `howMany` returns 1 from the empty loop.
- The comment at line 95 says swapping would be more efficient; the code at line 96 already swaps. The model follows the code.
- Merging.Merge: sortedness and permutation of the result are stated by the lemmas `MergedSorted` and `MergedPermutes` about `Merged`, not repeated in the method's own contract.
