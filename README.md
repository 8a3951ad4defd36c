# Sorting algorithms of `include/algorithms/Sorting.h`, modelled in Dafny

The header provides a small set of sorting routines:

- `Detail::Min`.
- `IsSorted(begin, end)`, a test for an adjacent inversion.
- A bottom-up merge sort with two overloads, one for a collection and one for a pointer range. It uses read and write buffers that swap roles after every pass.
- An in-place quick sort. It works through an explicit stack of ranges, and its pivot is the last element of the range. A collection wrapper forwards to it.
- A binary insertion sort into a destination vector that is already sorted.
- A counting ("bucket") sort. It counts each value's offset from `min` and rebuilds the range from those counts. A collection wrapper forwards to it.

The model keeps the source's imperative form:

- Each sort is a Dafny `method` over an `array<int>`, or over a `Vector` class whose `seq` field the insertion sort grows.
- The methods carry the source's loops with their invariants.
- Each method is proved against a value-level specification function: `BottomUp`, `PartitionedAt`, `InsertAll`, `Histogram`/`BucketSorted`.
- Lemmas about those functions state what the algorithms achieve.

Modules:

- `SortUtil`: `Min`, `Sorted`, `IsSorted` and sequence helpers.
- `MergeSpec`: the merge, one pass, the whole bottom-up sort on values, and what it achieves.
- `MergeStability`: tags that follow each element through the merge and the passes; the merge keeps equal elements in read order, and so does the whole sort for power-of-two lengths.
- `MergeFixed`: the pass with the bound corrected.
- `MergeSorting`: the merge sort methods.
- `QuickSorting`: partition, the range stack and its invariant, the quick sort methods.
- `InsertionSorting`: the lower bound, the binary search and the insertion sort.
- `BucketSorting`: the histogram, the rebuild and the bucket sort methods.

The model follows the code as written, including its quirks:

- **Merge sort tail.** A pass merges only pairs of blocks whose left block starts at or below `(numBlocks - 1) * blockSize`. When a pass leaves a tail unmerged, the write buffer keeps there what the previous pass read. The result is always a permutation of the input. It is sorted for power-of-two lengths (BottomUpSortedPow2) and for some others such as 3 (BottomUpSortsThree) and 100 (BottomUpSortsHundred), but not for every length (BottomUpEleven; see Findings).
- **Bucket sort output.** The rebuild writes `currentIndex` into each slot, which is the offset `x - min`, and not `x` itself. The model's postcondition says exactly that: the range ends up holding the sorted offsets. The comment at Sorting.h:352-353 says the list is rebuilt from the counts of the values, while the code at :380 writes the offset `currentIndex`; the model follows the code.

## Model

| member | source | states |
|---|---|---|
| SortUtil.Min | include/algorithms/Sorting.h:22-24 | the result is at most both arguments and is one of them |
| SortUtil.IsSorted | include/algorithms/Sorting.h:36-50 | true exactly when no element of `[begin, end)` is smaller than its predecessor, and exactly when the range is sorted (requires a non-empty range, the assertion at :39) |
| SortUtil.AdjacentIffSorted | include/algorithms/Sorting.h:43-48 | having no adjacent inversion is equivalent to every pair being in order |
| MergeSpec.Merge | include/algorithms/Sorting.h:94-110 | the two-cursor merge of a left and a right block, the right head taken only when strictly smaller; it has as many elements as the two blocks together |
| MergeSpec.Pass | include/algorithms/Sorting.h:80-111 | one pass: the new write buffer, with the pairs of blocks for even `i < n / blockSize` merged and the rest of the write buffer kept; as long as the read buffer |
| MergeSpec.Passes | include/algorithms/Sorting.h:77-119 | the pass loop: passes with doubling block size while it is below the length, read and write buffers swapped after each; as long as the read buffer |
| MergeSpec.Zeros | include/algorithms/Sorting.h:71 | the value-initialised working area of `collectionSize` elements (also :140 in the range overload): `n` elements, each 0 |
| MergeSpec.BottomUp | include/algorithms/Sorting.h:61-122 | the whole sort of the container overload (and of the range, :130-194), from a zeroed working area; as long as its input |
| MergeSpec.MergeMultiset | include/algorithms/Sorting.h:94-110 | the two-cursor merge writes every element of both blocks exactly once |
| MergeSpec.MergeSorted | include/algorithms/Sorting.h:94-110 | merging two sorted blocks gives a sorted block |
| MergeSpec.PassPermutation | include/algorithms/Sorting.h:80-110 | a pass whose write buffer agrees with the read buffer on the unmerged tail is a permutation of the read buffer, and passes that agreement on to the next block size |
| MergeSpec.PassChunksSorted | include/algorithms/Sorting.h:80-110 | when the length is a multiple of twice the block size, a pass turns sorted blocks of `blockSize` into sorted blocks of `2 * blockSize` |
| MergeSpec.BottomUpPermutation | include/algorithms/Sorting.h:77-121 | the whole bottom-up sort, starting from a zeroed working area, ends with a permutation of its input |
| MergeSpec.BottomUpShort | include/algorithms/Sorting.h:77 | a collection of length 0 or 1 is left unchanged (no pass runs) |
| MergeSpec.BottomUpSortedPow2 | include/algorithms/Sorting.h:77-121 | when the length is a power of two, the result is sorted |
| MergeSpec.PassOneOverwrites | include/algorithms/Sorting.h:82-110 | with block size 1 every element starts a pair, so the first pass gives the same result whatever the write buffer holds |
| MergeSpec.BottomUpAnyWorkingArea | include/algorithms/Sorting.h:71 | the sort gives the same result whatever the working area starts with, not only zeros |
| MergeSpec.BottomUpOfSorted | include/algorithms/Sorting.h:77-121 | a sorted input is returned unchanged, for every length |
| MergeSpec.BottomUpSortsThree | include/algorithms/Sorting.h:77-121 | every input of length 3, which is not a power of two, ends sorted |
| MergeSpec.PassChunksSortedSkipped | include/algorithms/Sorting.h:80-111 | for any length, a pass turns sorted blocks of `blockSize` into sorted blocks of `2 * blockSize` when the trailing piece it leaves in the write buffer is sorted |
| MergeSpec.SkippedFromChunks | include/algorithms/Sorting.h:114-118 | after the buffers swap, the piece the next pass skips is sorted when it is no longer than one block of the previous pass |
| MergeSpec.PassesSortedFit | include/algorithms/Sorting.h:77-121 | the passes end sorted whenever every pass skips nothing or a piece no longer than half its block |
| MergeSpec.BottomUpSortsHundred | include/algorithms/Sorting.h:77-121 | every input of length 100, the length of the sort tests, ends sorted |
| MergeSpec.PassOfSorted | include/algorithms/Sorting.h:80-110 | a pass over sorted input whose pairs cover the whole input returns that input |
| MergeSpec.BottomUpEleven | include/algorithms/Sorting.h:80-81 | for the 11 elements `[100 x 8, 5, 6, 1]` the result is `[5, 6, 1, 100 x 8]`, which is not sorted |
| MergeStability.MergeOrigins | include/algorithms/Sorting.h:94-110 | the merge run on tags: the tag of each element written, in the order `Merge` writes them; as many tags as elements |
| MergeStability.MergeKeepsPairs | include/algorithms/Sorting.h:94-110 | every (element, tag) pair the merge writes is a pair of the left or the right block, so any property of all input pairs holds of all output pairs |
| MergeStability.MergeStable | include/algorithms/Sorting.h:94-110 | when the left block is sorted, the tags within each block increase along equal elements and all left tags are below the right ones, equal elements of the merge carry increasing tags (a tie takes the left block) |
| MergeStability.MergeStableAtCursors | include/algorithms/Sorting.h:84-110 | for one pair with cursors `first`, `last`, `firstNext`, `lastNext` over a read buffer, each written element is the read-buffer element at the index it was taken from, and equal elements are written in increasing read-buffer order |
| MergeStability.PassOrigins | include/algorithms/Sorting.h:80-111 | one pass run on tags, alongside `Pass`; as many tags as elements |
| MergeStability.PassesOrigins | include/algorithms/Sorting.h:77-119 | the pass loop run on tags, alongside `Passes`; as many tags as elements |
| MergeStability.BottomUpOrigins | include/algorithms/Sorting.h:61-122 | the whole sort run on tags, each input element tagged with its index; as many tags as elements |
| MergeStability.PassTraced | include/algorithms/Sorting.h:80-111 | when the length is a multiple of twice the block size, a pass keeps every element equal to the input element its tag names |
| MergeStability.PassChunksStable | include/algorithms/Sorting.h:80-111 | under the same length condition, a pass turns sorted, stable chunks of `blockSize` into stable chunks of `2 * blockSize`, each carrying the tags of its own part of the input |
| MergeStability.PassStable | include/algorithms/Sorting.h:80-111 | for a power-of-two length, a pass with block size `2^j` leaves chunks of `2^(j+1)` sorted, stable and traced |
| MergeStability.PassesStable | include/algorithms/Sorting.h:77-119 | for a power-of-two length, the remaining passes from sorted, stable chunks end traced and stable |
| MergeStability.BottomUpStable | include/algorithms/Sorting.h:61-122 | for a power-of-two length the sort is stable: each result element is the input element its tag names, and equal elements keep their input order |
| MergeStability.OriginsDistinct | include/algorithms/Sorting.h:61-122 | the tags of a traced, stable result are pairwise distinct: no input position is taken twice |
| MergeFixed.FixedPass | include/algorithms/Sorting.h:80-111 | the pass with the corrected bound: a pair for every `i` with `i * blockSize < n`, its left block ending at `Min((i + 1) * blockSize, n)`; as long as the read buffer |
| MergeFixed.FixedPasses | include/algorithms/Sorting.h:77-119 | the pass loop with the corrected pass, block size doubling while below the length; the counterpart of `MergeSpec.Passes`; as long as its input |
| MergeFixed.FixedBottomUp | include/algorithms/Sorting.h:77-119 | the whole sort with the corrected pass; as long as its input |
| MergeFixed.FixedBottomUpSorts | include/algorithms/Sorting.h:80-81 | with pairs taken while the left block starts inside the collection, the sort is sorted and a permutation for every length |
| MergeFixed.FixedBottomUpEleven | include/algorithms/Sorting.h:80-81 | the corrected sort does sort the 11-element input above |
| MergeSorting.TakesLeft | include/algorithms/Sorting.h:96-108 | the branch test of the merge loop: the left head is written when the right block is spent or its head is not strictly smaller; while either block has elements left, the block read from is never a spent one |
| MergeSorting.MergeBlockPair | include/algorithms/Sorting.h:94-110 | the merge loop writes `(last - first) + (lastNext - firstNext)` elements from the write head, which are `Merge` of the two blocks; nothing else in the write buffer changes |
| MergeSorting.MergeNextPair | include/algorithms/Sorting.h:84-110 | one round of the pair loop: takes the bounds `MergePairs` computes from `i` (its requires: `last == firstNext == first + blockSize <= n` and `lastNext == Min(first + 2 * blockSize, n)`), merges the pair and extends the written prefix of the pass |
| MergeSorting.MergePairs | include/algorithms/Sorting.h:81-111 | the pair loop: the write head stops within one block of the end, and what it wrote, followed by the untouched rest of the write range, is `Pass` of the read and write ranges |
| MergeSorting.MergePass | include/algorithms/Sorting.h:80-111 | one pass makes the write range equal to `Pass` of the read range and the old write range; the write buffer outside that range is unchanged |
| MergeSorting.SortPass | include/algorithms/Sorting.h:146-181 | one pass between the caller's range and the working area, in either direction: the write range becomes `Pass`, the read range stays, and the caller's array outside the range is unchanged |
| MergeSorting.CopyBack | include/algorithms/Sorting.h:191-193 | copying back makes the target range equal to the old source range and leaves the rest of the target unchanged |
| MergeSorting.RunPasses | include/algorithms/Sorting.h:146-188 | after the pass loop, the final read buffer (the caller's range or the working area) holds `BottomUp` of the range; the caller's array outside the range is unchanged |
| MergeSorting.MergeSortRange | include/algorithms/Sorting.h:130-194 | the range becomes `BottomUp` of its old contents and the rest of the array is unchanged; so the range is a permutation of the old one, unchanged when it is sorted already or has length at most 1, and sorted for a power-of-two length |
| MergeSorting.MergeSort | include/algorithms/Sorting.h:61-122 | the same outcome over the whole collection |
| QuickSorting.Swap | include/algorithms/Sorting.h:238 | exchanges the two elements and changes nothing else |
| QuickSorting.ScanStepTaken | include/algorithms/Sorting.h:235-246 | the three branches of one scan round: swap and advance `firstLargest`, mark the first larger element, or leave both; a step keeps the length, the pivot at the back and the multiset of the elements |
| QuickSorting.ScanStep | include/algorithms/Sorting.h:235-246 | one round of the scan, in any of its three branches, keeps the scan invariant: the range is a permutation, the pivot stays at the back, and the elements before `firstLargest` are at most the pivot while those from `firstLargest` up to the target are greater |
| QuickSorting.ScanDone | include/algorithms/Sorting.h:250-251 | the final swap puts the pivot at `firstLargest`, with everything before it at most the pivot and everything after it greater |
| QuickSorting.Partition | include/algorithms/Sorting.h:225-251 | the range is permuted in place so that the pivot value (the old last element) lands at the returned index, with everything before it at most the pivot and everything after it greater; the array outside the range is unchanged |
| QuickSorting.SubRanges | include/algorithms/Sorting.h:255-263 | the right range is pushed exactly when its distance exceeds one, and the left range likewise; the right range is pushed first when both are; every pushed range lies in the current range, leaves out the pivot and has more than one element |
| QuickSorting.SubRangesShrink | include/algorithms/Sorting.h:255-263 | the pushed ranges hold fewer elements in total than the range that was popped |
| QuickSorting.StackStart | include/algorithms/Sorting.h:216-217 | the stack holding only the initial range satisfies the stack invariant |
| QuickSorting.PartitionStep | include/algorithms/Sorting.h:220-264 | one pop, partition and push keeps the stack invariant (the waiting ranges are disjoint and non-empty; a pair of positions not inside one waiting range is in order) and strictly decreases the number of elements waiting, so the loop terminates |
| QuickSorting.StackEnd | include/algorithms/Sorting.h:220 | when the stack is empty, the invariant makes the range sorted |
| QuickSorting.QuickSortRange | include/algorithms/Sorting.h:203-265 | a non-empty range ends sorted, as a permutation of its old contents, with the rest of the array unchanged |
| QuickSorting.QuickSort | include/algorithms/Sorting.h:270-272 | a non-empty collection ends sorted and a permutation of its old contents |
| InsertionSorting.CountLessAt | include/algorithms/Sorting.h:339-345 | an index with only smaller elements before it and no smaller ones after it is the number of smaller elements |
| InsertionSorting.LowerBound | include/algorithms/Sorting.h:339-345 | in a sorted sequence the elements smaller than `x` are exactly those before `CountLess(d, x)` |
| InsertionSorting.Insert | include/algorithms/Sorting.h:342 | the destination with `x` inserted at its lower bound: one element longer, with `x` at index `CountLess(d, x)` |
| InsertionSorting.InsertAll | include/algorithms/Sorting.h:314-347 | the destination after inserting every source element in source order; as long as the two together |
| InsertionSorting.InsertSorted | include/algorithms/Sorting.h:342-345 | inserting at the lower bound keeps a sorted destination sorted and adds exactly the one element |
| InsertionSorting.InsertAllSorted | include/algorithms/Sorting.h:314-347 | inserting every source element in source order keeps the destination sorted; it then holds its old elements and the source's, and has grown by the source's length |
| InsertionSorting.Vector.Insert | include/algorithms/Sorting.h:342 | `insert(begin() + index, x)` puts `x` at `index` and shifts the rest up by one |
| InsertionSorting.InsertionPoint | include/algorithms/Sorting.h:315-345 | on a non-empty sorted destination, the search window `[start, end)` is never empty and shrinks each round, and the insertion index is the lower bound (the number of elements smaller than the inserted one), so the element goes before any equal element |
| InsertionSorting.InsertionSort | include/algorithms/Sorting.h:285-348 | on a non-empty sorted destination (the assertions at :310 and :312), the destination becomes `InsertAll` of its old contents and the source: sorted, with its old elements and the source's, grown by the source's length |
| BucketSorting.Offsets | include/algorithms/Sorting.h:369 | the offsets `x - min` of the elements, the indices the counting loop uses; one per element |
| BucketSorting.Histogram | include/algorithms/Sorting.h:360-370 | the counts the counting loop builds: `m` slots, the slot of each offset in `[0, m)` incremented once per element |
| BucketSorting.SumUpdate | include/algorithms/Sorting.h:369 | changing one count changes the total by the difference |
| BucketSorting.HistogramCounted | include/algorithms/Sorting.h:363-370 | each slot of the counts is the number of elements with that offset |
| BucketSorting.HistogramStep | include/algorithms/Sorting.h:369 | incrementing the count of the next element's offset gives the counts of the longer prefix |
| BucketSorting.CountBuckets | include/algorithms/Sorting.h:360-370 | with every element in `[min, max)`, the counting loop returns `max - min` counts, the histogram of the offsets `x - min` |
| BucketSorting.RebuildSkip | include/algorithms/Sorting.h:376-378 | skipping an empty count keeps the rebuild invariant, so `currentIndex` only grows |
| BucketSorting.RebuildWrite | include/algorithms/Sorting.h:380-381 | writing `currentIndex` and decrementing its count keeps the rebuild invariant; some element remains to write, so the skip loop stops before the end of the counts |
| BucketSorting.RebuildDone | include/algorithms/Sorting.h:374-382 | when every slot is written, the written sequence is sorted and holds exactly the offsets with their multiplicities |
| BucketSorting.BucketSortRange | include/algorithms/Sorting.h:355-383 | with `max > min` and every element in `[min, max)`, the range becomes the sorted offsets `x - min` of its old elements, with the rest of the array unchanged |
| BucketSorting.BucketSort | include/algorithms/Sorting.h:388-390 | the same outcome over the whole collection |
| BucketSorting.AssertsAdmit | include/algorithms/Sorting.h:357-366 | what the debug assertions at :357 and :365-366 let through: `max > min` and every element in the closed interval `[min, max]`, so every offset lies in `[0, max - min]`, one index more than the counts hold |
| BucketSorting.AdmittedMaxOverruns | include/algorithms/Sorting.h:357-369 | the assertions admit an element equal to `max`, which `[min, max)` excludes; its offset `max - min` is one past the last count; every input inside `[min, max)` passes the assertions |

## Left out

- Templates, iterator categories, the `IndexType`/`CountType` parameters and generic element types are not modelled. Elements are `int`, compared with `<` and `<=`, and indices are unbounded `nat`. `size_t` and `IndexType` overflow in expressions such as `(i + 2) * blockSize` is not modelled.
- `MIST_ASSERT` (debug assertions) becomes a precondition of the method it guards: `IsSorted`'s non-empty range, the insertion sort's non-empty sorted destination, and the bucket sort's `max > min`. For the bucket sort elements, the precondition is the half-open bound under which `counts[x - min]` exists (see Findings).
- QuickSortRange: requires a non-empty range. On an empty range the source takes `currentRange.second - 1` as the pivot and dereferences it, which is undefined, so this case is outside the model. QuickSort requires a non-empty collection for the same reason.
- MergeSortRange, MergeSort: the working area is modelled as a fresh array of zeros, the value a value-initialised `std::vector` of `int` holds. Its initial contents never reach the result (BottomUpAnyWorkingArea): the first pass, with block size 1, writes every slot.
- MergeSorting.MergeSortRange: stability is proved for power-of-two lengths only (MergeStability.BottomUpStable), not for other lengths, and the method's own contract does not state it; the tags live in the value-level model.
- MergeSort: the container overload swaps collection pointers (`std::swap(writeTarget, readTarget)`). The model swaps array references with a base offset. Its final `std::copy` and the range overload's copy loop are both the one `CopyBack` method, and aliasing between the two buffers is excluded (`a != workingArea`).
- BucketSortRange: `counts` is modelled as a local `seq<nat>` that is reassigned, not as a `std::vector` updated in place. `CountType` wrap-around is not modelled.
- InsertionSort: the source collection is a `seq<int>` iterated in order. The destination is the `Vector` class with a `seq` field, and its `insert` is modelled by value.
- The test harness `main.cpp` and the headers `Any.h` and `MetaData.h` are not part of this model.

## Findings

| source | as written | input that shows it | evidently intended | confidence | as-written member | corrected member |
|---|---|---|---|---|---|---|
| include/algorithms/Sorting.h:80-81 (and :150-151) | `numBlocks = collectionSize / blockSize` and `i < numBlocks` skip a trailing partial block when `numBlocks` is even. That block is then neither merged nor copied, and the write buffer keeps stale data there | 11 elements `[100, 100, 100, 100, 100, 100, 100, 100, 5, 6, 1]` end as `[5, 6, 1, 100, 100, 100, 100, 100, 100, 100, 100]` | take pairs while the left block starts inside the collection (`i * blockSize < collectionSize`), and clip the left block's end `last` (and `firstNext`) to `Min((i + 1) * blockSize, collectionSize)`, so the result is sorted for every length | not executed | MergeSpec.BottomUpEleven | MergeFixed.FixedBottomUpSorts |
| include/algorithms/Sorting.h:360, :366, :369 | `counts` has `max - min` slots but the assertion admits `*current <= max`, so an element equal to `max` increments `counts[max - min]`, one past the end | `min = 0`, `max = 1`, the element `1` | elements in the half-open interval `[min, max)` (or `max - min + 1` slots) | not executed | BucketSorting.AdmittedMaxOverruns | BucketSorting.BucketSortRange |

MergeSorting.MergeSortRange and MergeSorting.MergeSort model the merge sort code as written: they promise a permutation for every length, and a sorted result for power-of-two lengths. The corrected pass bound is in `MergeFixed`, a separate value-level model.
