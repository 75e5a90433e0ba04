# Verified model of the sorting-algorithm benchmark core

The benchmark compares three comparison sorts on synthetic integer datasets.
This project models that core in Dafny and proves what each part promises:

- **QuickSort** uses a Lomuto partition around a random pivot. It replaces recursion with an explicit stack of inclusive `(low, high)` ranges and pushes the smaller half last.
- **MergeSort** is a top-down recursive sort on slices. It merges with two pointers and takes the left element on ties.
- **HeapSort** builds a max-heap bottom-up with a recursive sift-down, then repeatedly swaps the root to the end.
- **DataGenerator** produces four shapes of input:
  - `random`: `size` values in `[0, size * 10]`;
  - `sorted`: `0 .. size-1`;
  - `reversed`: `size .. 1`;
  - `nearly_sorted`: `0 .. size-1` with `size / 10` random index swaps.

  It also has a tag-dispatching `generate_dataset` that rejects unknown tags, and a `generate_all_datasets` that fills a nested map keyed by tag and size.
- **`is_sorted`** is the adjacent-pair check that the tests and the performance harness use as the definition of a correct sort. Every sort proof targets it.

Modules and files:

| file | module | models |
|---|---|---|
| `sortedness.dfy` | `Sortedness` | `is_sorted` and the facts about it. The main one: two sorted lists with the same elements are equal. |
| `permutations.dfy` | `Permutations` | the in-place swap and facts about permutations of segments |
| `quick_sort.dfy` | `QuickSort` | `QuickSort.sort`, `_quick_sort`, `_partition` |
| `merge_sort.dfy` | `MergeSort` | `MergeSort.sort`, `_merge_sort`, `_merge` |
| `heap_sort.dfy` | `HeapSort` | `HeapSort.sort`, `_heap_sort`, `_heapify` |
| `data_generator.dfy` | `DataGenerator` | the four generators, `generate_dataset`, `generate_all_datasets` |
| `scenarios.dfy` | `Scenarios` | the inputs of `testing/test_algorithms.py` and a client that runs all three sorts |

The definitions the proofs are about:

- `Sortedness.IsSorted` is `is_sorted` (`utils/helpers.py:13-14`): every adjacent pair is in order.
- `MergeSort.MergedFrom` is what the loop of `_merge` appends once its pointers stand at `i` and `j` (`sorting_algorithms.py:139-149`).
- `DataGenerator.SortedData` and `DataGenerator.ReversedData` are `generate_sorted_data` and `generate_reversed_data` (`data_generator.py:20-26`).
- `DataGenerator.Filled` is the dictionary that a run of assignments `d[key] = value` leaves, as `generate_all_datasets` fills its two levels (`data_generator.py:76-82`). `TagFilled` and `AllFilled` are those two levels.

What follows the source's imperative form:

- QuickSort and HeapSort work in place on an `array<int>` through `modifies` methods.
- `_partition` and the nearly-sorted generator use loops with invariants.
- The `_quick_sort` work loop keeps its explicit stack as a `seq` of ranges and terminates by a weight measure.
- `_merge` is a method with the source's two-pointer loop. It is proved equal to the pure specification `Merged`.
- `_merge_sort` is specified by the pure function `MergeSorted`. The method `MergeSortRec` follows its recursion and calls `Merge`.

Randomness is a parameter:

- The pivot of `_partition` is a `pivotIndex` argument. `_quick_sort` picks it by an arbitrary choice in `[low, high]`, so every result holds for every pivot sequence.
- Python's global random state is an arbitrary stream `draw: nat -> nat`. The `k`-th `random.randint(lo, hi)` of a generator returns `lo + draw(k) % (hi - lo + 1)`. `RandIntReaches` and `RandomDataCovers` show that every in-range outcome is reachable.
- In `generate_all_datasets`, the call for the `ti`-th tag and the `si`-th size is fed its own arbitrary stream `draws(ti)(si)`.

Because sorted permutations are unique (`Sortedness.SortedPermutationUnique`), all three sorts return the same list for the same input, whatever the pivots (`Scenarios.CompareSorts`). Each test input has exactly one admissible output.

## Model

| member | source | states |
|---|---|---|
| Sortedness.ShortIsSorted | sorting_algorithms_analysis/src/utils/helpers.py:13-14 | lists of length 0 and 1 are sorted: the adjacency range is empty |
| Sortedness.DescentNotSorted | sorting_algorithms_analysis/src/utils/helpers.py:14 | one adjacent descent `s[i] > s[i+1]` makes `is_sorted` false, which is the condition on which the harness raises |
| Sortedness.SortedAt | sorting_algorithms_analysis/src/utils/helpers.py:14 | in a sorted list, `s[i] <= s[j]` for every `i <= j` |
| Sortedness.SortedIffOrdered | sorting_algorithms_analysis/src/utils/helpers.py:13-14 | the adjacent-pair check holds if and only if every earlier element is at most every later one |
| Sortedness.SortedPermutationUnique | sorting_algorithms_analysis/src/utils/helpers.py:13-14 | two sorted lists with the same multiset of elements are equal |
| Permutations.Swap | sorting_algorithms_analysis/src/algorithms/sorting_algorithms.py:86 | the tuple swap exchanges the two cells, leaves every other cell unchanged and keeps the multiset |
| Permutations.SegmentPermutation | sorting_algorithms_analysis/src/algorithms/sorting_algorithms.py:69-90 | if two equal-length arrays are permutations of each other and agree outside `[lo, hi)`, the segments `[lo, hi)` are permutations of each other |
| QuickSort.PushHalves | sorting_algorithms_analysis/src/algorithms/sorting_algorithms.py:59-67 | pushes exactly the two halves `(low, p-1)` and `(p+1, high)` on top of the old stack, with the smaller one last. Each pushed range is a strict sub-range of `[low, high]` that excludes the pivot. |
| QuickSort.WeightDecreases | sorting_algorithms_analysis/src/algorithms/sorting_algorithms.py:51-67 | replacing a popped range by its two halves strictly lowers the stack's weight, so the work loop terminates |
| QuickSort.WeightPop | sorting_algorithms_analysis/src/algorithms/sorting_algorithms.py:51-54 | popping a range that is not partitioned strictly lowers the weight |
| QuickSort.Partition | sorting_algorithms_analysis/src/algorithms/sorting_algorithms.py:69-90 | for every pivot index in `[low, high]`, the result `p` is in `[low, high]`. Everything in `[low, p)` is `<= a[p]`, everything in `(p, high]` is `> a[p]`, cells outside `[low, high]` are unchanged, and the array is a permutation of its old contents. |
| QuickSort.PartitionKeepsInvariant | sorting_algorithms_analysis/src/algorithms/sorting_algorithms.py:51-67 | partitioning the popped range and pushing its halves keeps the stack invariant: pending ranges are disjoint and inside `[low, high]`, and any two positions no pending range holds together are in order |
| QuickSort.PopSmall | sorting_algorithms_analysis/src/algorithms/sorting_algorithms.py:52-54 | popping a range of at most one position keeps the stack invariant |
| QuickSort.EmptyStackSorted | sorting_algorithms_analysis/src/algorithms/sorting_algorithms.py:51 | when the stack is empty, `[low, high]` is sorted |
| QuickSort.QuickSortRange | sorting_algorithms_analysis/src/algorithms/sorting_algorithms.py:47-67 | `a[low..high]` ends sorted, the array is a permutation of its old contents, and nothing outside `[low, high]` changes |
| QuickSort.Sort | sorting_algorithms_analysis/src/algorithms/sorting_algorithms.py:38-45 | returns a fresh array that is sorted and a permutation of the input, without modifying the input. For length 0 or 1 it returns an equal copy. |
| MergeSort.MergedFromPermutation | sorting_algorithms_analysis/src/algorithms/sorting_algorithms.py:139-149 | what the merge appends from pointers `i`, `j` has length `len(left)-i + len(right)-j` and exactly the unconsumed elements |
| MergeSort.Merged | sorting_algorithms_analysis/src/algorithms/sorting_algorithms.py:134-151 | the merged list has length `len(left)+len(right)` and the elements of both inputs |
| MergeSort.MergedFromSorted | sorting_algorithms_analysis/src/algorithms/sorting_algorithms.py:139-149 | merging sorted inputs from any pointer positions gives a sorted list. Its head is the smaller head, and the left one on ties. |
| MergeSort.MergedSorted | sorting_algorithms_analysis/src/algorithms/sorting_algorithms.py:134-151 | merging two sorted lists gives a sorted list |
| MergeSort.MergedFromStep | sorting_algorithms_analysis/src/algorithms/sorting_algorithms.py:139-145 | appending the smaller head (left on ties) and advancing its pointer leaves the final merge result unchanged |
| MergeSort.MergedFromRemainder | sorting_algorithms_analysis/src/algorithms/sorting_algorithms.py:148-149 | once one side is exhausted, the rest of the merge is `left[i:] + right[j:]`, so the two `extend` calls complete the merge |
| MergeSort.Merge | sorting_algorithms_analysis/src/algorithms/sorting_algorithms.py:134-151 | the two-pointer loop with both `extend` calls returns exactly `Merged(left, right)` |
| MergeSort.MergeSorted | sorting_algorithms_analysis/src/algorithms/sorting_algorithms.py:122-132 | splitting at `len // 2`, sorting both halves and merging gives a sorted permutation of the argument |
| MergeSort.MergeSortRec | sorting_algorithms_analysis/src/algorithms/sorting_algorithms.py:122-132 | the recursion through `Merge` returns exactly `MergeSorted(arr)` |
| MergeSort.Sort | sorting_algorithms_analysis/src/algorithms/sorting_algorithms.py:114-120 | returns a sorted permutation of the input. For length 0 or 1 it returns an equal list. |
| HeapSort.Largest | sorting_algorithms_analysis/src/algorithms/sorting_algorithms.py:200-211 | `largest` is `i` or one of its in-heap children, is at least `i` and each in-heap child, and differs from `i` only when strictly greater than `arr[i]` |
| HeapSort.SiftDone | sorting_algorithms_analysis/src/algorithms/sorting_algorithms.py:213 | if `i` is already the largest, the heap broken at most at `i` is whole |
| HeapSort.SiftStep | sorting_algorithms_analysis/src/algorithms/sorting_algorithms.py:213-217 | swapping `i` with `largest` repairs the heap rule at `i` and moves the only possible violation to `largest` |
| HeapSort.Heapify | sorting_algorithms_analysis/src/algorithms/sorting_algorithms.py:199-217 | given a heap on `[lo, n)` broken at most at `i` (with `i`'s parent dominating `i`'s children), the result is a max-heap on all of `[lo, n)`. The array is a permutation of its old contents, and cells outside `[i, n)` are unchanged. |
| HeapSort.LeavesAreHeaps | sorting_algorithms_analysis/src/algorithms/sorting_algorithms.py:188 | indices from `n // 2` on have no children, so the build loop can start at `n // 2 - 1` |
| HeapSort.RootIsMax | sorting_algorithms_analysis/src/algorithms/sorting_algorithms.py:192-194 | in a max-heap, the root is at least every element |
| HeapSort.BuildStep | sorting_algorithms_analysis/src/algorithms/sorting_algorithms.py:188-189 | a heap on `[i+1, n)` is a heap on `[i, n)` broken at most at `i`, which is what `_heapify(arr, n, i)` expects |
| HeapSort.BuildHeap | sorting_algorithms_analysis/src/algorithms/sorting_algorithms.py:185-189 | after the build loop all of `arr[0..n)` is a max-heap, and the array is a permutation of its old contents |
| HeapSort.ExtractStep | sorting_algorithms_analysis/src/algorithms/sorting_algorithms.py:192-194 | swapping the root to `i` makes the suffix `arr[i:]` sorted and at least every prefix element, and leaves a heap broken only at the root |
| HeapSort.HeapifyKeepsBound | sorting_algorithms_analysis/src/algorithms/sorting_algorithms.py:197 | re-heapifying the prefix `arr[:i]` restores the extraction invariant for the next `i`: heap prefix, then a sorted suffix that dominates it |
| HeapSort.FinishedSorted | sorting_algorithms_analysis/src/algorithms/sorting_algorithms.py:192 | when the extraction loop stops, the whole array is sorted |
| HeapSort.ExtractAll | sorting_algorithms_analysis/src/algorithms/sorting_algorithms.py:192-197 | starting from a max-heap, the extraction loop leaves the array sorted and a permutation of its old contents |
| HeapSort.HeapSortInPlace | sorting_algorithms_analysis/src/algorithms/sorting_algorithms.py:184-197 | `_heap_sort` leaves the array sorted and a permutation of its old contents |
| HeapSort.Sort | sorting_algorithms_analysis/src/algorithms/sorting_algorithms.py:175-182 | returns a fresh array that is sorted and a permutation of the input, without modifying the input. For length 0 or 1 it returns an equal copy. |
| DataGenerator.ParseShape | sorting_algorithms_analysis/src/data_generation/data_generator.py:57-64 | a tag found in the table maps to the shape that carries that tag |
| DataGenerator.ParseShapeIffTag | sorting_algorithms_analysis/src/data_generation/data_generator.py:57-64 | a tag is accepted as a shape if and only if it is that shape's tag, so exactly the four tags are known |
| DataGenerator.RandInt | sorting_algorithms_analysis/src/data_generation/data_generator.py:18 | `randint(lo, hi)` lies in `[lo, hi]` inclusive |
| DataGenerator.RandIntReaches | sorting_algorithms_analysis/src/data_generation/data_generator.py:18 | every value in `[lo, hi]` is a possible result of `randint(lo, hi)` |
| DataGenerator.RandomData | sorting_algorithms_analysis/src/data_generation/data_generator.py:16-18 | the random shape has length `size` and every element lies in `[0, size * 10]` |
| DataGenerator.RandomDataCovers | sorting_algorithms_analysis/src/data_generation/data_generator.py:16-18 | every list of `size` values in `[0, size * 10]` is a possible random dataset |
| DataGenerator.SortedDataIsSorted | sorting_algorithms_analysis/src/data_generation/data_generator.py:20-22 | the sorted shape is `[0, 1, ..., size-1]` and satisfies `is_sorted` |
| DataGenerator.ReversedDataShape | sorting_algorithms_analysis/src/data_generation/data_generator.py:24-26 | the reversed shape is `[size, ..., 1]` of length `size`, the mirror image of the sorted shape plus one, and strictly decreasing, so it is not sorted once `size >= 2` |
| DataGenerator.ReversedDataElements | sorting_algorithms_analysis/src/data_generation/data_generator.py:24-26 | the reversed shape holds exactly the values `1..size` |
| DataGenerator.SwapAt | sorting_algorithms_analysis/src/data_generation/data_generator.py:42 | the swapped list keeps its length |
| DataGenerator.SwapAtElements | sorting_algorithms_analysis/src/data_generation/data_generator.py:42 | a swap keeps the multiset of elements |
| DataGenerator.SwapIndices | sorting_algorithms_analysis/src/data_generation/data_generator.py:40-41 | both swap indices lie in `[0, size-1]` |
| DataGenerator.Scrambled | sorting_algorithms_analysis/src/data_generation/data_generator.py:33-43 | the list after any number of swaps keeps length `size` |
| DataGenerator.SwapDisplaces | sorting_algorithms_analysis/src/data_generation/data_generator.py:42 | one swap changes at most two more positions relative to a reference list |
| DataGenerator.ScrambledPermutation | sorting_algorithms_analysis/src/data_generation/data_generator.py:33-43 | after any sequence of in-range swaps, the list is a permutation of `range(size)` |
| DataGenerator.ScrambledDisplaced | sorting_algorithms_analysis/src/data_generation/data_generator.py:36-43 | after `t` swaps, the list differs from `range(size)` in at most `2 * t` positions |
| DataGenerator.GenerateNearlySorted | sorting_algorithms_analysis/src/data_generation/data_generator.py:28-44 | the in-place loop returns the list after `num_swaps` swaps. It is a permutation of `range(size)` differing from it in at most `2 * num_swaps` positions, and equal to it when `num_swaps` is 0. |
| DataGenerator.GeneratedConforms | sorting_algorithms_analysis/src/data_generation/data_generator.py:16-44 | every generator returns a dataset of its own shape and of the requested size |
| DataGenerator.GenerateDataset | sorting_algorithms_analysis/src/data_generation/data_generator.py:46-67 | an unknown tag yields the error `Unknown data type: <tag>`. A known tag yields exactly that generator's output. |
| DataGenerator.FilledKeys | sorting_algorithms_analysis/src/data_generation/data_generator.py:79-82 | the dictionary filled by the assignments has exactly the assigned keys |
| DataGenerator.FilledLast | sorting_algorithms_analysis/src/data_generation/data_generator.py:79-82 | a key holds the value of its last assignment, so a repeated key is overwritten by the later one |
| DataGenerator.FilledFrom | sorting_algorithms_analysis/src/data_generation/data_generator.py:79-82 | every entry of the dictionary was written by one of the assignments, with that assignment's value |
| DataGenerator.TagFilledEntries | sorting_algorithms_analysis/src/data_generation/data_generator.py:79-82 | one tag's dictionary has one entry per configured size. The entry holds exactly the dataset generated at that size's last occurrence, and it is a dataset of the tag's shape and of that size. |
| DataGenerator.AllFilledEntries | sorting_algorithms_analysis/src/data_generation/data_generator.py:76-84 | the nested dictionary has one entry per tag and, inside it, one per size. The entry for a tag and a size is exactly the dataset generated at the last occurrence of both, and it is of that tag's shape and that size. |
| DataGenerator.GenerateSizes | sorting_algorithms_analysis/src/data_generation/data_generator.py:79-82 | for one tag, it fails exactly when there is a size and the tag is unknown, with that tag's message. Otherwise it returns exactly `TagFilled`: each size holds `generate_dataset`'s output for its last occurrence. |
| DataGenerator.GenerateAllDatasets | sorting_algorithms_analysis/src/data_generation/data_generator.py:69-84 | it fails exactly when there is a size and some tag is unknown, and then names the first unknown tag. Otherwise it returns exactly `AllFilled`: one entry per configured tag and, inside each, one per configured size. Each entry holds the dataset generated at the last occurrence of its tag and size, which is of that shape and size. |
| Scenarios.TestSort | sorting_algorithms_analysis/testing/test_algorithms.py:11-30 | every sort passes `test_algorithm`: the output is sorted, keeps the length and is a permutation of the input |
| Scenarios.CompareSorts | sorting_algorithms_analysis/testing/test_algorithms.py:47-53 | all three sorts return the same sorted permutation of the same input |
| Scenarios.SortIdempotent | sorting_algorithms_analysis/src/utils/helpers.py:13-14 | sorting an already sorted list gives it back unchanged |
| Scenarios.FirstTestInput | sorting_algorithms_analysis/testing/test_algorithms.py:38 | any correct sort of `[64, 34, 25, 12, 22, 11, 90]` is `[11, 12, 22, 25, 34, 64, 90]` |
| Scenarios.SecondTestInput | sorting_algorithms_analysis/testing/test_algorithms.py:39 | any correct sort of `[5, 2, 4, 6, 1, 3]` is `[1, 2, 3, 4, 5, 6]` |
| Scenarios.ShortAndConstantTestInputs | sorting_algorithms_analysis/testing/test_algorithms.py:40-42 | `[1]`, `[]` and `[3, 3, 3, 3]` come back unchanged |
| Scenarios.ReversedTestInput | sorting_algorithms_analysis/testing/test_algorithms.py:43 | sorting `range(size, 0, -1)` (the test uses 100) gives `1, 2, ..., size` |
| Scenarios.SortedTestInput | sorting_algorithms_analysis/testing/test_algorithms.py:44 | sorting `range(size)` (the test uses 100) gives it back unchanged |

## Left out

- **Not modelled:**
  - Plotting (`visualizer.py`) and the timing harness (`performance_analyzer.py`), except its use of `is_sorted`. Both are I/O and wall-clock timing.
  - `calculate_statistics` and `format_time`, which are floating point.
  - `generate_random_array` and `time_function`, which wrap randomness and the clock.
  - `main.py` and the `testing/*.py` scripts. Only the test inputs are reused, as concrete examples.
  - `save_datasets` and `load_datasets`, which are file I/O.
  - The progress `print` in `generate_all_datasets`.
  - The `name` and complexity-label properties, which are constant strings.
- **`config.py`:** its constants (sizes, tags, disorder percentage) and its directory creation are not modelled. The tags and sizes are parameters of `GenerateAllDatasets`.
- **Randomness:** Python's `random` module is replaced by an arbitrary draw stream in the generators and an arbitrary in-range pivot choice in `_quick_sort`. The distributions are not modelled.
- DataGenerator.GenerateAllDatasets: the key order of both dictionary levels is not modelled. The result is a Dafny `map`, which has no order. A Python dict keeps insertion order: tags in the order of `data_types`, with a repeated tag at its first position, and sizes in the order of `data_sizes`. The performance analyser later runs the sorts in that order and records the tags in that order, and the model does not capture that.
- DataGenerator.GenerateSizes: the same holds for one tag's dictionary. Its sizes keep the order of their first occurrence in `data_sizes`, and the `map` the model returns does not record it.
- DataGenerator.NumSwaps: uses the integer quotient `size / 10` in place of the float product `int(size * 0.1)`. The two agree for every size below about 2^50, far beyond the configured sizes.
- **Sizes:** dataset sizes are natural numbers. For negative sizes the source returns empty lists, and that case is not modelled.
- **`MergeSort.Sort`:** it takes and returns a list value, so the caller's list cannot change. `QuickSort.Sort` and `HeapSort.Sort` take an array and have no `modifies` clause, which gives the same guarantee.
- **Merge stability:** the tie rule (the left element first) is modelled and proved in `MergeSort.MergedFromSorted`. Stability itself is not stated, because equal plain integers cannot be told apart.
- QuickSort.QuickSortRange: requires `low <= high + 1`. The source also accepts an emptier range, which it pops and discards; that is the same as doing nothing. `QuickSort.sort` only ever calls it on `(0, len - 1)`.
