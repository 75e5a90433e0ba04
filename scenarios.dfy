/** The inputs of testing/test_algorithms.py and the check the performance
    harness applies, stated over the three sorts. Since a sorted list is
    determined by its elements, each test input has exactly one admissible
    output, whichever sort produced it and whichever pivots were drawn. */
module Scenarios {
  import opened Sortedness
  import QuickSort
  import MergeSort
  import HeapSort
  import DataGenerator

  /** The three sorts `test_algorithms.py` exercises. */
  datatype Algorithm = Quick | Merge | Heap

  /** `test_algorithm(algorithm, [data])`: run one sort on a copy of `data` and
      report whether `is_sorted` holds and the length is kept. Every sort
      passes on every input. */
  method TestSort(algorithm: Algorithm, data: seq<int>) returns (passed: bool, sorted: seq<int>)
    ensures passed
    ensures IsSorted(sorted) && multiset(sorted) == multiset(data)
  {
    match algorithm {
      case Quick =>
        var a := new int[|data|](k requires 0 <= k < |data| => data[k]);
        var r := QuickSort.Sort(a);
        sorted := r[..];
        assert a[..] == data;
      case Merge =>
        sorted := MergeSort.Sort(data);
      case Heap =>
        var a := new int[|data|](k requires 0 <= k < |data| => data[k]);
        var r := HeapSort.Sort(a);
        sorted := r[..];
        assert a[..] == data;
    }
    assert |sorted| == |multiset(sorted)| == |multiset(data)| == |data|;
    passed := IsSorted(sorted) && |sorted| == |data|;
  }

  /** The three sorts give the same list on the same input. */
  method CompareSorts(data: seq<int>) returns (quick: seq<int>, merge: seq<int>, heap: seq<int>)
    ensures quick == merge == heap
    ensures IsSorted(quick) && multiset(quick) == multiset(data)
  {
    var _, q := TestSort(Quick, data);
    var _, m := TestSort(Merge, data);
    var _, h := TestSort(Heap, data);
    SortedPermutationUnique(q, m);
    SortedPermutationUnique(m, h);
    quick, merge, heap := q, m, h;
  }

  /** Sorting a list that is already sorted gives it back unchanged. */
  lemma SortIdempotent(s: seq<int>, r: seq<int>)
    requires IsSorted(s)
    requires IsSorted(r) && multiset(r) == multiset(s)
    ensures r == s
  {
    SortedPermutationUnique(r, s);
  }

  // The literal facts below split the proofs of `FirstTestInput` and
  // `SecondTestInput` into small steps: proved together in one lemma, the
  // multiset and sortedness facts about the literal lists cost the solver
  // more than it is given.

  /** The elements of the first test input, as a multiset literal. */
  lemma FirstInputElements()
    ensures multiset([64, 34, 25, 12, 22, 11, 90]) == multiset{64, 34, 25, 12, 22, 11, 90}
  {
  }

  /** The elements of the first expected output. */
  lemma FirstOutputElements()
    ensures multiset([11, 12, 22, 25, 34, 64, 90]) == multiset{11, 12, 22, 25, 34, 64, 90}
  {
  }

  /** The first input and its expected output hold the same elements. */
  lemma FirstElementsReordered()
    ensures multiset{64, 34, 25, 12, 22, 11, 90} == multiset{11, 12, 22, 25, 34, 64, 90}
  {
  }

  /** The first expected output is sorted. */
  lemma FirstOutputSorted()
    ensures IsSorted([11, 12, 22, 25, 34, 64, 90])
  {
  }

  /** Test 1: `[64, 34, 25, 12, 22, 11, 90]`. */
  lemma FirstTestInput(r: seq<int>)
    requires IsSorted(r) && multiset(r) == multiset([64, 34, 25, 12, 22, 11, 90])
    ensures r == [11, 12, 22, 25, 34, 64, 90]
  {
    FirstInputElements();
    FirstOutputElements();
    FirstElementsReordered();
    FirstOutputSorted();
    SortedPermutationUnique(r, [11, 12, 22, 25, 34, 64, 90]);
  }

  /** The elements of the second test input, as a multiset literal. */
  lemma SecondInputElements()
    ensures multiset([5, 2, 4, 6, 1, 3]) == multiset{5, 2, 4, 6, 1, 3}
  {
  }

  /** The elements of the second expected output. */
  lemma SecondOutputElements()
    ensures multiset([1, 2, 3, 4, 5, 6]) == multiset{1, 2, 3, 4, 5, 6}
  {
  }

  /** The second input and its expected output hold the same elements. */
  lemma SecondElementsReordered()
    ensures multiset{5, 2, 4, 6, 1, 3} == multiset{1, 2, 3, 4, 5, 6}
  {
  }

  /** The second expected output is sorted. */
  lemma SecondOutputSorted()
    ensures IsSorted([1, 2, 3, 4, 5, 6])
  {
  }

  /** Test 2: `[5, 2, 4, 6, 1, 3]`. */
  lemma SecondTestInput(r: seq<int>)
    requires IsSorted(r) && multiset(r) == multiset([5, 2, 4, 6, 1, 3])
    ensures r == [1, 2, 3, 4, 5, 6]
  {
    SecondInputElements();
    SecondOutputElements();
    SecondElementsReordered();
    SecondOutputSorted();
    SortedPermutationUnique(r, [1, 2, 3, 4, 5, 6]);
  }

  /** Tests 3 to 5: `[1]`, `[]` and `[3, 3, 3, 3]` are already sorted. */
  lemma ShortAndConstantTestInputs(r: seq<int>, s: seq<int>)
    requires s == [1] || s == [] || s == [3, 3, 3, 3]
    requires IsSorted(r) && multiset(r) == multiset(s)
    ensures r == s
  {
    SortIdempotent(s, r);
  }

  /** Test 6: `list(range(100, 0, -1))`, and more generally the reversed
      dataset of any size: sorting it gives `1, 2, ..., size`. */
  lemma ReversedTestInput(size: nat, r: seq<int>)
    requires IsSorted(r) && multiset(r) == multiset(DataGenerator.ReversedData(size))
    ensures r == DataGenerator.Ascending(size)
  {
    DataGenerator.ReversedDataElements(size);
    SortedPermutationUnique(r, DataGenerator.Ascending(size));
  }

  /** Test 7: `list(range(100))`, and more generally the sorted dataset of any
      size, is given back unchanged. */
  lemma SortedTestInput(size: nat, r: seq<int>)
    requires IsSorted(r) && multiset(r) == multiset(DataGenerator.SortedData(size))
    ensures r == DataGenerator.SortedData(size)
  {
    DataGenerator.SortedDataIsSorted(size);
    SortIdempotent(DataGenerator.SortedData(size), r);
  }
}
