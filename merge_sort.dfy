/** `MergeSort` (algorithms/sorting_algorithms.py): top-down recursive sort on
    slices with a two-pointer merge. */
module MergeSort {
  import opened Sortedness

  /** What `_merge(left, right)` appends from the moment its pointers stand at
      `i` and `j`: repeatedly the smaller head, the left one on ties, and once
      one side is used up, the rest of the other side. */
  function MergedFrom(left: seq<int>, right: seq<int>, i: int, j: int): seq<int>
    requires 0 <= i <= |left| && 0 <= j <= |right|
    decreases |left| - i + |right| - j
  {
    if i == |left| then right[j..]
    else if j == |right| then left[i..]
    else if left[i] <= right[j] then [left[i]] + MergedFrom(left, right, i + 1, j)
    else [right[j]] + MergedFrom(left, right, i, j + 1)
  }

  /** Taking the head off a suffix. */
  lemma SuffixMultiset(s: seq<int>, i: int)
    requires 0 <= i < |s|
    ensures multiset(s[i..]) == multiset{s[i]} + multiset(s[i + 1..])
  {
    assert s[i..] == [s[i]] + s[i + 1..];
  }

  /** The merge from `i` and `j` consists of exactly the unconsumed elements. */
  lemma {:induction false} MergedFromPermutation(left: seq<int>, right: seq<int>, i: int, j: int)
    requires 0 <= i <= |left| && 0 <= j <= |right|
    ensures |MergedFrom(left, right, i, j)| == |left| - i + |right| - j
    ensures multiset(MergedFrom(left, right, i, j)) == multiset(left[i..]) + multiset(right[j..])
    decreases |left| - i + |right| - j
  {
    if i < |left| && j < |right| {
      if left[i] <= right[j] {
        MergedFromPermutation(left, right, i + 1, j);
        SuffixMultiset(left, i);
      } else {
        MergedFromPermutation(left, right, i, j + 1);
        SuffixMultiset(right, j);
      }
    }
  }

  /** The list `_merge(left, right)` returns: as long as both inputs together,
      with the same elements. */
  function Merged(left: seq<int>, right: seq<int>): (r: seq<int>)
    ensures |r| == |left| + |right|
    ensures multiset(r) == multiset(left) + multiset(right)
  {
    MergedFromPermutation(left, right, 0, 0);
    assert left[0..] == left && right[0..] == right;
    MergedFrom(left, right, 0, 0)
  }

  /** Merging sorted lists from positions `i` and `j` gives a sorted list that
      starts with the smaller of the two heads (the left one on ties). */
  lemma {:induction false} MergedFromSorted(left: seq<int>, right: seq<int>, i: int, j: int)
    requires IsSorted(left) && IsSorted(right)
    requires 0 <= i <= |left| && 0 <= j <= |right|
    ensures IsSorted(MergedFrom(left, right, i, j))
    ensures i < |left| && (j == |right| || left[i] <= right[j]) ==> MergedFrom(left, right, i, j)[0] == left[i]
    ensures j < |right| && (i == |left| || right[j] < left[i]) ==> MergedFrom(left, right, i, j)[0] == right[j]
    decreases |left| - i + |right| - j
  {
    if i == |left| {
      SortedSlice(right, j, |right|);
    } else if j == |right| {
      SortedSlice(left, i, |left|);
    } else if left[i] <= right[j] {
      var rest := MergedFrom(left, right, i + 1, j);
      MergedFromSorted(left, right, i + 1, j);
      if i + 1 < |left| {
        SortedAt(left, i, i + 1);
      }
      SortedCons(left[i], rest);
    } else {
      var rest := MergedFrom(left, right, i, j + 1);
      MergedFromSorted(left, right, i, j + 1);
      if j + 1 < |right| {
        SortedAt(right, j, j + 1);
      }
      SortedCons(right[j], rest);
    }
  }

  /** Merging two sorted lists gives a sorted list. */
  lemma MergedSorted(left: seq<int>, right: seq<int>)
    requires IsSorted(left) && IsSorted(right)
    ensures IsSorted(Merged(left, right))
  {
    MergedFromSorted(left, right, 0, 0);
  }

  /** One step of the two-pointer loop: appending the smaller head (the left
      one on ties) and advancing its pointer leaves the final result unchanged. */
  lemma MergedFromStep(left: seq<int>, right: seq<int>, i: int, j: int, done: seq<int>)
    requires 0 <= i < |left| && 0 <= j < |right|
    ensures left[i] <= right[j] ==>
      (done + [left[i]]) + MergedFrom(left, right, i + 1, j) == done + MergedFrom(left, right, i, j)
    ensures right[j] < left[i] ==>
      (done + [right[j]]) + MergedFrom(left, right, i, j + 1) == done + MergedFrom(left, right, i, j)
  {
    if left[i] <= right[j] {
      var rest := MergedFrom(left, right, i + 1, j);
      assert MergedFrom(left, right, i, j) == [left[i]] + rest;
      assert (done + [left[i]]) + rest == done + ([left[i]] + rest);
    } else {
      var rest := MergedFrom(left, right, i, j + 1);
      assert MergedFrom(left, right, i, j) == [right[j]] + rest;
      assert (done + [right[j]]) + rest == done + ([right[j]] + rest);
    }
  }

  /** Once one side is used up, the merge is what is left of both sides, so
      appending the two remainders to the list built so far, as the two
      `extend` calls do, completes it. */
  lemma MergedFromRemainder(left: seq<int>, right: seq<int>, i: int, j: int, done: seq<int>)
    requires 0 <= i <= |left| && 0 <= j <= |right|
    requires i == |left| || j == |right|
    ensures MergedFrom(left, right, i, j) == left[i..] + right[j..]
    ensures (done + left[i..]) + right[j..] == done + MergedFrom(left, right, i, j)
  {
    if i == |left| {
      assert left[i..] == [];
    } else {
      assert right[j..] == [];
    }
    assert (done + left[i..]) + right[j..] == done + (left[i..] + right[j..]);
  }

  /** `_merge(left, right)`: the two-pointer loop, then the two remainders. */
  method Merge(left: seq<int>, right: seq<int>) returns (result: seq<int>)
    ensures result == Merged(left, right)
  {
    result := [];
    var i, j := 0, 0;
    while i < |left| && j < |right|
      invariant 0 <= i <= |left| && 0 <= j <= |right|
      invariant result + MergedFrom(left, right, i, j) == MergedFrom(left, right, 0, 0)
    {
      MergedFromStep(left, right, i, j, result);
      if left[i] <= right[j] {
        result := result + [left[i]];
        i := i + 1;
      } else {
        result := result + [right[j]];
        j := j + 1;
      }
    }
    MergedFromRemainder(left, right, i, j, result);
    result := result + left[i..];
    result := result + right[j..];
  }

  /** The list `_merge_sort(arr)` returns: split at `len // 2`, sort both
      slices, merge them. It is sorted and has the same elements as `s`. */
  function MergeSorted(s: seq<int>): (r: seq<int>)
    ensures IsSorted(r)
    ensures multiset(r) == multiset(s)
    decreases |s|
  {
    if |s| <= 1 then
      ShortIsSorted(s);
      s
    else
      var mid := |s| / 2;
      var left := MergeSorted(s[..mid]);
      var right := MergeSorted(s[mid..]);
      MergedSorted(left, right);
      assert s == s[..mid] + s[mid..];
      Merged(left, right)
  }

  /** `_merge_sort(arr)`: the recursion itself, merging with `Merge`. */
  method MergeSortRec(arr: seq<int>) returns (r: seq<int>)
    ensures r == MergeSorted(arr)
    decreases |arr|
  {
    if |arr| <= 1 {
      return arr;
    }
    var mid := |arr| / 2;
    var left := MergeSortRec(arr[..mid]);
    var right := MergeSortRec(arr[mid..]);
    r := Merge(left, right);
  }

  /** `MergeSort.sort`: a list of length 0 or 1 comes back as a copy of itself,
      any other list is merge-sorted; the result is sorted and has the same
      elements. */
  method Sort(arr: seq<int>) returns (r: seq<int>)
    ensures IsSorted(r) && multiset(r) == multiset(arr)
    ensures |arr| <= 1 ==> r == arr
  {
    if |arr| <= 1 {
      ShortIsSorted(arr);
      return arr;
    }
    r := MergeSortRec(arr);
  }
}
