/** `HeapSort` (algorithms/sorting_algorithms.py): an in-place max-heap sort on
    a copy of the input. The heap lives in the prefix `arr[..n]`, with the
    children of index `k` at `2 * k + 1` and `2 * k + 2`. */
module HeapSort {
  import opened Sortedness
  import opened Permutations

  /** The max-heap rule at index `k` of the heap `s[..n]`: `s[k]` is at least
      each of its children that lies inside the heap. */
  predicate HeapAt(s: seq<int>, n: int, k: int)
    requires 0 <= k && n <= |s|
  {
    (2 * k + 1 < n ==> s[2 * k + 1] <= s[k]) &&
    (2 * k + 2 < n ==> s[2 * k + 2] <= s[k])
  }

  /** The max-heap rule holds at every index of `[lo, n)`. */
  predicate HeapFrom(s: seq<int>, lo: int, n: int)
    requires 0 <= lo && n <= |s|
  {
    forall k :: lo <= k < n ==> HeapAt(s, n, k)
  }

  /** What `_heapify(arr, n, i)` expects: the rule holds on `[lo, n)` except
      perhaps at `i`, and the parent of `i`, when it is in `[lo, n)`, is at
      least each child of `i`, so that whatever climbs to `i` still fits
      under that parent. */
  ghost predicate HeapExceptAt(s: seq<int>, lo: int, n: int, i: int)
    requires 0 <= lo <= i < n <= |s|
  {
    (forall k :: lo <= k < n && k != i ==> HeapAt(s, n, k)) &&
    (0 < i && lo <= (i - 1) / 2 ==>
      (2 * i + 1 < n ==> s[2 * i + 1] <= s[(i - 1) / 2]) &&
      (2 * i + 2 < n ==> s[2 * i + 2] <= s[(i - 1) / 2]))
  }

  /** `m` is the index `_heapify` calls `largest`: `i` unless a child inside the
      heap is strictly larger, then the left child unless the right one is
      strictly larger than that. */
  function Largest(s: seq<int>, n: int, i: int): (m: int)
    requires 0 <= i < n <= |s|
    ensures m == i || m == 2 * i + 1 || m == 2 * i + 2
    ensures i <= m < n
    ensures s[i] <= s[m]
    ensures 2 * i + 1 < n ==> s[2 * i + 1] <= s[m]
    ensures 2 * i + 2 < n ==> s[2 * i + 2] <= s[m]
    ensures m != i ==> s[i] < s[m]
  {
    var l := if 2 * i + 1 < n && s[2 * i + 1] > s[i] then 2 * i + 1 else i;
    if 2 * i + 2 < n && s[2 * i + 2] > s[l] then 2 * i + 2 else l
  }

  /** When `i` is already the largest of itself and its children, the heap is
      whole. */
  lemma SiftDone(s: seq<int>, lo: int, n: int, i: int)
    requires 0 <= lo <= i < n <= |s|
    requires HeapExceptAt(s, lo, n, i) && Largest(s, n, i) == i
    ensures HeapFrom(s, lo, n)
  {
  }

  /** Swapping `i` with its larger child `m` repairs the rule at `i` and moves
      the one possible violation down to `m`. */
  lemma SiftStep(s: seq<int>, t: seq<int>, lo: int, n: int, i: int, m: int)
    requires 0 <= lo <= i < n <= |s| && |t| == |s|
    requires HeapExceptAt(s, lo, n, i)
    requires m == Largest(s, n, i) && m != i
    requires t[i] == s[m] && t[m] == s[i]
    requires forall k :: 0 <= k < |s| && k != i && k != m ==> t[k] == s[k]
    ensures HeapExceptAt(t, lo, n, m)
  {
    forall k | lo <= k < n && k != m
      ensures HeapAt(t, n, k)
    {
      if k == i {
        assert HeapAt(t, n, k);
      } else if 0 < i && k == (i - 1) / 2 {
        assert HeapAt(s, n, k);
        assert 2 * k + 1 == i || 2 * k + 2 == i;
      } else {
        assert HeapAt(s, n, k);
        assert 2 * k + 1 != i && 2 * k + 2 != i;
        assert 2 * k + 1 != m && 2 * k + 2 != m;
      }
    }
    assert (m - 1) / 2 == i;
    assert HeapAt(s, n, m);
  }

  /** `_heapify(arr, n, i)`: let the element at `i` sink to its place in the
      heap `arr[..n]`, swapping it with its larger child while that child is
      strictly larger. Only `arr[i..n]` is reordered; `lo` is the start of the
      part of the array that is already a heap apart from `i`. */
  method Heapify(a: array<int>, n: int, i: int, ghost lo: int)
    requires 0 <= lo <= i < n <= a.Length
    requires HeapExceptAt(a[..], lo, n, i)
    modifies a
    ensures HeapFrom(a[..], lo, n)
    ensures multiset(a[..]) == multiset(old(a[..]))
    ensures forall k :: 0 <= k < a.Length && !(i <= k < n) ==> a[k] == old(a[k])
    decreases n - i
  {
    var largest := i;
    var left := 2 * i + 1;
    var right := 2 * i + 2;
    if left < n && a[left] > a[largest] {
      largest := left;
    }
    if right < n && a[right] > a[largest] {
      largest := right;
    }
    assert largest == Largest(a[..], n, i);
    if largest != i {
      ghost var s := a[..];
      Swap(a, i, largest);
      SiftStep(s, a[..], lo, n, i, largest);
      Heapify(a, n, largest, lo);
    } else {
      SiftDone(a[..], lo, n, i);
    }
  }

  /** In a heap the root is the largest element. */
  lemma {:induction false} RootIsMax(s: seq<int>, n: int, k: int)
    requires 0 <= k < n <= |s| && HeapFrom(s, 0, n)
    ensures s[k] <= s[0]
    decreases k
  {
    if k > 0 {
      var parent := (k - 1) / 2;
      assert HeapAt(s, n, parent);
      RootIsMax(s, n, parent);
    }
  }

  /** Indices from `n / 2` on have no child inside a heap of size `n`. */
  lemma LeavesAreHeaps(s: seq<int>, n: int)
    requires 0 <= n <= |s|
    ensures HeapFrom(s, n / 2, n)
  {
  }

  /** The invariant of the extraction loop of `_heap_sort` before the
      iteration for `i`: `s[..i+1]` is a max-heap, and the suffix `s[i+1..]` is
      sorted and at least every element of the heap. */
  ghost predicate Extracting(s: seq<int>, i: int)
  {
    -1 <= i < |s| && HeapFrom(s, 0, i + 1) && IsSorted(s[i + 1..]) &&
    (i + 1 < |s| ==> forall x :: 0 <= x <= i ==> s[x] <= s[i + 1])
  }

  /** The suffix from `i` is sorted and at least every element before it. */
  ghost predicate SuffixReady(s: seq<int>, i: int)
  {
    0 <= i < |s| && IsSorted(s[i..]) && forall x :: 0 <= x < i ==> s[x] <= s[i]
  }

  /** A heap on `[i + 1, n)` is a heap on `[i, n)` broken at most at `i`. */
  lemma BuildStep(s: seq<int>, n: int, i: int)
    requires 0 <= i < n <= |s| && HeapFrom(s, i + 1, n)
    ensures HeapExceptAt(s, i, n, i)
  {
  }

  /** Swapping the root (the maximum of `s[..i+1]`) to `i` extends the sorted
      suffix by one and leaves a heap that is broken only at the root. */
  lemma ExtractStep(s: seq<int>, t: seq<int>, i: int)
    requires Extracting(s, i) && 0 < i && |t| == |s|
    requires t[0] == s[i] && t[i] == s[0]
    requires forall k :: 0 <= k < |s| && k != 0 && k != i ==> t[k] == s[k]
    ensures HeapExceptAt(t, 0, i, 0)
    ensures SuffixReady(t, i)
  {
    forall x | 0 <= x < i
      ensures t[x] <= t[i]
    {
      if x == 0 {
        RootIsMax(s, i + 1, i);
      } else {
        RootIsMax(s, i + 1, x);
      }
    }
    forall k | 0 <= k < i && k != 0
      ensures HeapAt(t, i, k)
    {
      assert HeapAt(s, i + 1, k);
    }
    assert t[i + 1..] == s[i + 1..];
    if i + 1 < |s| {
      RootIsMax(s, i + 1, 0);
    }
    SortedCons(t[i], t[i + 1..]);
    assert t[i..] == [t[i]] + t[i + 1..];
  }

  /** Once `_heapify` has rearranged `t[..i]` into a heap `u[..i]`, the
      invariant holds for the next iteration. */
  lemma HeapifyKeepsBound(t: seq<int>, u: seq<int>, i: int)
    requires SuffixReady(t, i) && 0 < i && |u| == |t|
    requires multiset(t) == multiset(u) && HeapFrom(u, 0, i)
    requires forall k :: 0 <= k < |t| && !(0 <= k < i) ==> u[k] == t[k]
    ensures Extracting(u, i - 1)
  {
    SegmentPermutation(t, u, 0, i);
    UpperBoundCarries(t[..i], u[..i], t[i]);
    assert forall x :: 0 <= x < i ==> u[x] == u[..i][x];
    assert u[i..] == t[i..];
  }

  /** When the extraction loop stops, the whole array is sorted. */
  lemma FinishedSorted(s: seq<int>, i: int)
    requires Extracting(s, i) && i <= 0
    ensures IsSorted(s)
  {
    if |s| <= 1 {
      ShortIsSorted(s);
    } else if i == 0 {
      SortedCons(s[0], s[1..]);
      assert s == [s[0]] + s[1..];
    } else {
      assert s == s[i + 1..];
    }
  }

  /** The first loop of `_heap_sort(arr)`: `_heapify` every parent from
      `n // 2 - 1` down to the root; afterwards all of `arr` is a max-heap. */
  method BuildHeap(a: array<int>)
    modifies a
    ensures HeapFrom(a[..], 0, a.Length)
    ensures multiset(a[..]) == multiset(old(a[..]))
  {
    var n := a.Length;
    LeavesAreHeaps(a[..], n);
    var i := n / 2;
    while i > 0
      invariant 0 <= i <= n / 2
      invariant HeapFrom(a[..], i, n)
      invariant multiset(a[..]) == multiset(old(a[..]))
    {
      i := i - 1;
      BuildStep(a[..], n, i);
      Heapify(a, n, i, i);
    }
  }

  /** The second loop of `_heap_sort(arr)`: for `i` from `n - 1` down to 1,
      swap the root to `i` and let the new root sink in `arr[..i]`; the suffix
      from `i` is then sorted and dominates the heap before it. */
  method ExtractAll(a: array<int>)
    requires HeapFrom(a[..], 0, a.Length)
    modifies a
    ensures IsSorted(a[..])
    ensures multiset(a[..]) == multiset(old(a[..]))
  {
    var i := a.Length - 1;
    assert a[i + 1..] == [];
    while i > 0
      invariant Extracting(a[..], i)
      invariant multiset(a[..]) == multiset(old(a[..]))
    {
      ghost var s := a[..];
      Swap(a, 0, i);
      ExtractStep(s, a[..], i);
      ghost var t := a[..];
      Heapify(a, i, 0, 0);
      HeapifyKeepsBound(t, a[..], i);
      i := i - 1;
    }
    FinishedSorted(a[..], i);
  }

  /** `_heap_sort(arr)`: build a max-heap bottom-up, then repeatedly swap the
      root to the end of the heap and let the new root sink. */
  method HeapSortInPlace(a: array<int>)
    modifies a
    ensures IsSorted(a[..])
    ensures multiset(a[..]) == multiset(old(a[..]))
  {
    BuildHeap(a);
    ExtractAll(a);
  }

  /** `HeapSort.sort`: a list of length 0 or 1 is copied as it is, any other
      list is copied and heap-sorted in place; the input is not changed. */
  method Sort(arr: array<int>) returns (r: array<int>)
    ensures fresh(r)
    ensures IsSorted(r[..]) && multiset(r[..]) == multiset(arr[..])
    ensures arr.Length <= 1 ==> r[..] == arr[..]
  {
    r := new int[arr.Length](k reads arr requires 0 <= k < arr.Length => arr[k]);
    assert r[..] == arr[..];
    if arr.Length <= 1 {
      ShortIsSorted(r[..]);
      return;
    }
    HeapSortInPlace(r);
  }
}
