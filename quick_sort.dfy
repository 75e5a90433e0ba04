/** `QuickSort` (algorithms/sorting_algorithms.py): Lomuto partition around a
    randomly chosen pivot, with the recursion replaced by an explicit stack of
    inclusive `(low, high)` ranges. */
module QuickSort {
  import opened Sortedness
  import opened Permutations

  /** One `(low, high)` entry of the work stack; both bounds are inclusive, and
      `(p + 1, p)` is an empty range. */
  datatype Range = Range(low: int, high: int)

  predicate Contains(r: Range, k: int)
  {
    r.low <= k <= r.high
  }

  function Size(r: Range): int
  {
    r.high - r.low + 1
  }

  /** The two pushes that follow a partition of `(low, high)` around `p`. */
  function PushHalves(stack: seq<Range>, low: int, p: int, high: int): (r: seq<Range>)
    requires low <= p <= high
    ensures |r| == |stack| + 2 && r[..|stack|] == stack
    ensures {r[|stack|], r[|stack| + 1]} == {Range(low, p - 1), Range(p + 1, high)}
    // the smaller side is pushed last, so it is popped next
    ensures Size(r[|stack| + 1]) <= Size(r[|stack|])
    // both pushes are strict sub-ranges of the popped range that leave out the pivot
    ensures forall t :: |stack| <= t < |r| ==>
              0 <= Size(r[t]) < high - low + 1 && !Contains(r[t], p) &&
              forall k :: Contains(r[t], k) ==> low <= k <= high
  {
    if p - low <= high - p then
      stack + [Range(p + 1, high), Range(low, p - 1)]
    else
      stack + [Range(low, p - 1), Range(p + 1, high)]
  }

  /** Termination measure of the work loop: a range of size m weighs 2m + 1,
      which is more than its two halves together. */
  function Weight(stack: seq<Range>): nat
  {
    if stack == [] then 0
    else
      var m := Size(stack[|stack| - 1]);
      Weight(stack[..|stack| - 1]) + 2 * (if m < 0 then 0 else m) + 1
  }

  /** Popping a range and pushing its two halves lowers the weight. */
  lemma WeightDecreases(rest: seq<Range>, lo: int, p: int, hi: int)
    requires lo <= p <= hi
    ensures Weight(PushHalves(rest, lo, p, hi)) < Weight(rest + [Range(lo, hi)])
  {
    var st' := PushHalves(rest, lo, p, hi);
    assert st'[..|rest| + 1][..|rest|] == rest;
    assert (rest + [Range(lo, hi)])[..|rest|] == rest;
  }

  /** Popping a range lowers the weight. */
  lemma WeightPop(rest: seq<Range>, top: Range)
    ensures Weight(rest) < Weight(rest + [top])
  {
    assert (rest + [top])[..|rest|] == rest;
  }

  /** Some pending range covers both `i` and `j`. */
  ghost predicate Together(stack: seq<Range>, i: int, j: int)
  {
    exists t :: 0 <= t < |stack| && Contains(stack[t], i) && Contains(stack[t], j)
  }

  /** The pending ranges lie within `[low, high]`, are well formed (possibly
      empty), and no position belongs to two of them. */
  ghost predicate WellFormed(stack: seq<Range>, low: int, high: int)
  {
    (forall t :: 0 <= t < |stack| ==>
       low <= stack[t].low && stack[t].high <= high && stack[t].low <= stack[t].high + 1) &&
    (forall t, u, k :: 0 <= t < |stack| && 0 <= u < |stack| && t != u && Contains(stack[t], k) ==>
       !Contains(stack[u], k))
  }

  /** Within `[low, high]` every pair of positions is in order unless some
      pending range still holds both of them. */
  ghost predicate SortedApartFrom(s: seq<int>, low: int, high: int, stack: seq<Range>)
  {
    0 <= low && high < |s| &&
    forall i, j :: low <= i < j <= high && !Together(stack, i, j) ==> s[i] <= s[j]
  }

  /** The loop invariant of `_quick_sort`. */
  ghost predicate StackInvariant(s: seq<int>, low: int, high: int, stack: seq<Range>)
  {
    WellFormed(stack, low, high) && SortedApartFrom(s, low, high, stack)
  }

  /** What `_partition(arr, lo, hi)` guarantees about its result `p`. */
  ghost predicate Partitioned(s: seq<int>, lo: int, p: int, hi: int)
  {
    0 <= lo <= p <= hi < |s| &&
    (forall k :: lo <= k < p ==> s[k] <= s[p]) &&
    (forall k :: p < k <= hi ==> s[p] < s[k])
  }

  /** The popped range lies within `[low, high]`. */
  lemma TopWithin(rest: seq<Range>, top: Range, low: int, high: int)
    requires WellFormed(rest + [top], low, high)
    ensures low <= top.low && top.high <= high && top.low <= top.high + 1
  {
    assert (rest + [top])[|rest|] == top;
  }

  /** Popping a range with at most one position keeps the invariant. */
  lemma PopSmall(s: seq<int>, low: int, high: int, rest: seq<Range>, top: Range)
    requires StackInvariant(s, low, high, rest + [top])
    requires top.high <= top.low
    ensures StackInvariant(s, low, high, rest)
  {
    var st := rest + [top];
    assert forall t :: 0 <= t < |rest| ==> rest[t] == st[t];
  }

  /** After the halves replace the popped range, the stack is still well
      formed, and no other pending range touches the popped one. */
  lemma HalvesWellFormed(rest: seq<Range>, low: int, high: int, lo: int, p: int, hi: int)
    requires WellFormed(rest + [Range(lo, hi)], low, high) && lo <= p <= hi
    ensures WellFormed(PushHalves(rest, lo, p, hi), low, high)
    ensures forall t, k :: 0 <= t < |rest| && lo <= k <= hi ==> !Contains(rest[t], k)
  {
    var st := rest + [Range(lo, hi)];
    var st' := PushHalves(rest, lo, p, hi);
    var n := |rest|;
    assert st[n] == Range(lo, hi);
    assert forall t :: 0 <= t < n ==> st[t] == rest[t] && st'[t] == rest[t];
    forall t, k | 0 <= t < n && lo <= k <= hi
      ensures !Contains(rest[t], k)
    {
      assert Contains(st[n], k);
    }
    forall t, u, k | 0 <= t < |st'| && 0 <= u < |st'| && t != u && Contains(st'[t], k)
      ensures !Contains(st'[u], k)
    {
      if t < n && u < n {
        assert Contains(st[t], k);
      } else if t < n {
        assert !(lo <= k <= hi);
      } else if u < n {
        assert lo <= k <= hi;
      }
    }
  }

  /** Two positions of the popped range that neither half holds together lie
      on either side of the pivot (or on it), so the partition orders them. */
  lemma PairAroundPivot(s': seq<int>, rest: seq<Range>, lo: int, p: int, hi: int, i: int, j: int)
    requires Partitioned(s', lo, p, hi)
    requires lo <= i < j <= hi && !Together(PushHalves(rest, lo, p, hi), i, j)
    ensures s'[i] <= s'[j]
  {
    var st' := PushHalves(rest, lo, p, hi);
    var n := |rest|;
    assert st'[n] == Range(lo, p - 1) || st'[n + 1] == Range(lo, p - 1);
    assert st'[n] == Range(p + 1, hi) || st'[n + 1] == Range(p + 1, hi);
    assert i <= p <= j;
  }

  /** Two positions outside the popped range keep their values, and the new
      stack holds them together no more than the old one did. */
  lemma PairOutside(rest: seq<Range>, lo: int, p: int, hi: int, i: int, j: int)
    requires lo <= p <= hi
    requires !(lo <= i <= hi) && !(lo <= j <= hi)
    requires !Together(PushHalves(rest, lo, p, hi), i, j)
    ensures !Together(rest + [Range(lo, hi)], i, j)
  {
    var st := rest + [Range(lo, hi)];
    var st' := PushHalves(rest, lo, p, hi);
    forall t | 0 <= t < |st|
      ensures !(Contains(st[t], i) && Contains(st[t], j))
    {
      if t < |rest| {
        assert st'[t] == st[t];
      }
    }
  }

  /** A position `m` of the popped range and a position `x` outside it were
      never held together by the old stack. */
  lemma PairStraddles(rest: seq<Range>, lo: int, hi: int, m: int, x: int)
    requires forall t, k :: 0 <= t < |rest| && lo <= k <= hi ==> !Contains(rest[t], k)
    requires lo <= m <= hi && !(lo <= x <= hi)
    ensures !Together(rest + [Range(lo, hi)], m, x) && !Together(rest + [Range(lo, hi)], x, m)
  {
    var st := rest + [Range(lo, hi)];
    assert forall t :: 0 <= t < |rest| ==> st[t] == rest[t];
    assert st[|rest|] == Range(lo, hi);
  }

  /** Where, in the popped range before partitioning, the value now at `k` was. */
  lemma OldPosition(s: seq<int>, s': seq<int>, lo: int, hi: int, k: int) returns (m: int)
    requires 0 <= lo <= k <= hi < |s| && hi < |s'|
    requires multiset(s[lo..hi + 1]) == multiset(s'[lo..hi + 1])
    ensures lo <= m <= hi && s[m] == s'[k]
  {
    MemberOfPermutation(s[lo..hi + 1], s'[lo..hi + 1], k - lo);
    var m' :| 0 <= m' < hi + 1 - lo && s[lo..hi + 1][m'] == s'[lo..hi + 1][k - lo];
    m := lo + m';
  }

  /** Partitioning the popped range and pushing its two halves keeps the
      invariant: pairs split by the pivot are ordered by the partition, and
      pairs with one end outside the popped range were already ordered against
      every value the range holds. */
  lemma {:induction false} PartitionKeepsInvariant(s: seq<int>, s': seq<int>, low: int, high: int,
                                                   rest: seq<Range>, lo: int, p: int, hi: int)
    requires StackInvariant(s, low, high, rest + [Range(lo, hi)])
    requires Partitioned(s', lo, p, hi) && SameOutside(s, s', lo, hi)
    requires multiset(s[lo..hi + 1]) == multiset(s'[lo..hi + 1])
    ensures StackInvariant(s', low, high, PushHalves(rest, lo, p, hi))
  {
    var st := rest + [Range(lo, hi)];
    var st' := PushHalves(rest, lo, p, hi);
    HalvesWellFormed(rest, low, high, lo, p, hi);
    forall i, j | low <= i < j <= high && !Together(st', i, j)
      ensures s'[i] <= s'[j]
    {
      var inI, inJ := lo <= i <= hi, lo <= j <= hi;
      if inI && inJ {
        PairAroundPivot(s', rest, lo, p, hi, i, j);
      } else if !inI && !inJ {
        PairOutside(rest, lo, p, hi, i, j);
      } else if inI {
        // s'[i] is a value of the popped range, and all of those were below s[j]
        var m := OldPosition(s, s', lo, hi, i);
        PairStraddles(rest, lo, hi, m, j);
      } else {
        // s'[j] is a value of the popped range, and all of those were above s[i]
        var m := OldPosition(s, s', lo, hi, j);
        PairStraddles(rest, lo, hi, m, i);
      }
    }
  }

  /** With no range pending, the whole of `[low, high]` is sorted. */
  lemma EmptyStackSorted(s: seq<int>, low: int, high: int)
    requires SortedApartFrom(s, low, high, []) && low <= high + 1
    ensures IsSorted(s[low..high + 1])
  {
    var segment := s[low..high + 1];
    forall i | 0 <= i < |segment| - 1
      ensures segment[i] <= segment[i + 1]
    {
      assert !Together([], low + i, low + i + 1);
    }
  }

  /** `s` and `t` agree everywhere except possibly on `[lo, hi]`. */
  ghost predicate SameOutside(s: seq<int>, t: seq<int>, lo: int, hi: int)
  {
    |s| == |t| && forall k :: 0 <= k < |s| && !(lo <= k <= hi) ==> s[k] == t[k]
  }

  lemma SameOutsideWidens(s: seq<int>, t: seq<int>, u: seq<int>, lo: int, hi: int, lo': int, hi': int)
    requires SameOutside(s, t, lo, hi) && SameOutside(t, u, lo', hi')
    requires lo <= lo' && hi' <= hi
    ensures SameOutside(s, u, lo, hi)
  {
  }

  /** `_partition(arr, low, high)`, with the result of `random.randint(low, high)`
      passed in as `pivotIndex`: the pivot is moved to `high`, every element
      `<=` it is gathered on the left, and the pivot is put between the two
      groups. The contract holds for every admissible pivot index. */
  method Partition(a: array<int>, low: int, high: int, pivotIndex: int) returns (p: int)
    requires 0 <= low <= pivotIndex <= high < a.Length
    modifies a
    ensures Partitioned(a[..], low, p, high)
    ensures SameOutside(old(a[..]), a[..], low, high)
    ensures multiset(a[..]) == multiset(old(a[..]))
  {
    Swap(a, pivotIndex, high);
    var pivot := a[high];
    var i := low - 1;
    for j := low to high
      invariant low - 1 <= i < j
      invariant a[high] == pivot
      invariant forall k :: low <= k <= i ==> a[k] <= pivot
      invariant forall k :: i < k < j ==> pivot < a[k]
      invariant SameOutside(old(a[..]), a[..], low, high)
      invariant multiset(a[..]) == multiset(old(a[..]))
    {
      if a[j] <= pivot {
        i := i + 1;
        Swap(a, i, j);
      }
    }
    Swap(a, i + 1, high);
    p := i + 1;
  }

  /** The loop invariant of `_quick_sort`, with `s0` the array on entry: the
      stack invariant, and the array is a permutation of `s0` that agrees with
      it outside `[low, high]`. */
  ghost predicate LoopInvariant(s: seq<int>, s0: seq<int>, low: int, high: int, stack: seq<Range>)
  {
    StackInvariant(s, low, high, stack) && multiset(s) == multiset(s0) && SameOutside(s0, s, low, high)
  }

  /** One iteration that partitions the popped range keeps the loop invariant
      and lowers the weight. */
  lemma PartitionStep(s0: seq<int>, s: seq<int>, s': seq<int>, low: int, high: int,
                      rest: seq<Range>, top: Range, p: int)
    requires LoopInvariant(s, s0, low, high, rest + [top])
    requires Partitioned(s', top.low, p, top.high) && SameOutside(s, s', top.low, top.high)
    requires multiset(s') == multiset(s)
    ensures LoopInvariant(s', s0, low, high, PushHalves(rest, top.low, p, top.high))
    ensures Weight(PushHalves(rest, top.low, p, top.high)) < Weight(rest + [top])
  {
    TopWithin(rest, top, low, high);
    SegmentPermutation(s, s', top.low, top.high + 1);
    PartitionKeepsInvariant(s, s', low, high, rest, top.low, p, top.high);
    SameOutsideWidens(s0, s, s', low, high, top.low, top.high);
    WeightDecreases(rest, top.low, p, top.high);
  }

  /** One iteration that pops a range of at most one position keeps the loop
      invariant and lowers the weight. */
  lemma PopStep(s0: seq<int>, s: seq<int>, low: int, high: int, rest: seq<Range>, top: Range)
    requires LoopInvariant(s, s0, low, high, rest + [top]) && top.high <= top.low
    ensures LoopInvariant(s, s0, low, high, rest)
    ensures Weight(rest) < Weight(rest + [top])
  {
    PopSmall(s, low, high, rest, top);
    WeightPop(rest, top);
  }

  /** `_quick_sort(arr, low, high)`: sorts `a[low..high]` (inclusive) by
      popping ranges off an explicit stack until it is empty; a popped range
      with two or more positions is partitioned and its two halves are pushed,
      the smaller one last. Nothing outside `[low, high]` changes. */
  method QuickSortRange(a: array<int>, low: int, high: int)
    requires 0 <= low <= high + 1 <= a.Length
    modifies a
    ensures IsSorted(a[low..high + 1])
    ensures multiset(a[..]) == multiset(old(a[..]))
    ensures SameOutside(old(a[..]), a[..], low, high)
  {
    var stack := [Range(low, high)];
    while stack != []
      invariant LoopInvariant(a[..], old(a[..]), low, high, stack)
      decreases Weight(stack)
    {
      var top := stack[|stack| - 1];
      var rest := stack[..|stack| - 1];
      assert stack == rest + [top];
      stack := rest;
      if top.low < top.high {
        TopWithin(rest, top, low, high);
        ghost var before := a[..];
        var pivotIndex :| top.low <= pivotIndex <= top.high;
        var p := Partition(a, top.low, top.high, pivotIndex);
        PartitionStep(old(a[..]), before, a[..], low, high, rest, top, p);
        stack := PushHalves(rest, top.low, p, top.high);
      } else {
        PopStep(old(a[..]), a[..], low, high, rest, top);
      }
    }
    EmptyStackSorted(a[..], low, high);
  }

  /** `QuickSort.sort`: sorts a copy of the caller's list and returns it. The
      method has no `modifies` clause, so the caller's array is untouched;
      lists of length 0 or 1 come back as an equal copy. */
  method Sort(arr: array<int>) returns (r: array<int>)
    ensures fresh(r)
    ensures IsSorted(r[..]) && multiset(r[..]) == multiset(arr[..])
    ensures arr.Length <= 1 ==> r[..] == arr[..]
  {
    r := new int[arr.Length](k reads arr requires 0 <= k < arr.Length => arr[k]);
    assert r[..] == arr[..];
    if arr.Length <= 1 {
      ShortIsSorted(r[..]);
      return;
    }
    QuickSortRange(r, 0, r.Length - 1);
    assert r[..] == r[0..r.Length];
  }
}
