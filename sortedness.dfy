/** The repository's own definition of "correctly sorted" (utils/helpers.py,
    `is_sorted`) and the facts about it that the sort proofs rely on. */
module Sortedness {

  /** `is_sorted`: every adjacent pair is in order, `s[i] <= s[i + 1]` for each
      `i` in `range(len(s) - 1)`. */
  predicate IsSorted(s: seq<int>)
  {
    forall i :: 0 <= i < |s| - 1 ==> s[i] <= s[i + 1]
  }

  /** The global ordering the sort proofs reason with: every earlier element is
      at most every later one. */
  ghost predicate Ordered(s: seq<int>)
  {
    forall i, j :: 0 <= i <= j < |s| ==> s[i] <= s[j]
  }

  /** The adjacency range is empty for lists of length 0 and 1. */
  lemma ShortIsSorted(s: seq<int>)
    requires |s| <= 1
    ensures IsSorted(s)
  {
  }

  /** One adjacent descent is enough to make `is_sorted` false; this is the
      condition on which the performance harness raises. */
  lemma DescentNotSorted(s: seq<int>, i: int)
    requires 0 <= i < |s| - 1 && s[i] > s[i + 1]
    ensures !IsSorted(s)
  {
  }

  lemma {:induction false} SortedAt(s: seq<int>, i: int, j: int)
    requires IsSorted(s) && 0 <= i <= j < |s|
    ensures s[i] <= s[j]
    decreases j - i
  {
    if i < j {
      SortedAt(s, i + 1, j);
    }
  }

  /** The adjacent-pair check and the global ordering are the same thing. */
  lemma {:induction false} SortedIffOrdered(s: seq<int>)
    ensures IsSorted(s) <==> Ordered(s)
  {
    if IsSorted(s) {
      forall i, j | 0 <= i <= j < |s|
        ensures s[i] <= s[j]
      {
        SortedAt(s, i, j);
      }
    }
  }

  /** Putting an element no larger than the head in front keeps a list sorted. */
  lemma SortedCons(x: int, s: seq<int>)
    requires IsSorted(s) && (s == [] || x <= s[0])
    ensures IsSorted([x] + s)
  {
    var t := [x] + s;
    forall i | 0 <= i < |t| - 1
      ensures t[i] <= t[i + 1]
    {
      if i > 0 {
        assert t[i] == s[i - 1] && t[i + 1] == s[i];
      }
    }
  }

  /** A sorted list is sorted on every slice. */
  lemma SortedSlice(s: seq<int>, lo: int, hi: int)
    requires IsSorted(s) && 0 <= lo <= hi <= |s|
    ensures IsSorted(s[lo..hi])
  {
    forall i | 0 <= i < hi - lo - 1
      ensures s[lo..hi][i] <= s[lo..hi][i + 1]
    {
      assert s[lo..hi][i] == s[lo + i] && s[lo..hi][i + 1] == s[lo + i + 1];
    }
  }

  /** Two sorted lists with the same elements start with the same (least) element. */
  lemma SortedHeadsAgree(a: seq<int>, b: seq<int>)
    requires IsSorted(a) && IsSorted(b) && a != [] && b != []
    requires multiset(a) == multiset(b)
    ensures a[0] == b[0]
  {
    assert a[0] in multiset(b);
    assert b[0] in multiset(a);
    var ka :| 0 <= ka < |a| && a[ka] == b[0];
    var kb :| 0 <= kb < |b| && b[kb] == a[0];
    SortedAt(a, 0, ka);
    SortedAt(b, 0, kb);
  }

  lemma TailMultiset(a: seq<int>)
    requires a != []
    ensures multiset(a[1..]) == multiset(a) - multiset{a[0]}
  {
    assert a == [a[0]] + a[1..];
  }

  /** There is exactly one sorted arrangement of a multiset of integers: two
      sorted lists with the same elements are equal. Hence every sort returns
      the same list whatever pivots it happens to choose, and sorting is
      idempotent. */
  lemma {:induction false} SortedPermutationUnique(a: seq<int>, b: seq<int>)
    requires IsSorted(a) && IsSorted(b)
    requires multiset(a) == multiset(b)
    ensures a == b
    decreases |a|
  {
    assert |b| == |multiset(b)| == |multiset(a)| == |a|;
    if a != [] {
      SortedHeadsAgree(a, b);
      TailMultiset(a);
      TailMultiset(b);
      SortedSlice(a, 1, |a|);
      SortedSlice(b, 1, |b|);
      SortedPermutationUnique(a[1..], b[1..]);
      assert a == [a[0]] + a[1..] && b == [b[0]] + b[1..];
    }
  }
}
