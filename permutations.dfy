/** Facts about permutations (equal multisets) and the swap shared by the
    in-place sorts. */
module Permutations {

  /** Every value of a permutation of `s` occurs somewhere in `s`. */
  lemma MemberOfPermutation(s: seq<int>, t: seq<int>, k: int)
    requires multiset(s) == multiset(t) && 0 <= k < |t|
    ensures exists m :: 0 <= m < |s| && s[m] == t[k]
  {
    assert t[k] in multiset(t);
    assert t[k] in s;
  }

  /** Permuting a sequence keeps an upper bound on all of its elements. */
  lemma UpperBoundCarries(s: seq<int>, t: seq<int>, b: int)
    requires multiset(s) == multiset(t)
    requires forall k :: 0 <= k < |s| ==> s[k] <= b
    ensures forall k :: 0 <= k < |t| ==> t[k] <= b
  {
    forall k | 0 <= k < |t|
      ensures t[k] <= b
    {
      MemberOfPermutation(s, t, k);
    }
  }

  /** Permuting a sequence keeps a lower bound on all of its elements. */
  lemma LowerBoundCarries(s: seq<int>, t: seq<int>, b: int)
    requires multiset(s) == multiset(t)
    requires forall k :: 0 <= k < |s| ==> b <= s[k]
    ensures forall k :: 0 <= k < |t| ==> b <= t[k]
  {
    forall k | 0 <= k < |t|
      ensures b <= t[k]
    {
      MemberOfPermutation(s, t, k);
    }
  }

  /** The elements of `s[lo..hi]` are those of `s` less those before `lo` and
      those from `hi` on. */
  lemma SegmentMultiset(s: seq<int>, lo: int, hi: int)
    requires 0 <= lo <= hi <= |s|
    ensures multiset(s[lo..hi]) == multiset(s) - multiset(s[..lo]) - multiset(s[hi..])
  {
    assert s == s[..lo] + s[lo..hi] + s[hi..];
  }

  /** When two equally long sequences are permutations of each other and agree
      outside `[lo, hi)`, the segments `[lo, hi)` are permutations of each other. */
  lemma SegmentPermutation(s: seq<int>, t: seq<int>, lo: int, hi: int)
    requires |s| == |t| && 0 <= lo <= hi <= |s|
    requires multiset(s) == multiset(t)
    requires forall k :: 0 <= k < |s| && !(lo <= k < hi) ==> s[k] == t[k]
    ensures multiset(s[lo..hi]) == multiset(t[lo..hi])
  {
    assert s[..lo] == t[..lo];
    assert s[hi..] == t[hi..];
    SegmentMultiset(s, lo, hi);
    SegmentMultiset(t, lo, hi);
  }

  /** Swaps two cells of `a`: the tuple assignment through which both in-place
      sorts change their array, and so a permutation. */
  method Swap(a: array<int>, i: int, j: int)
    requires 0 <= i < a.Length && 0 <= j < a.Length
    modifies a
    ensures a[i] == old(a[j]) && a[j] == old(a[i])
    ensures forall k :: 0 <= k < a.Length && k != i && k != j ==> a[k] == old(a[k])
    ensures multiset(a[..]) == multiset(old(a[..]))
  {
    a[i], a[j] := a[j], a[i];
  }
}
