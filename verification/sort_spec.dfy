/** What the in-place sorts of the benchmark crate promise, shared by the
    three sort modules: sortedness, permutation and the bookkeeping about
    which positions a step may touch. Collections are modelled as `seq<int>`
    (the source is generic over `PartialOrd`; the benchmarks use `i8`). */
module SortSpec {

  /** Every element of `s[lo..hi]` is at most the ones after it. */
  predicate SortedRange(s: seq<int>, lo: int, hi: int)
    requires 0 <= lo && hi <= |s|
  {
    forall i, j :: lo <= i < j < hi ==> s[i] <= s[j]
  }

  predicate Sorted(s: seq<int>)
  {
    SortedRange(s, 0, |s|)
  }

  /** `b` is `a` rearranged. */
  predicate Perm(a: seq<int>, b: seq<int>)
  {
    multiset(a) == multiset(b)
  }

  /** `b` differs from `a` at most inside `[lo, hi)`. */
  predicate SameOutside(a: seq<int>, b: seq<int>, lo: int, hi: int)
  {
    && |a| == |b| && 0 <= lo <= hi <= |a|
    && (forall k :: 0 <= k < lo ==> a[k] == b[k])
    && (forall k :: hi <= k < |a| ==> a[k] == b[k])
  }

  /** `x` is at most every element of `s[lo..hi]`. */
  predicate AtMostAll(x: int, s: seq<int>, lo: int, hi: int)
    requires 0 <= lo && hi <= |s|
  {
    forall k :: lo <= k < hi ==> x <= s[k]
  }

  /** `x` is at least every element of `s[lo..hi]`. */
  predicate AtLeastAll(x: int, s: seq<int>, lo: int, hi: int)
    requires 0 <= lo && hi <= |s|
  {
    forall k :: lo <= k < hi ==> s[k] <= x
  }

  /** Exchanging two positions. */
  function Swap(s: seq<int>, i: nat, j: nat): (t: seq<int>)
    requires i < |s| && j < |s|
    ensures |t| == |s| && t[i] == s[j] && t[j] == s[i]
    ensures forall k :: 0 <= k < |s| && k != i && k != j ==> t[k] == s[k]
    ensures Perm(s, t)
  {
    s[i := s[j]][j := s[i]]
  }

  /** A rearrangement that keeps everything outside `[lo, hi)` rearranges
      that window. */
  lemma WindowPerm(a: seq<int>, b: seq<int>, lo: int, hi: int)
    requires Perm(a, b) && SameOutside(a, b, lo, hi)
    ensures multiset(a[lo..hi]) == multiset(b[lo..hi])
  {
    assert a[..lo] == b[..lo] && a[hi..] == b[hi..];
    assert a == a[..lo] + a[lo..hi] + a[hi..];
    assert b == b[..lo] + b[lo..hi] + b[hi..];
    assert multiset(a) == multiset(a[..lo]) + multiset(a[lo..hi]) + multiset(a[hi..]);
    assert multiset(b) == multiset(b[..lo]) + multiset(b[lo..hi]) + multiset(b[hi..]);
    assert multiset(a[lo..hi]) == multiset(a) - multiset(a[..lo]) - multiset(a[hi..]);
    assert multiset(b[lo..hi]) == multiset(b) - multiset(b[..lo]) - multiset(b[hi..]);
  }

  /** A lower bound of a window is a lower bound of any rearrangement of it. */
  lemma LowerBoundCarries(x: int, a: seq<int>, b: seq<int>, lo: int, hi: int)
    requires 0 <= lo <= hi <= |a| && |a| == |b|
    requires multiset(a[lo..hi]) == multiset(b[lo..hi])
    requires AtMostAll(x, a, lo, hi)
    ensures AtMostAll(x, b, lo, hi)
  {
    forall k | lo <= k < hi
      ensures x <= b[k]
    {
      assert b[lo..hi][k - lo] == b[k];
      assert b[k] in multiset(a[lo..hi]);
      var k2 :| lo <= k2 < hi && a[k2] == b[k];
      assert a[lo..hi][k2 - lo] == a[k2];
    }
  }

  /** An upper bound of a window is an upper bound of any rearrangement of
      it. */
  lemma UpperBoundCarries(x: int, a: seq<int>, b: seq<int>, lo: int, hi: int)
    requires 0 <= lo <= hi <= |a| && |a| == |b|
    requires multiset(a[lo..hi]) == multiset(b[lo..hi])
    requires AtLeastAll(x, a, lo, hi)
    ensures AtLeastAll(x, b, lo, hi)
  {
    forall k | lo <= k < hi
      ensures b[k] <= x
    {
      assert b[lo..hi][k - lo] == b[k];
      assert b[k] in multiset(a[lo..hi]);
      var k2 :| lo <= k2 < hi && a[k2] == b[k];
      assert a[lo..hi][k2 - lo] == a[k2];
    }
  }
}
