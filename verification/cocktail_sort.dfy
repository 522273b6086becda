/** `cocktail_sort` and its helper `_one_way_bubble_sort`: bubble passes
    that alternate direction over a window that shrinks from both ends. */
module CocktailSort {
  import opened SortSpec

  /** What a pass has established after comparing positions `lo` up to
      `i - 1` in ascending order. */
  predicate UpPassed(a: seq<int>, b: seq<int>, lo: nat, hi: nat, i: nat, swapped: bool)
    requires lo <= i <= hi < |a|
  {
    && Perm(a, b) && SameOutside(a, b, lo, hi + 1)
    && AtLeastAll(b[i], b, lo, i + 1)
    && (swapped ==> !SortedRange(a, lo, hi + 1))
    && (!swapped ==> b == a && SortedRange(a, lo, i + 1))
  }

  /** One comparison of the ascending pass, at positions `i` and `i + 1`. */
  lemma UpStep(a: seq<int>, b0: seq<int>, swapped0: bool, b: seq<int>, swapped: bool, lo: nat, hi: nat, i: nat)
    requires lo <= i < hi < |a| && UpPassed(a, b0, lo, hi, i, swapped0)
    requires b == (if b0[i] > b0[i + 1] then Swap(b0, i, i + 1) else b0)
    requires swapped == (swapped0 || b0[i] > b0[i + 1])
    ensures UpPassed(a, b, lo, hi, i + 1, swapped)
  {
  }

  /** A finished ascending pass. */
  lemma UpDone(a: seq<int>, b: seq<int>, lo: nat, hi: nat, swapped: bool)
    requires lo <= hi < |a| && UpPassed(a, b, lo, hi, hi, swapped)
    ensures Perm(a, b) && SameOutside(a, b, lo, hi + 1)
    ensures AtLeastAll(b[hi], b, lo, hi + 1)
    ensures swapped <==> !SortedRange(a, lo, hi + 1)
    ensures !swapped ==> b == a
  {
  }

  /** `_one_way_bubble_sort` over the ascending range `lo..hi`: compares each
      position with the next one and swaps an out-of-order pair. The
      largest element of `a[lo..hi + 1]` ends at `hi`; the pass reports a
      swap exactly when that window was not sorted, and leaves the
      collection alone otherwise. */
  method BubbleUp(a: seq<int>, lo: nat, hi: nat) returns (b: seq<int>, swapped: bool)
    requires lo <= hi < |a|
    ensures Perm(a, b) && SameOutside(a, b, lo, hi + 1)
    ensures AtLeastAll(b[hi], b, lo, hi + 1)
    ensures swapped <==> !SortedRange(a, lo, hi + 1)
    ensures !swapped ==> b == a
  {
    b := a;
    swapped := false;
    var i := lo;
    while i < hi
      invariant lo <= i <= hi && UpPassed(a, b, lo, hi, i, swapped)
    {
      ghost var b0, swapped0 := b, swapped;
      if b[i] > b[i + 1] {
        b := Swap(b, i, i + 1);
        swapped := true;
      }
      UpStep(a, b0, swapped0, b, swapped, lo, hi, i);
      i := i + 1;
    }
    UpDone(a, b, lo, hi, swapped);
  }

  /** What a pass has established after comparing positions `hi - 1` down
      to `i` in descending order. */
  predicate DownPassed(a: seq<int>, b: seq<int>, lo: nat, hi: nat, i: nat, swapped: bool)
    requires lo <= i <= hi < |a|
  {
    && Perm(a, b) && SameOutside(a, b, lo, hi + 1)
    && AtMostAll(b[i], b, i, hi + 1)
    && (swapped ==> !SortedRange(a, lo, hi + 1))
    && (!swapped ==> b == a && SortedRange(a, i, hi + 1))
  }

  /** One comparison of the descending pass, at positions `i` and `i + 1`. */
  lemma DownStep(a: seq<int>, b0: seq<int>, swapped0: bool, b: seq<int>, swapped: bool, lo: nat, hi: nat, i: nat)
    requires lo <= i < hi < |a| && DownPassed(a, b0, lo, hi, i + 1, swapped0)
    requires b == (if b0[i] > b0[i + 1] then Swap(b0, i, i + 1) else b0)
    requires swapped == (swapped0 || b0[i] > b0[i + 1])
    ensures DownPassed(a, b, lo, hi, i, swapped)
  {
  }

  /** A finished descending pass. */
  lemma DownDone(a: seq<int>, b: seq<int>, lo: nat, hi: nat, swapped: bool)
    requires lo <= hi < |a| && DownPassed(a, b, lo, hi, lo, swapped)
    ensures Perm(a, b) && SameOutside(a, b, lo, hi + 1)
    ensures AtMostAll(b[lo], b, lo, hi + 1)
    ensures swapped <==> !SortedRange(a, lo, hi + 1)
    ensures !swapped ==> b == a
  {
  }

  /** `_one_way_bubble_sort` over the descending range `(lo..hi).rev()`: the
      smallest element of `a[lo..hi + 1]` ends at `lo`; the pass reports a
      swap exactly when that window was not sorted. */
  method BubbleDown(a: seq<int>, lo: nat, hi: nat) returns (b: seq<int>, swapped: bool)
    requires lo <= hi < |a|
    ensures Perm(a, b) && SameOutside(a, b, lo, hi + 1)
    ensures AtMostAll(b[lo], b, lo, hi + 1)
    ensures swapped <==> !SortedRange(a, lo, hi + 1)
    ensures !swapped ==> b == a
  {
    b := a;
    swapped := false;
    var i := hi;
    while i > lo
      invariant lo <= i <= hi && DownPassed(a, b, lo, hi, i, swapped)
    {
      i := i - 1;
      ghost var b0, swapped0 := b, swapped;
      if b[i] > b[i + 1] {
        b := Swap(b, i, i + 1);
        swapped := true;
      }
      DownStep(a, b0, swapped0, b, swapped, lo, hi, i);
    }
    DownDone(a, b, lo, hi, swapped);
  }

  /** The positions before `start` and from `end` on hold their final
      values: each is at most everything after it, or at least everything
      before it. */
  predicate Settled(b: seq<int>, start: int, end: int)
  {
    && (forall i, j :: 0 <= i < start && i < j < |b| ==> b[i] <= b[j])
    && (forall i, j :: 0 <= i < j && end <= j < |b| ==> b[i] <= b[j])
  }

  /** A settled collection whose middle window is sorted is sorted. */
  lemma SettledSorted(b: seq<int>, start: int, end: int)
    requires 0 <= start <= end <= |b|
    requires Settled(b, start, end) && SortedRange(b, start, end)
    ensures Sorted(b)
  {
  }

  /** After a forward pass, the end of the window is settled too. */
  lemma SettleTop(b: seq<int>, b1: seq<int>, start: int, end: int)
    requires 0 <= start < end <= |b|
    requires Settled(b, start, end)
    requires Perm(b, b1) && SameOutside(b, b1, start, end)
    requires AtLeastAll(b1[end - 1], b1, start, end)
    ensures Settled(b1, start, end - 1)
  {
    WindowPerm(b, b1, start, end);
    forall i | 0 <= i < start
      ensures AtMostAll(b1[i], b1, start, end)
    {
      assert AtMostAll(b[i], b, start, end);
      LowerBoundCarries(b[i], b, b1, start, end);
    }
    forall j | end <= j < |b|
      ensures AtLeastAll(b1[j], b1, start, end)
    {
      assert AtLeastAll(b[j], b, start, end);
      UpperBoundCarries(b[j], b, b1, start, end);
    }
  }

  /** After a backward pass, the start of the window is settled too. */
  lemma SettleBottom(b: seq<int>, b1: seq<int>, start: int, end: int)
    requires 0 <= start < end <= |b|
    requires Settled(b, start, end)
    requires Perm(b, b1) && SameOutside(b, b1, start, end)
    requires AtMostAll(b1[start], b1, start, end)
    ensures Settled(b1, start + 1, end)
  {
    WindowPerm(b, b1, start, end);
    forall i | 0 <= i < start
      ensures AtMostAll(b1[i], b1, start, end)
    {
      assert AtMostAll(b[i], b, start, end);
      LowerBoundCarries(b[i], b, b1, start, end);
    }
    forall j | end <= j < |b|
      ensures AtLeastAll(b1[j], b1, start, end)
    {
      assert AtLeastAll(b[j], b, start, end);
      UpperBoundCarries(b[j], b, b1, start, end);
    }
  }

  /** `cocktail_sort`: the result is sorted and a rearrangement of the input.
      The source panics on an empty collection. */
  method Sort(a: seq<int>) returns (b: seq<int>)
    requires |a| > 0
    ensures Sorted(b) && Perm(a, b)
  {
    b := a;
    var swapped := true;
    var start, end := 0, |a|;
    while swapped
      invariant 0 <= start <= end <= |a| && |b| == |a|
      invariant swapped ==> start < end
      invariant Perm(a, b) && Settled(b, start, end)
      invariant !swapped ==> Sorted(b)
      decreases end - start, swapped
    {
      var b1;
      b1, swapped := BubbleUp(b, start, end - 1);
      if !swapped {
        SettledSorted(b, start, end);
        break;
      }
      SettleTop(b, b1, start, end);
      end := end - 1;
      var b2;
      b2, swapped := BubbleDown(b1, start, end - 1);
      SettleBottom(b1, b2, start, end);
      if !swapped {
        SettledSorted(b1, start, end);
      }
      b := b2;
      start := start + 1;
    }
  }
}
