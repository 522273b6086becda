/** `quicksort`, `_quicksort` and `_partition` (Lomuto partition with the
    last element as pivot). The recursive helper always partitions from
    position 0 rather than from `low`; the model keeps that and shows why it
    is harmless: everything before `low` is already at most everything in
    the range, so the scan over the prefix swaps each element with itself. */
module QuickSort {
  import opened SortSpec

  /** What the scan of `_partition` has established once it has looked at
      `a[lo..j]`: the elements at most the pivot are in `[lo, s)`, the
      greater ones in `[s, j)`, and the prefix before `low` is untouched. */
  predicate Scanned(a: seq<int>, b: seq<int>, lo: nat, high: nat, low: nat, s: nat, j: nat)
    requires lo <= high < |a|
  {
    && lo <= s <= j <= high
    && Perm(a, b) && |b| == |a|
    && (forall k :: 0 <= k < lo ==> b[k] == a[k])
    && (forall k :: j <= k < |a| ==> b[k] == a[k])
    && (forall k :: lo <= k < s ==> b[k] <= a[high])
    && (forall k :: s <= k < j ==> b[k] > a[high])
    && (j <= low ==> s == j)
    && (j > low ==> s >= low)
    && (forall k :: 0 <= k < low && k < j ==> b[k] == a[k])
  }

  /** One step of the scan, at position `j`. */
  lemma ScanStep(a: seq<int>, b0: seq<int>, s0: nat, b: seq<int>, s: nat, lo: nat, high: nat, low: nat, j: nat)
    requires lo <= high < |a| && j < high
    requires lo <= low <= high && AtLeastAll(a[high], a, lo, low)
    requires Scanned(a, b0, lo, high, low, s0, j)
    requires b == (if b0[j] <= a[high] then Swap(b0, s0, j) else b0)
    requires s == (if b0[j] <= a[high] then s0 + 1 else s0)
    ensures Scanned(a, b, lo, high, low, s, j + 1)
  {
  }

  /** The scan of `_partition(coll, lo, high)`: afterwards `a[lo..high]` is
      rearranged into the elements at most the pivot `a[high]`, in
      `[lo, s)`, followed by the greater ones. `s` is the source's `i + 1`.
      When every element of `a[lo..low]` is at most the pivot, each of them
      is swapped with itself, so that prefix stays as it was. */
  method PartitionScan(a: seq<int>, lo: nat, high: nat, ghost low: nat) returns (b: seq<int>, s: nat)
    requires lo <= high < |a|
    requires lo <= low <= high && AtLeastAll(a[high], a, lo, low)
    ensures Perm(a, b) && |b| == |a|
    ensures forall k :: 0 <= k < lo ==> b[k] == a[k]
    ensures forall k :: high <= k < |a| ==> b[k] == a[k]
    ensures lo <= s <= high
    ensures AtLeastAll(a[high], b, lo, s)
    ensures forall k :: s <= k < high ==> b[k] > a[high]
    ensures low <= s && forall k :: 0 <= k < low ==> b[k] == a[k]
  {
    var pivot := a[high];
    b := a;
    s := lo;
    var j := lo;
    while j < high
      invariant lo <= j <= high && Scanned(a, b, lo, high, low, s, j)
    {
      ghost var b0, s0 := b, s;
      if b[j] <= pivot {
        b := Swap(b, s, j);
        s := s + 1;
      }
      ScanStep(a, b0, s0, b, s, lo, high, low, j);
      j := j + 1;
    }
  }

  /** `_partition(coll, lo, high)`: moves the elements at most the pivot
      `a[high]` to the front of `[lo, high]`, puts the pivot right after
      them and returns its index. `low` is proof-only: when every element of
      `a[lo..low]` is at most the pivot, that prefix is left alone and the
      pivot lands at `low` or later. */
  method Partition(a: seq<int>, lo: nat, high: nat, ghost low: nat) returns (b: seq<int>, p: nat)
    requires lo <= high < |a|
    requires lo <= low <= high && AtLeastAll(a[high], a, lo, low)
    ensures Perm(a, b) && SameOutside(a, b, lo, high + 1)
    ensures lo <= p <= high && b[p] == a[high]
    ensures AtLeastAll(b[p], b, lo, p)
    ensures forall k :: p < k <= high ==> b[k] > b[p]
    ensures low <= p && forall k :: 0 <= k < low ==> b[k] == a[k]
  {
    var b1;
    b1, p := PartitionScan(a, lo, high, low);
    b := Swap(b1, p, high);
  }

  /** Partitioning from 0 keeps the prefix before `low` in place, so the
      prefix stays at most everything in the range. */
  lemma PrefixStaysBelow(a: seq<int>, b: seq<int>, low: nat, high: nat)
    requires low <= high < |a|
    requires forall i, j :: 0 <= i < low <= j <= high ==> a[i] <= a[j]
    requires Perm(a, b) && SameOutside(a, b, 0, high + 1)
    requires forall k :: 0 <= k < low ==> b[k] == a[k]
    ensures SameOutside(a, b, low, high + 1)
    ensures forall i, j :: 0 <= i < low <= j <= high ==> b[i] <= b[j]
  {
    WindowPerm(a, b, low, high + 1);
    forall i | 0 <= i < low
      ensures AtMostAll(b[i], b, low, high + 1)
    {
      assert AtMostAll(a[i], a, low, high + 1);
      LowerBoundCarries(a[i], a, b, low, high + 1);
    }
  }

  /** Once the left part is sorted, everything up to the pivot is at most
      everything in the right part: the condition for the second recursive
      call. */
  lemma LeftBelowRight(b1: seq<int>, b2: seq<int>, low: nat, p: nat, high: nat)
    requires low <= p <= high < |b1|
    requires forall i, j :: 0 <= i < low <= j <= high ==> b1[i] <= b1[j]
    requires AtLeastAll(b1[p], b1, low, p)
    requires forall k :: p < k <= high ==> b1[k] > b1[p]
    requires Perm(b1, b2) && SameOutside(b1, b2, low, p)
    ensures AtLeastAll(b2[p], b2, low, p)
    ensures forall i, j :: 0 <= i < p + 1 <= j <= high ==> b2[i] <= b2[j]
  {
    WindowPerm(b1, b2, low, p);
    UpperBoundCarries(b1[p], b1, b2, low, p);
  }

  /** A sorted left part, the pivot and a sorted right part, with the left
      part at most the pivot and the right part above it, make a sorted
      range. */
  lemma JoinAroundPivot(b2: seq<int>, b: seq<int>, low: nat, p: nat, high: nat)
    requires low <= p <= high < |b2|
    requires SortedRange(b2, low, p) && AtLeastAll(b2[p], b2, low, p)
    requires forall k :: p < k <= high ==> b2[k] > b2[p]
    requires Perm(b2, b) && SameOutside(b2, b, p + 1, high + 1)
    requires SortedRange(b, p + 1, high + 1)
    ensures SortedRange(b, low, high + 1)
  {
    WindowPerm(b2, b, p + 1, high + 1);
    assert AtMostAll(b2[p], b2, p + 1, high + 1);
    LowerBoundCarries(b2[p], b2, b, p + 1, high + 1);
  }

  /** `_quicksort(vec, low, high)`: sorts `[low, high]` and touches nothing
      else, provided everything before `low` is at most everything in the
      range (the condition under which partitioning from 0 is harmless). */
  method SortRange(a: seq<int>, low: nat, high: int) returns (b: seq<int>)
    requires low <= high + 1 <= |a|
    requires forall i, j :: 0 <= i < low <= j <= high ==> a[i] <= a[j]
    ensures Perm(a, b) && SameOutside(a, b, low, high + 1)
    ensures SortedRange(b, low, high + 1)
    decreases high + 1 - low
  {
    if low < high {
      var b1, p := Partition(a, 0, high, low);
      PrefixStaysBelow(a, b1, low, high);
      var b2 := SortRange(b1, low, p as int - 1);
      LeftBelowRight(b1, b2, low, p, high);
      b := SortRange(b2, p + 1, high);
      JoinAroundPivot(b2, b, low, p, high);
    } else {
      b := a;
    }
  }

  /** `quicksort`: the result is sorted and a rearrangement of the input.
      The source panics on an empty collection. */
  method Sort(a: seq<int>) returns (b: seq<int>)
    requires |a| > 0
    ensures Sorted(b) && Perm(a, b)
  {
    b := SortRange(a, 0, |a| - 1);
  }
}
