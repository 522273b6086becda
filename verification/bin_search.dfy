/** `bin_search` and its recursive helper `search`: binary search over a
    collection, returning the index and value of a match. The search range
    is `[start, end]` with both ends inclusive and unsigned, so the step to
    the left half computes `middle - 1`, which underflows when `middle` is
    0. That happens only when the search runs off the left end, below a
    first element greater than the target, and on a sorted collection it
    happens exactly then; the source then panics. `Search` models the code
    as written with that outcome made explicit; `SearchFixed` is the
    evidently intended search with a signed right end. */
module BinSearch {

  /** What `search` does: finds an index, reports that there is none, or
      panics on the unsigned `middle - 1`. */
  datatype Outcome = Found(index: nat, value: int) | NotFound | Underflow

  predicate Sorted(col: seq<int>)
  {
    forall i, j :: 0 <= i < j < |col| ==> col[i] <= col[j]
  }

  /** `target` occurs at an index of `[lo, hi]`. */
  predicate OccursIn(col: seq<int>, target: int, lo: int, hi: int)
  {
    exists k :: 0 <= lo <= k <= hi < |col| && col[k] == target
  }

  /** On a sorted collection, an element below the target rules out the
      positions up to it, and one above rules out those from it on. */
  lemma NarrowRight(col: seq<int>, target: int, start: nat, middle: nat, end: int)
    requires Sorted(col) && start <= middle && middle + 1 <= end + 1 && end < |col|
    requires col[middle] < target
    ensures OccursIn(col, target, start, end) <==> OccursIn(col, target, middle + 1, end)
  {
    if OccursIn(col, target, start, end) {
      var k :| start <= k <= end && col[k] == target;
      assert middle < k;
    }
  }

  lemma NarrowLeft(col: seq<int>, target: int, start: nat, middle: nat, end: int)
    requires Sorted(col) && start <= middle <= end < |col|
    requires col[middle] > target
    ensures OccursIn(col, target, start, end) <==> OccursIn(col, target, start, middle - 1)
  {
    if OccursIn(col, target, start, end) {
      var k :| start <= k <= end && col[k] == target;
      assert k < middle;
    }
  }

  /** The probe position of a non-empty range `[start, end]`. */
  function Middle(start: nat, end: nat): (m: nat)
    requires start <= end
    ensures start <= m <= end
  {
    (start + end) / 2
  }

  /** `search(col, target, start, end)`. The right end is always a valid
      index, so the probe `col.get(middle).unwrap()` never fails; the range
      shrinks strictly at each call. A match is at an index of the range
      and holds the target; the underflow only happens on the range that
      starts at 0, below a first element greater than the target. */
  function Search(col: seq<int>, target: int, start: nat, end: nat): (r: Outcome)
    requires end < |col| && start <= end + 1
    ensures r.Found? ==> start <= r.index <= end && col[r.index] == target && r.value == col[r.index]
    ensures r.Underflow? ==> start == 0 && col[0] > target
    decreases end + 1 - start
  {
    if start > end then NotFound
    else
      var middle := Middle(start, end);
      if col[middle] == target then Found(middle, col[middle])
      else if col[middle] < target then Search(col, target, middle + 1, end)
      else if middle == 0 then Underflow
      else Search(col, target, start, middle - 1)
  }

  /** `bin_search`: searches the whole collection. The source computes
      `col.len() - 1`, which fails on an empty collection. */
  function BinSearch(col: seq<int>, target: int): (r: Outcome)
    requires |col| > 0
    ensures r.Found? ==> r.index < |col| && col[r.index] == target && r.value == col[r.index]
    ensures r.Underflow? ==> col[0] > target
  {
    Search(col, target, 0, |col| - 1)
  }

  /** On a sorted collection, and as long as the range does not start at 0
      or the target is at least the first element, `search` does not
      underflow and finds nothing exactly when the target is not in the
      range. */
  lemma {:induction false} SearchComplete(col: seq<int>, target: int, start: nat, end: nat)
    requires end < |col| && start <= end + 1
    requires Sorted(col) && (start > 0 || col[0] <= target)
    ensures !Search(col, target, start, end).Underflow?
    ensures Search(col, target, start, end).NotFound? <==> !OccursIn(col, target, start, end)
    decreases end + 1 - start
  {
    if start <= end {
      var middle := Middle(start, end);
      if col[middle] < target {
        assert Search(col, target, start, end) == Search(col, target, middle + 1, end);
        SearchComplete(col, target, middle + 1, end);
        NarrowRight(col, target, start, middle, end);
      } else if col[middle] > target {
        assert middle > 0;
        assert Search(col, target, start, end) == Search(col, target, start, middle - 1);
        SearchComplete(col, target, start, middle - 1);
        NarrowLeft(col, target, start, middle, end);
      } else {
        assert OccursIn(col, target, start, end) by {
          assert start <= middle <= end && col[middle] == target;
        }
      }
    }
  }

  /** `bin_search` on a sorted collection whose first element is at most
      the target returns nothing exactly when the target does not occur. */
  lemma BinSearchNoneIffAbsent(col: seq<int>, target: int)
    requires |col| > 0 && Sorted(col) && col[0] <= target
    ensures !BinSearch(col, target).Underflow?
    ensures BinSearch(col, target).NotFound? <==> target !in col
  {
    SearchComplete(col, target, 0, |col| - 1);
    if target in col {
      var k :| 0 <= k < |col| && col[k] == target;
    }
  }

  /** On a sorted collection, a target below the first element always
      sends the search left of index 0: every probe is greater than the
      target, so the range keeps starting at 0 until the probe is at 0. */
  lemma {:induction false} SearchUnderflowsBelowFirst(col: seq<int>, target: int, end: nat)
    requires end < |col| && Sorted(col) && col[0] > target
    ensures Search(col, target, 0, end) == Underflow
    decreases end
  {
    var middle := Middle(0, end);
    assert col[0] <= col[middle];
    if middle > 0 {
      SearchUnderflowsBelowFirst(col, target, middle - 1);
    }
  }

  /** On a sorted collection, `bin_search` underflows exactly when the
      target is below the first element. */
  lemma BinSearchUnderflowIff(col: seq<int>, target: int)
    requires |col| > 0 && Sorted(col)
    ensures BinSearch(col, target).Underflow? <==> col[0] > target
  {
    if col[0] > target {
      SearchUnderflowsBelowFirst(col, target, |col| - 1);
    }
  }

  /** A target below the only element sends the search left of index 0:
      the source panics instead of returning `None`. */
  lemma SmallTargetUnderflows(col: seq<int>, target: int)
    requires col == [2] && target == 1
    ensures BinSearch(col, target) == Underflow
    ensures target !in col
  {
  }

  /** The evidently intended search: a signed right end, so the left half
      of a range whose probe is at 0 is simply empty. */
  function SearchFixed(col: seq<int>, target: int, start: nat, end: int): (r: Outcome)
    requires end < |col| && start <= end + 1
    ensures r.Found? ==> start <= r.index <= end && col[r.index] == target && r.value == col[r.index]
    ensures !r.Underflow?
    decreases end + 1 - start
  {
    if start > end then NotFound
    else
      var middle := Middle(start, end as nat);
      if col[middle] == target then Found(middle, col[middle])
      else if col[middle] < target then SearchFixed(col, target, middle + 1, end)
      else SearchFixed(col, target, start, middle as int - 1)
  }

  /** `bin_search` over `SearchFixed`; an empty collection is an empty
      range. */
  function BinSearchFixed(col: seq<int>, target: int): (r: Outcome)
    ensures r.Found? ==> r.index < |col| && col[r.index] == target && r.value == col[r.index]
    ensures !r.Underflow?
  {
    SearchFixed(col, target, 0, |col| - 1)
  }

  /** On a sorted collection the fixed search finds nothing exactly when
      the target is not in the range. */
  lemma {:induction false} SearchFixedComplete(col: seq<int>, target: int, start: nat, end: int)
    requires end < |col| && start <= end + 1
    requires Sorted(col)
    ensures SearchFixed(col, target, start, end).NotFound? <==> !OccursIn(col, target, start, end)
    decreases end + 1 - start
  {
    if start <= end {
      var middle := Middle(start, end as nat);
      if col[middle] < target {
        SearchFixedComplete(col, target, middle + 1, end);
        NarrowRight(col, target, start, middle, end);
      } else if col[middle] > target {
        SearchFixedComplete(col, target, start, middle as int - 1);
        NarrowLeft(col, target, start, middle, end);
      } else {
        assert OccursIn(col, target, start, end) by {
          assert start <= middle <= end && col[middle] == target;
        }
      }
    }
  }

  /** On every sorted collection, the fixed `bin_search` returns nothing
      exactly when the target does not occur. */
  lemma BinSearchFixedNoneIffAbsent(col: seq<int>, target: int)
    requires Sorted(col)
    ensures BinSearchFixed(col, target).NotFound? <==> target !in col
  {
    SearchFixedComplete(col, target, 0, |col| - 1);
    if target in col {
      var k :| 0 <= k < |col| && col[k] == target;
    }
  }

  /** Wherever the search as written does not underflow, it agrees with the
      fixed one. */
  lemma {:induction false} SearchAgreesWithFixed(col: seq<int>, target: int, start: nat, end: nat)
    requires end < |col| && start <= end + 1
    requires !Search(col, target, start, end).Underflow?
    ensures Search(col, target, start, end) == SearchFixed(col, target, start, end)
    decreases end + 1 - start
  {
    if start <= end {
      var middle := Middle(start, end);
      if col[middle] < target {
        SearchAgreesWithFixed(col, target, middle + 1, end);
      } else if col[middle] > target && middle > 0 {
        SearchAgreesWithFixed(col, target, start, middle - 1);
      }
    }
  }

  /** The source's test: searching `[1, 2, 3, 4, 5, 6]` for 1 finds it at
      index 0. */
  lemma TestFindsFirst(col: seq<int>, target: int)
    requires col == [1, 2, 3, 4, 5, 6] && target == 1
    ensures BinSearch(col, target) == Found(0, 1)
  {
  }
}
