/** `Report::from` of the brute-force statistics walker: the maximum, the
    mode and the median of a collection of unsigned integers. The `f32` mean
    is not modelled. The source computes the median in `f32`; here it is
    kept doubled as an exact integer (twice the mean of two elements for an
    even length), so the rounding of elements above 2^24 by the `as f32`
    casts is not modelled.
    The mode is read from a hash map whose iteration order is not specified;
    that order is a parameter here. */
module Walker {

  /** The report's integral fields; `medianTimesTwo` is twice the median. */
  datatype Report = Report(mode: nat, medianTimesTwo: nat, max: nat)

  /** `Report::default()`. */
  const DefaultReport: Report := Report(0, 0, 0)

  /** How often `x` occurs in `coll`. */
  function Occurrences(coll: seq<nat>, x: nat): nat
  {
    multiset(coll)[x]
  }

  /** `x` occurs at least as often as every element of `coll`. */
  predicate MostFrequent(coll: seq<nat>, x: nat)
  {
    forall y | y in coll :: Occurrences(coll, y) <= Occurrences(coll, x)
  }

  // ---------------------------------------------------------------------------
  // Maximum
  // ---------------------------------------------------------------------------

  /** The `for_each` of `from`: starting from `max`, every later element
      that is greater replaces it. */
  function MaxFrom(max: nat, rest: seq<nat>): (r: nat)
    ensures r == max || r in rest
    ensures max <= r && forall k :: 0 <= k < |rest| ==> rest[k] <= r
    decreases |rest|
  {
    if rest == [] then max
    else MaxFrom(if rest[0] > max then rest[0] else max, rest[1..])
  }

  /** The maximum of a non-empty collection: an element that is at least
      every element. */
  function Max(coll: seq<nat>): (r: nat)
    requires |coll| > 0
    ensures r in coll && forall k :: 0 <= k < |coll| ==> coll[k] <= r
  {
    MaxFrom(coll[0], coll[1..])
  }

  // ---------------------------------------------------------------------------
  // Mode
  // ---------------------------------------------------------------------------

  /** The hash map of `find_mode`: each element of `coll` in order bumps its
      entry, inserting 0 first when it has none. */
  function Tally(coll: seq<nat>): map<nat, nat>
  {
    if coll == [] then map[]
    else
      var t := Tally(coll[..|coll| - 1]);
      var x := coll[|coll| - 1];
      t[x := (if x in t then t[x] else 0) + 1]
  }

  /** The tally has one key per distinct element, holding its number of
      occurrences. */
  lemma {:induction false} TallyCounts(coll: seq<nat>)
    ensures forall x :: x in Tally(coll) <==> x in coll
    ensures forall x | x in Tally(coll) :: Tally(coll)[x] == Occurrences(coll, x)
  {
    if coll != [] {
      var front, x := coll[..|coll| - 1], coll[|coll| - 1];
      assert coll == front + [x];
      TallyCounts(front);
      assert multiset(coll) == multiset(front) + multiset{x};
    }
  }

  /** `Iterator::max_by` over the tally's entries in iteration order,
      comparing the counts: an entry replaces the current best unless the
      best's count is strictly greater, so the last of several equally
      frequent elements wins. */
  function MaxByCount(best: nat, rest: seq<nat>, counts: map<nat, nat>): (r: nat)
    requires best in counts && forall k :: 0 <= k < |rest| ==> rest[k] in counts
    ensures r == best || r in rest
    ensures r in counts && counts[best] <= counts[r]
    ensures forall k :: 0 <= k < |rest| ==> counts[rest[k]] <= counts[r]
    decreases |rest|
  {
    if rest == [] then best
    else MaxByCount(if counts[best] > counts[rest[0]] then best else rest[0], rest[1..], counts)
  }

  /** `r` occurs in `s`, and every entry after its position has a strictly
      smaller count: the last entry of maximal count in a run of `max_by`. */
  predicate LastMaximal(s: seq<nat>, counts: map<nat, nat>, r: nat)
    requires r in counts && forall k :: 0 <= k < |s| ==> s[k] in counts
  {
    exists i :: 0 <= i < |s| && s[i] == r && forall k :: i < k < |s| ==> counts[s[k]] < counts[r]
  }

  /** The tie-break of `max_by`: the winner is the last entry of maximal
      count. */
  lemma {:induction false} MaxByCountIsLastMaximal(best: nat, rest: seq<nat>, counts: map<nat, nat>)
    requires best in counts && forall k :: 0 <= k < |rest| ==> rest[k] in counts
    ensures LastMaximal([best] + rest, counts, MaxByCount(best, rest, counts))
    decreases |rest|
  {
    var s := [best] + rest;
    var r := MaxByCount(best, rest, counts);
    if rest == [] {
      assert s[0] == r;
    } else {
      var next := if counts[best] > counts[rest[0]] then best else rest[0];
      MaxByCountIsLastMaximal(next, rest[1..], counts);
      var s' := [next] + rest[1..];
      var i :| 0 <= i < |s'| && s'[i] == r && forall k :: i < k < |s'| ==> counts[s'[k]] < counts[r];
      var j := if i == 0 && counts[best] > counts[rest[0]] then 0 else i + 1;
      forall k | j < k < |s| ensures counts[s[k]] < counts[r] {
        if k >= 2 { assert s[k] == s'[k - 1]; }
      }
      assert s[j] == r;
    }
  }

  /** The iteration order of the tally: every distinct element of `coll`
      exactly once. */
  predicate IsKeyOrder(order: seq<nat>, coll: seq<nat>)
  {
    && (forall i, j :: 0 <= i < j < |order| ==> order[i] != order[j])
    && (forall k :: 0 <= k < |order| ==> order[k] in coll)
    && (forall x | x in coll :: x in order)
  }

  /** `find_mode`, for the hash map iterated in `order`: an element of the
      collection that occurs at least as often as every element. */
  function FindMode(coll: seq<nat>, order: seq<nat>): (r: nat)
    requires |coll| > 0 && IsKeyOrder(order, coll)
    ensures r in coll && MostFrequent(coll, r)
  {
    TallyCounts(coll);
    assert coll[0] in order;
    var counts := Tally(coll);
    var r := MaxByCount(order[0], order[1..], counts);
    ModeIsMostFrequent(coll, order, counts, r);
    r
  }

  lemma ModeIsMostFrequent(coll: seq<nat>, order: seq<nat>, counts: map<nat, nat>, r: nat)
    requires |order| > 0 && IsKeyOrder(order, coll)
    requires forall x :: x in counts <==> x in coll
    requires forall x | x in counts :: counts[x] == Occurrences(coll, x)
    requires r in counts && counts[order[0]] <= counts[r]
    requires forall k :: 0 <= k < |order[1..]| ==> order[1..][k] in counts && counts[order[1..][k]] <= counts[r]
    ensures MostFrequent(coll, r)
  {
    forall y | y in coll ensures Occurrences(coll, y) <= Occurrences(coll, r) {
      var i :| 0 <= i < |order| && order[i] == y;
      if i > 0 { assert order[1..][i - 1] == y; }
    }
  }

  /** With the tally iterated in `order`, the mode is the last element of
      `order` among the most frequent ones. */
  lemma ModeIsLastMostFrequent(coll: seq<nat>, order: seq<nat>)
    requires |coll| > 0 && IsKeyOrder(order, coll)
    ensures exists i :: (0 <= i < |order| && order[i] == FindMode(coll, order)
      && forall k :: i < k < |order| ==> Occurrences(coll, order[k]) < Occurrences(coll, order[i]))
  {
    TallyCounts(coll);
    assert coll[0] in order;
    var counts := Tally(coll);
    var r := FindMode(coll, order);
    MaxByCountIsLastMaximal(order[0], order[1..], counts);
    assert [order[0]] + order[1..] == order;
    var i :| 0 <= i < |order| && order[i] == r && forall k :: i < k < |order| ==> counts[order[k]] < counts[r];
    assert forall k :: i < k < |order| ==> Occurrences(coll, order[k]) < Occurrences(coll, order[i]);
  }

  /** An element strictly more frequent than every other one is the mode,
      whatever the hash map's iteration order. */
  lemma UniqueModeIsFound(coll: seq<nat>, order: seq<nat>, x: nat)
    requires |coll| > 0 && IsKeyOrder(order, coll) && x in coll
    requires forall k :: 0 <= k < |coll| && coll[k] != x ==> Occurrences(coll, coll[k]) < Occurrences(coll, x)
    ensures FindMode(coll, order) == x
  {
  }

  // ---------------------------------------------------------------------------
  // Median
  // ---------------------------------------------------------------------------

  /** `find_median`, doubled: the element at `len / 2` for an odd length,
      otherwise the sum of the elements at `len / 2 - 1` and `len / 2`. The
      positions are read in the collection's own order, which is not sorted.
      The result is the sum of two elements, i.e. twice their mean. */
  function MedianTimesTwo(coll: seq<nat>): (m: nat)
    requires |coll| > 0
    ensures exists i, j :: 0 <= i < |coll| && 0 <= j < |coll| && m == coll[i] + coll[j]
  {
    var half := |coll| / 2;
    if |coll| % 2 != 0 then coll[half] + coll[half]
    else coll[half] + coll[half - 1]
  }

  predicate Sorted(coll: seq<nat>)
  {
    forall i, j :: 0 <= i < j < |coll| ==> coll[i] <= coll[j]
  }

  /** On a sorted collection the positional median is the true median: the
      lower half of the elements is at most it and the upper half at least
      it. */
  lemma MedianSplitsSorted(coll: seq<nat>)
    requires |coll| > 0 && Sorted(coll)
    ensures forall k :: 0 <= k < |coll| / 2 ==> 2 * coll[k] <= MedianTimesTwo(coll)
    ensures forall k :: |coll| / 2 <= k < |coll| ==> MedianTimesTwo(coll) <= 2 * coll[k]
  {
  }

  // ---------------------------------------------------------------------------
  // Report
  // ---------------------------------------------------------------------------

  /** `Report::from`, with the tally iterated in `order`: the default report
      for an empty collection, otherwise a mode that is a most frequent
      element, the doubled positional median and the maximum. */
  function From(coll: seq<nat>, order: seq<nat>): (r: Report)
    requires IsKeyOrder(order, coll)
    ensures coll == [] ==> r == DefaultReport
    ensures coll != [] ==> r.mode in coll && MostFrequent(coll, r.mode)
    ensures coll != [] ==> r.max in coll && forall k :: 0 <= k < |coll| ==> coll[k] <= r.max
    ensures coll != [] ==> r.medianTimesTwo == MedianTimesTwo(coll)
  {
    if coll == [] then DefaultReport
    else Report(FindMode(coll, order), MedianTimesTwo(coll), Max(coll))
  }

  /** The maximum is the element that bounds all the others. */
  lemma MaxIsBound(coll: seq<nat>, m: nat)
    requires m in coll && forall k :: 0 <= k < |coll| ==> coll[k] <= m
    ensures Max(coll) == m
  {
  }

  /** The report is assembled from the three statistics. */
  lemma ReportOf(coll: seq<nat>, order: seq<nat>, mode: nat, median: nat, max: nat)
    requires |coll| > 0 && IsKeyOrder(order, coll)
    requires FindMode(coll, order) == mode && MedianTimesTwo(coll) == median && Max(coll) == max
    ensures From(coll, order) == Report(mode, median, max)
  {
  }

  /** The source's test on an odd-length collection: mode 4, median 5,
      maximum 7, for every iteration order of the tally. */
  lemma TestUneven(coll: seq<nat>, order: seq<nat>)
    requires coll == [1, 4, 5, 4, 7] && IsKeyOrder(order, coll)
    ensures From(coll, order) == Report(4, 10, 7)
  {
    UnevenMode(coll, order);
    MaxIsBound(coll, 7);
    UnevenMedian(coll);
    ReportOf(coll, order, 4, 10, 7);
  }

  lemma UnevenMode(coll: seq<nat>, order: seq<nat>)
    requires coll == [1, 4, 5, 4, 7] && IsKeyOrder(order, coll)
    ensures FindMode(coll, order) == 4
  {
    UnevenCounts(coll);
    UniqueModeIsFound(coll, order, 4);
  }

  lemma UnevenCounts(coll: seq<nat>)
    requires coll == [1, 4, 5, 4, 7]
    ensures forall k :: 0 <= k < |coll| && coll[k] != 4 ==> Occurrences(coll, coll[k]) < Occurrences(coll, 4)
  {
    assert multiset(coll) == multiset{1, 4, 4, 5, 7};
  }

  lemma UnevenMedian(coll: seq<nat>)
    requires coll == [1, 4, 5, 4, 7]
    ensures MedianTimesTwo(coll) == 10
  {
  }

  /** The source's test on an even-length collection: mode 1, median 19.5
      (the mean of the unsorted positions 2 and 3, 23 and 16; the median of
      the sorted collection would be 8.5), maximum 23. */
  lemma TestEven(coll: seq<nat>, order: seq<nat>)
    requires coll == [1, 7, 23, 16, 1, 10] && IsKeyOrder(order, coll)
    ensures From(coll, order) == Report(1, 39, 23)
    ensures MedianTimesTwo([1, 1, 7, 10, 16, 23]) == 17
  {
    EvenMode(coll, order);
    MaxIsBound(coll, 23);
    EvenMedian(coll);
    ReportOf(coll, order, 1, 39, 23);
  }

  lemma EvenMode(coll: seq<nat>, order: seq<nat>)
    requires coll == [1, 7, 23, 16, 1, 10] && IsKeyOrder(order, coll)
    ensures FindMode(coll, order) == 1
  {
    EvenCounts(coll);
    UniqueModeIsFound(coll, order, 1);
  }

  lemma EvenCounts(coll: seq<nat>)
    requires coll == [1, 7, 23, 16, 1, 10]
    ensures forall k :: 0 <= k < |coll| && coll[k] != 1 ==> Occurrences(coll, coll[k]) < Occurrences(coll, 1)
  {
    var ms := multiset(coll);
    assert ms == multiset{1, 1, 7, 10, 16, 23};
    assert ms[1] == 2 && ms[7] == 1 && ms[23] == 1 && ms[16] == 1 && ms[10] == 1;
    forall k | 0 <= k < |coll| && coll[k] != 1
      ensures Occurrences(coll, coll[k]) < Occurrences(coll, 1)
    {
      assert coll[k] in {7, 23, 16, 10};
    }
  }

  lemma EvenMedian(coll: seq<nat>)
    requires coll == [1, 7, 23, 16, 1, 10]
    ensures MedianTimesTwo(coll) == 39
  {
  }
}
