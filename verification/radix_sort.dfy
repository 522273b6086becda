/** `radix_sort` on `u8` collections: least-significant-digit radix sort
    whose radix is the collection length rounded up to a power of two. Each
    pass is a counting sort by one digit. `Distribute` states what a pass
    produces: the elements of digit 0 in their order, then those of digit
    1, and so on. `CountingPass` is the pass's three loops, proved to
    compute it. */
module RadixSort {
  import opened SortSpec
  import opened Arith

  /** Every element is a `u8`. */
  predicate Bytes(s: seq<int>)
  {
    forall i :: 0 <= i < |s| ==> 0 <= s[i] < 256
  }

  function Pow2(k: nat): (p: nat)
    ensures p >= 1
  {
    if k == 0 then 1 else 2 * Pow2(k - 1)
  }

  /** The least `k >= from` with `2^k >= n`. */
  function CeilLog2From(n: nat, from: nat): (k: nat)
    requires n == 0 || Pow2(from) <= 2 * n || from == 0
    ensures k >= from && Pow2(k) >= n
    ensures k > from ==> Pow2(k - 1) < n
    decreases n - Pow2(from)
  {
    if Pow2(from) >= n then from else CeilLog2From(n, from + 1)
  }

  /** `usize::next_power_of_two`: the least power of two that is at least
      `n` (1 for 0). */
  function NextPowerOfTwo(n: nat): (p: nat)
    ensures exists k: nat :: p == Pow2(k)
    ensures p >= 1 && p >= n
    ensures p > 1 ==> p / 2 < n
  {
    var k := CeilLog2From(n, 0);
    Pow2(k)
  }

  /** The radix as the source computes it. */
  function RadixAsWritten(len: nat): (r: nat)
    ensures r >= 1 && r >= len
  {
    NextPowerOfTwo(len)
  }

  /** The radix the sort needs: a one-element collection would get radix 1,
      under which the digit place never grows; 2 is the least radix for
      which it does. For two or more elements this is the source's radix. */
  function Radix(len: nat): (r: nat)
    ensures r >= 2
    ensures len >= 2 ==> r == RadixAsWritten(len)
  {
    if len < 2 then 2 else NextPowerOfTwo(len)
  }

  /** The place after `k` passes with radix `radix`. */
  function PlaceAfter(radix: nat, k: nat): (p: nat)
  {
    if k == 0 then 1 else PlaceAfter(radix, k - 1) * radix
  }

  /** With one element the source's radix is 1, so after any number of
      passes the place is still 1 and the loop guard `place <= max` still
      holds for a nonzero element: the sort never returns. */
  lemma {:induction false} OneElementNeverAdvances(a: seq<int>, k: nat)
    requires |a| == 1 && Bytes(a) && a[0] >= 1
    ensures RadixAsWritten(|a|) == 1
    ensures PlaceAfter(RadixAsWritten(|a|), k) == 1 <= a[0]
  {
    assert NextPowerOfTwo(1) == 1;
    if k > 0 {
      OneElementNeverAdvances(a, k - 1);
    }
  }

  /** The digit of `x` that the pass for `place` sorts by. */
  function Digit(x: int, place: nat, radix: nat): int
    requires place >= 1 && radix >= 1
  {
    (x / place) % radix
  }

  /** The elements of `s` whose digit is `d`, in their order in `s`. */
  function Bucket(s: seq<int>, place: nat, radix: nat, d: int): seq<int>
    requires place >= 1 && radix >= 1
  {
    if |s| == 0 then []
    else if Digit(s[0], place, radix) == d then [s[0]] + Bucket(s[1..], place, radix, d)
    else Bucket(s[1..], place, radix, d)
  }

  /** The buckets `d`, `d + 1`, ..., `radix - 1`, one after the other. */
  function Distribute(s: seq<int>, place: nat, radix: nat, d: nat): seq<int>
    requires place >= 1 && radix >= 1
    decreases radix - d
  {
    if d >= radix then [] else Bucket(s, place, radix, d) + Distribute(s, place, radix, d + 1)
  }

  /** Bucket `d` holds elements of `s` of digit `d`. */
  lemma {:induction false} BucketMembers(s: seq<int>, place: nat, radix: nat, d: int)
    requires place >= 1 && radix >= 1
    ensures forall i :: 0 <= i < |Bucket(s, place, radix, d)| ==>
              Digit(Bucket(s, place, radix, d)[i], place, radix) == d && Bucket(s, place, radix, d)[i] in s
  {
    if |s| > 0 {
      BucketMembers(s[1..], place, radix, d);
    }
  }

  /** The buckets from `d` on hold elements of digit at least `d`. */
  lemma {:induction false} DistributeDigits(s: seq<int>, place: nat, radix: nat, d: nat)
    requires place >= 1 && radix >= 1
    ensures forall i :: 0 <= i < |Distribute(s, place, radix, d)| ==> Digit(Distribute(s, place, radix, d)[i], place, radix) >= d
    decreases radix - d
  {
    if d < radix {
      var b, r := Bucket(s, place, radix, d), Distribute(s, place, radix, d + 1);
      assert Distribute(s, place, radix, d) == b + r;
      BucketMembers(s, place, radix, d);
      DistributeDigits(s, place, radix, d + 1);
      forall i | |b| <= i < |b + r|
        ensures Digit((b + r)[i], place, radix) >= d
      {
        assert (b + r)[i] == r[i - |b|];
      }
    }
  }

  /** The buckets of a byte collection hold bytes. */
  lemma {:induction false} DistributeBytes(s: seq<int>, place: nat, radix: nat, d: nat)
    requires place >= 1 && radix >= 1 && Bytes(s)
    ensures Bytes(Distribute(s, place, radix, d))
    decreases radix - d
  {
    if d < radix {
      var b, r := Bucket(s, place, radix, d), Distribute(s, place, radix, d + 1);
      assert Distribute(s, place, radix, d) == b + r;
      BucketMembers(s, place, radix, d);
      DistributeBytes(s, place, radix, d + 1);
      forall i | 0 <= i < |b|
        ensures 0 <= b[i] < 256
      {
        var k :| 0 <= k < |s| && s[k] == b[i];
      }
    }
  }

  /** The elements of `s` whose digit is at least `d`, in order. */
  function DigitAtLeast(s: seq<int>, place: nat, radix: nat, d: int): seq<int>
    requires place >= 1 && radix >= 1
  {
    if |s| == 0 then []
    else if Digit(s[0], place, radix) >= d then [s[0]] + DigitAtLeast(s[1..], place, radix, d)
    else DigitAtLeast(s[1..], place, radix, d)
  }

  /** Splitting off bucket `d` from the elements of digit at least `d`. */
  lemma {:induction false} SplitDigitAtLeast(s: seq<int>, place: nat, radix: nat, d: int)
    requires place >= 1 && radix >= 1
    ensures multiset(DigitAtLeast(s, place, radix, d)) ==
              multiset(Bucket(s, place, radix, d)) + multiset(DigitAtLeast(s, place, radix, d + 1))
  {
    if |s| > 0 {
      SplitDigitAtLeast(s[1..], place, radix, d);
    }
  }

  /** Every element has a digit of at least 0 and none of `radix`. */
  lemma {:induction false} DigitAtLeastBounds(s: seq<int>, place: nat, radix: nat)
    requires place >= 1 && radix >= 1
    ensures DigitAtLeast(s, place, radix, 0) == s
    ensures DigitAtLeast(s, place, radix, radix) == []
  {
    if |s| > 0 {
      DigitAtLeastBounds(s[1..], place, radix);
    }
  }

  lemma {:induction false} DistributeCollects(s: seq<int>, place: nat, radix: nat, d: nat)
    requires place >= 1 && radix >= 1 && d <= radix
    ensures multiset(Distribute(s, place, radix, d)) == multiset(DigitAtLeast(s, place, radix, d))
    decreases radix - d
  {
    if d < radix {
      var b, r := Bucket(s, place, radix, d), Distribute(s, place, radix, d + 1);
      assert Distribute(s, place, radix, d) == b + r;
      assert multiset(b + r) == multiset(b) + multiset(r);
      DistributeCollects(s, place, radix, d + 1);
      SplitDigitAtLeast(s, place, radix, d);
    } else {
      DigitAtLeastBounds(s, place, radix);
    }
  }

  /** A pass rearranges the collection. */
  lemma DistributePermutes(s: seq<int>, place: nat, radix: nat)
    requires place >= 1 && radix >= 1
    ensures Perm(s, Distribute(s, place, radix, 0))
  {
    DistributeCollects(s, place, radix, 0);
    DigitAtLeastBounds(s, place, radix);
  }

  /** `s` is sorted by the value modulo `m`, i.e. by its digits below `m`. */
  predicate SortedBy(s: seq<int>, m: nat)
    requires m >= 1
  {
    forall i, j :: 0 <= i < j < |s| ==> s[i] % m <= s[j] % m
  }

  /** The value modulo `place * radix` is the digit at `place` followed by
      the digits below it. */
  lemma KeySplit(x: nat, place: nat, radix: nat)
    requires place >= 1 && radix >= 1
    ensures x % (place * radix) == Digit(x, place, radix) * place + x % place
  {
    var q, r := x / place, x % place;
    var d, q2 := q % radix, q / radix;
    assert x == q * place + r;
    assert q == q2 * radix + d;
    assert q * place == q2 * (place * radix) + d * place by {
      assert (q2 * radix + d) * place == q2 * radix * place + d * place;
    }
    MulMono(d, radix - 1, place);
    assert (radix - 1) * place == place * radix - place;
    MulNonneg(place, radix);
    DivModUnique(x, place * radix, q2, d * place + r);
  }

  /** A smaller digit at `place` means a smaller value modulo
      `place * radix`. */
  lemma SmallerDigitSmallerKey(x: nat, y: nat, place: nat, radix: nat)
    requires place >= 1 && radix >= 1
    requires Digit(x, place, radix) < Digit(y, place, radix)
    ensures x % (place * radix) < y % (place * radix)
  {
    KeySplit(x, place, radix);
    KeySplit(y, place, radix);
    var dx, dy := Digit(x, place, radix), Digit(y, place, radix);
    MulMono(dx + 1, dy, place);
    assert (dx + 1) * place == dx * place + place;
  }

  /** Filtering keeps the order of the lower digits. */
  lemma {:induction false} BucketSortedBy(s: seq<int>, place: nat, radix: nat, d: int)
    requires place >= 1 && radix >= 1
    requires SortedBy(s, place)
    ensures SortedBy(Bucket(s, place, radix, d), place)
  {
    if |s| > 0 {
      var rest := Bucket(s[1..], place, radix, d);
      assert SortedBy(s[1..], place);
      BucketMembers(s[1..], place, radix, d);
      BucketSortedBy(s[1..], place, radix, d);
      if Digit(s[0], place, radix) == d {
        forall j | 0 <= j < |rest|
          ensures s[0] % place <= rest[j] % place
        {
          var k :| 0 <= k < |s[1..]| && s[1..][k] == rest[j];
          assert s[k + 1] == rest[j];
        }
      }
    }
  }

  /** Within one bucket, the order of the lower digits is the order of the
      digits up to `place`. */
  lemma BucketSortedByNext(s: seq<int>, place: nat, radix: nat, d: int)
    requires place >= 1 && radix >= 1 && Bytes(s)
    requires SortedBy(s, place)
    ensures SortedBy(Bucket(s, place, radix, d), place * radix)
  {
    var b := Bucket(s, place, radix, d);
    BucketSortedBy(s, place, radix, d);
    BucketMembers(s, place, radix, d);
    forall i, j | 0 <= i < j < |b|
      ensures b[i] % (place * radix) <= b[j] % (place * radix)
    {
      var ki :| 0 <= ki < |s| && s[ki] == b[i];
      var kj :| 0 <= kj < |s| && s[kj] == b[j];
      KeySplit(b[i], place, radix);
      KeySplit(b[j], place, radix);
    }
  }

  /** Two runs, each sorted by the value modulo `m`, with every element of
      the first at most every element of the second, make a sorted run. */
  lemma ConcatSortedBy(b: seq<int>, r: seq<int>, m: nat)
    requires m >= 1 && SortedBy(b, m) && SortedBy(r, m)
    requires forall i, j :: 0 <= i < |b| && 0 <= j < |r| ==> b[i] % m <= r[j] % m
    ensures SortedBy(b + r, m)
  {
    forall i, j | 0 <= i < j < |b + r|
      ensures (b + r)[i] % m <= (b + r)[j] % m
    {
      if j < |b| {
        assert (b + r)[i] == b[i] && (b + r)[j] == b[j];
      } else if i >= |b| {
        assert (b + r)[i] == r[i - |b|] && (b + r)[j] == r[j - |b|];
      } else {
        assert (b + r)[i] == b[i] && (b + r)[j] == r[j - |b|];
      }
    }
  }

  /** Every element of bucket `d` comes before every element of the later
      buckets in the order of the digits up to `place`. */
  lemma BucketBelowLater(s: seq<int>, place: nat, radix: nat, d: nat, b: seq<int>, r: seq<int>)
    requires place >= 1 && radix >= 1 && Bytes(s)
    requires b == Bucket(s, place, radix, d) && r == Distribute(s, place, radix, d + 1)
    ensures forall i, j :: 0 <= i < |b| && 0 <= j < |r| ==> b[i] % (place * radix) < r[j] % (place * radix)
  {
    BucketMembers(s, place, radix, d);
    DistributeDigits(s, place, radix, d + 1);
    DistributeBytes(s, place, radix, d + 1);
    forall i, j | 0 <= i < |b| && 0 <= j < |r|
      ensures b[i] % (place * radix) < r[j] % (place * radix)
    {
      var kx :| 0 <= kx < |s| && s[kx] == b[i];
      SmallerDigitSmallerKey(b[i], r[j], place, radix);
    }
  }

  /** One pass with radix `radix` turns order by the digits below `place`
      into order by the digits below `place * radix`. */
  lemma {:induction false} DistributeSortedBy(s: seq<int>, place: nat, radix: nat, d: nat)
    requires place >= 1 && radix >= 1 && Bytes(s)
    requires SortedBy(s, place)
    ensures SortedBy(Distribute(s, place, radix, d), place * radix)
    decreases radix - d
  {
    if d < radix {
      var b, r := Bucket(s, place, radix, d), Distribute(s, place, radix, d + 1);
      assert Distribute(s, place, radix, d) == b + r;
      MulNonneg(place, radix);
      BucketSortedByNext(s, place, radix, d);
      DistributeSortedBy(s, place, radix, d + 1);
      BucketBelowLater(s, place, radix, d, b, r);
      ConcatSortedBy(b, r, place * radix);
    }
  }

  /** A pass keeps every element a byte and below `max`. */
  lemma DistributeKeepsBounds(s: seq<int>, place: nat, radix: nat, max: int)
    requires place >= 1 && radix >= 1 && Bytes(s)
    requires forall i :: 0 <= i < |s| ==> s[i] <= max
    ensures Bytes(Distribute(s, place, radix, 0))
    ensures forall i :: 0 <= i < |Distribute(s, place, radix, 0)| ==> Distribute(s, place, radix, 0)[i] <= max
  {
    var r := Distribute(s, place, radix, 0);
    DistributeBytes(s, place, radix, 0);
    DistributePermutes(s, place, radix);
    forall i | 0 <= i < |r|
      ensures r[i] <= max
    {
      assert r[i] in multiset(s);
      var k :| 0 <= k < |s| && s[k] == r[i];
    }
  }

  // ------------------------------------------------------- counting pass

  /** The number of elements whose digit is below `d`: where bucket `d`
      starts in the distribution. */
  function Below(s: seq<int>, place: nat, radix: nat, d: nat): nat
    requires place >= 1 && radix >= 1
  {
    if d == 0 then 0 else Below(s, place, radix, d - 1) + |Bucket(s, place, radix, d - 1)|
  }

  lemma {:induction false} BucketAppend(a: seq<int>, b: seq<int>, place: nat, radix: nat, d: int)
    requires place >= 1 && radix >= 1
    ensures Bucket(a + b, place, radix, d) == Bucket(a, place, radix, d) + Bucket(b, place, radix, d)
  {
    if |a| == 0 {
      assert a + b == b;
    } else {
      assert (a + b)[0] == a[0] && (a + b)[1..] == a[1..] + b;
      BucketAppend(a[1..], b, place, radix, d);
    }
  }

  /** Taking one more element of `s` adds it to its own bucket only. */
  lemma BucketSnoc(s: seq<int>, i: nat, place: nat, radix: nat, d: int)
    requires place >= 1 && radix >= 1 && i < |s|
    ensures Bucket(s[..i + 1], place, radix, d) ==
              Bucket(s[..i], place, radix, d) + (if Digit(s[i], place, radix) == d then [s[i]] else [])
  {
    assert s[..i + 1] == s[..i] + [s[i]];
    BucketAppend(s[..i], [s[i]], place, radix, d);
    assert [s[i]][1..] == [];
  }

  /** `s[i]` is the element of its bucket that follows those of the same
      digit before it. */
  lemma BucketAt(s: seq<int>, i: nat, place: nat, radix: nat)
    requires place >= 1 && radix >= 1 && i < |s|
    ensures |Bucket(s[..i], place, radix, Digit(s[i], place, radix))| < |Bucket(s, place, radix, Digit(s[i], place, radix))|
    ensures Bucket(s, place, radix, Digit(s[i], place, radix))[|Bucket(s[..i], place, radix, Digit(s[i], place, radix))|] == s[i]
  {
    var d := Digit(s[i], place, radix);
    assert s == s[..i] + s[i..];
    BucketAppend(s[..i], s[i..], place, radix, d);
    assert s[i..][0] == s[i] && s[i..][1..] == s[i + 1..];
  }

  /** A prefix has no more elements of a digit than the whole. */
  lemma BucketPrefix(s: seq<int>, i: nat, place: nat, radix: nat, d: int)
    requires place >= 1 && radix >= 1 && i <= |s|
    ensures |Bucket(s[..i], place, radix, d)| <= |Bucket(s, place, radix, d)|
  {
    assert s == s[..i] + s[i..];
    BucketAppend(s[..i], s[i..], place, radix, d);
  }

  lemma {:induction false} BelowMono(s: seq<int>, place: nat, radix: nat, d: nat, e: nat)
    requires place >= 1 && radix >= 1 && d <= e
    ensures Below(s, place, radix, d) <= Below(s, place, radix, e)
    decreases e - d
  {
    if d < e {
      BelowMono(s, place, radix, d, e - 1);
    }
  }

  /** The buckets from `d` on fill the distribution after the first
      `Below(d)` positions. */
  lemma {:induction false} DistributeSize(s: seq<int>, place: nat, radix: nat, d: nat)
    requires place >= 1 && radix >= 1 && d <= radix
    ensures Below(s, place, radix, d) + |Distribute(s, place, radix, d)| == Below(s, place, radix, radix)
    decreases radix - d
  {
    if d < radix {
      DistributeSize(s, place, radix, d + 1);
    }
  }

  /** Every element has a digit below `radix`. */
  lemma BelowAll(s: seq<int>, place: nat, radix: nat)
    requires place >= 1 && radix >= 1
    ensures Below(s, place, radix, radix) == |s|
  {
    DistributeSize(s, place, radix, 0);
    DistributePermutes(s, place, radix);
    assert |multiset(s)| == |multiset(Distribute(s, place, radix, 0))|;
  }

  /** Bucket `d` lies in the distribution from bucket `e` on at offset
      `Below(d) - Below(e)`. */
  lemma {:induction false} DistributeAt(s: seq<int>, place: nat, radix: nat, e: nat, d: nat, j: nat)
    requires place >= 1 && radix >= 1 && e <= d < radix
    requires j < |Bucket(s, place, radix, d)|
    ensures Below(s, place, radix, e) <= Below(s, place, radix, d)
    ensures Below(s, place, radix, d) - Below(s, place, radix, e) + j < |Distribute(s, place, radix, e)|
    ensures Distribute(s, place, radix, e)[Below(s, place, radix, d) - Below(s, place, radix, e) + j] == Bucket(s, place, radix, d)[j]
    decreases d - e
  {
    var b, r := Bucket(s, place, radix, e), Distribute(s, place, radix, e + 1);
    assert Distribute(s, place, radix, e) == b + r;
    if e < d {
      DistributeAt(s, place, radix, e + 1, d, j);
    }
  }

  /** The bucket a position of the distribution belongs to. */
  lemma {:induction false} FindBucket(s: seq<int>, place: nat, radix: nat, p: nat, e: nat) returns (d: nat)
    requires place >= 1 && radix >= 1 && e <= radix
    requires p < Below(s, place, radix, e)
    ensures d < e && Below(s, place, radix, d) <= p < Below(s, place, radix, d + 1)
    decreases e
  {
    if Below(s, place, radix, e - 1) <= p {
      d := e - 1;
    } else {
      d := FindBucket(s, place, radix, p, e - 1);
    }
  }

  /** The position the reverse write of the counting pass gives `s[i]`
      holds `s[i]` in the distribution. */
  lemma PlacedAt(s: seq<int>, place: nat, radix: nat, i: nat, d: int, k: nat)
    requires place >= 1 && radix >= 1 && i < |s|
    requires d == Digit(s[i], place, radix) && k == |Bucket(s[..i], place, radix, d)|
    ensures 0 <= d < radix
    ensures Below(s, place, radix, d) + k < Below(s, place, radix, d + 1)
    ensures Below(s, place, radix, d) + k < |Distribute(s, place, radix, 0)|
    ensures Distribute(s, place, radix, 0)[Below(s, place, radix, d) + k] == s[i]
  {
    BucketAt(s, i, place, radix);
    DistributeAt(s, place, radix, 0, d, k);
  }

  /** Every position of the distribution holds an element whose digit
      starts its bucket at or before that position. */
  lemma PositionDigit(s: seq<int>, place: nat, radix: nat, p: nat)
    requires place >= 1 && radix >= 1 && p < |s|
    ensures p < |Distribute(s, place, radix, 0)|
    ensures 0 <= Digit(Distribute(s, place, radix, 0)[p], place, radix) < radix
    ensures Below(s, place, radix, Digit(Distribute(s, place, radix, 0)[p], place, radix)) <= p
    ensures p < Below(s, place, radix, Digit(Distribute(s, place, radix, 0)[p], place, radix) + 1)
  {
    BelowAll(s, place, radix);
    var d := FindBucket(s, place, radix, p, radix);
    var j := p - Below(s, place, radix, d);
    DistributeAt(s, place, radix, 0, d, j);
    BucketMembers(s, place, radix, d);
  }

  /** The first loop of a pass: the number of elements of each digit. */
  method CountDigits(s: seq<int>, place: nat, radix: nat) returns (counter: seq<int>)
    requires place >= 1 && radix >= 1
    ensures |counter| == radix
    ensures forall d :: 0 <= d < radix ==> counter[d] == |Bucket(s, place, radix, d)|
  {
    counter := seq(radix, _ => 0);
    var i := 0;
    while i < |s|
      invariant 0 <= i <= |s| && |counter| == radix
      invariant forall d :: 0 <= d < radix ==> counter[d] == |Bucket(s[..i], place, radix, d)|
    {
      forall d | 0 <= d < radix
        ensures |Bucket(s[..i + 1], place, radix, d)| ==
                  |Bucket(s[..i], place, radix, d)| + (if Digit(s[i], place, radix) == d then 1 else 0)
      {
        BucketSnoc(s, i, place, radix, d);
      }
      var d := Digit(s[i], place, radix);
      counter := counter[d := counter[d] + 1];
      i := i + 1;
    }
    assert s[..|s|] == s;
  }

  /** The second loop of a pass: prefix sums turn the counts into the end
      position of each digit's run. */
  method EndPositions(s: seq<int>, place: nat, radix: nat, counts: seq<int>) returns (counter: seq<int>)
    requires place >= 1 && radix >= 1 && |counts| == radix
    requires forall d :: 0 <= d < radix ==> counts[d] == |Bucket(s, place, radix, d)|
    ensures |counter| == radix
    ensures forall d :: 0 <= d < radix ==> counter[d] == Below(s, place, radix, d + 1)
  {
    counter := counts;
    var k := 1;
    while k < radix
      invariant 1 <= k <= radix && |counter| == radix
      invariant forall d :: 0 <= d < k ==> counter[d] == Below(s, place, radix, d + 1)
      invariant forall d :: k <= d < radix ==> counter[d] == |Bucket(s, place, radix, d)|
    {
      counter := counter[k := counter[k] + counter[k - 1]];
      k := k + 1;
    }
  }

  /** Every position `p` at or above the current end position of the digit
      of `t[p]` is already written. */
  predicate Written(t: seq<int>, r: seq<int>, counter: seq<int>, place: nat, radix: nat)
    requires place >= 1 && radix >= 1 && |counter| == radix && |r| == |t|
  {
    forall p :: 0 <= p < |t| && counter[Digit(t[p], place, radix)] <= p ==> r[p] == t[p]
  }

  /** Writing `x` at `c`, just below the end position of its digit `d`,
      which is lowered to `c`, keeps the written positions written. */
  lemma WriteStep(t: seq<int>, r: seq<int>, counter: seq<int>, place: nat, radix: nat, d: int, c: int, x: int)
    requires place >= 1 && radix >= 1 && |counter| == radix && |r| == |t|
    requires 0 <= c < |t| && t[c] == x && d == Digit(x, place, radix) && counter[d] == c + 1
    requires Written(t, r, counter, place, radix)
    ensures Written(t, r[c := x], counter[d := c], place, radix)
  {
    forall p | 0 <= p < |t| && counter[d := c][Digit(t[p], place, radix)] <= p
      ensures r[c := x][p] == t[p]
    {
      if p != c && Digit(t[p], place, radix) == d {
        assert counter[d] <= p;
      }
    }
  }

  /** The end position of each digit after the elements from `i` on have
      been written. */
  predicate Ends(s: seq<int>, i: nat, counter: seq<int>, place: nat, radix: nat)
    requires place >= 1 && radix >= 1 && i <= |s|
  {
    |counter| == radix &&
    forall d :: 0 <= d < radix ==> counter[d] == Below(s, place, radix, d) + |Bucket(s[..i], place, radix, d)|
  }

  /** Writing `s[i - 1]` lowers the end position of its digit to the
      position it is written at, which holds it in the distribution. */
  lemma EndsStep(s: seq<int>, i: nat, counter: seq<int>, place: nat, radix: nat)
    requires place >= 1 && radix >= 1 && 0 < i <= |s|
    requires Ends(s, i, counter, place, radix)
    ensures 0 <= Digit(s[i - 1], place, radix) < radix
    ensures 1 <= counter[Digit(s[i - 1], place, radix)] <= |s|
    ensures |Distribute(s, place, radix, 0)| == |s|
    ensures Distribute(s, place, radix, 0)[counter[Digit(s[i - 1], place, radix)] - 1] == s[i - 1]
    ensures Ends(s, i - 1, counter[Digit(s[i - 1], place, radix) := counter[Digit(s[i - 1], place, radix)] - 1], place, radix)
  {
    var d := Digit(s[i - 1], place, radix);
    forall e | 0 <= e < radix
      ensures |Bucket(s[..i], place, radix, e)| ==
                |Bucket(s[..i - 1], place, radix, e)| + (if d == e then 1 else 0)
    {
      BucketSnoc(s, i - 1, place, radix, e);
    }
    var k := |Bucket(s[..i - 1], place, radix, d)|;
    PlacedAt(s, place, radix, i - 1, d, k);
    BelowAll(s, place, radix);
    BelowMono(s, place, radix, d + 1, radix);
    DistributeSize(s, place, radix, 0);
  }

  /** Before the write loop nothing counts as written: every position lies
      below the end position of its digit. */
  lemma NothingWrittenYet(s: seq<int>, r: seq<int>, ends: seq<int>, place: nat, radix: nat)
    requires place >= 1 && radix >= 1 && |ends| == radix && |r| == |s|
    requires forall d :: 0 <= d < radix ==> ends[d] == Below(s, place, radix, d + 1)
    ensures |Distribute(s, place, radix, 0)| == |s|
    ensures Ends(s, |s|, ends, place, radix)
    ensures Written(Distribute(s, place, radix, 0), r, ends, place, radix)
  {
    var t := Distribute(s, place, radix, 0);
    BelowAll(s, place, radix);
    DistributeSize(s, place, radix, 0);
    assert s[..|s|] == s;
    forall p | 0 <= p < |s|
      ensures p < ends[Digit(t[p], place, radix)]
    {
      PositionDigit(s, place, radix, p);
    }
  }

  /** After the write loop every position is written. */
  lemma AllWritten(s: seq<int>, r: seq<int>, counter: seq<int>, place: nat, radix: nat)
    requires place >= 1 && radix >= 1 && |r| == |s|
    requires Ends(s, 0, counter, place, radix)
    requires |Distribute(s, place, radix, 0)| == |s|
    requires Written(Distribute(s, place, radix, 0), r, counter, place, radix)
    ensures r == Distribute(s, place, radix, 0)
  {
    var t := Distribute(s, place, radix, 0);
    forall p | 0 <= p < |s|
      ensures r[p] == t[p]
    {
      PositionDigit(s, place, radix, p);
    }
  }

  /** The third loop of a pass: the elements of a copy, from last to
      first, each written just below the end position of its digit, which
      is then lowered. Writing from the back keeps equal digits in their
      order, so the result is the stable distribution. */
  method WriteBack(s: seq<int>, place: nat, radix: nat, ends: seq<int>) returns (r: seq<int>)
    requires place >= 1 && radix >= 1 && Bytes(s) && |ends| == radix
    requires forall d :: 0 <= d < radix ==> ends[d] == Below(s, place, radix, d + 1)
    ensures r == Distribute(s, place, radix, 0)
  {
    ghost var t := Distribute(s, place, radix, 0);
    var counter := ends;
    r := s;
    NothingWrittenYet(s, r, ends, place, radix);
    var i := |s|;
    while i > 0
      invariant 0 <= i <= |s| && |r| == |s| && |counter| == radix
      invariant Ends(s, i, counter, place, radix)
      invariant Written(t, r, counter, place, radix)
    {
      var x := s[i - 1];
      var d := Digit(x, place, radix);
      EndsStep(s, i, counter, place, radix);
      var c := counter[d] - 1;
      WriteStep(t, r, counter, place, radix, d, c, x);
      counter := counter[d := c];
      r := r[c := x];
      i := i - 1;
    }
    AllWritten(s, r, counter, place, radix);
  }

  /** One pass of `radix_sort` as the source writes it: count, prefix
      sums, reverse write. It computes the stable distribution by the
      digit at `place`. */
  method CountingPass(s: seq<int>, place: nat, radix: nat) returns (r: seq<int>)
    requires place >= 1 && radix >= 1 && Bytes(s)
    ensures r == Distribute(s, place, radix, 0)
  {
    var counts := CountDigits(s, place, radix);
    var ends := EndPositions(s, place, radix, counts);
    r := WriteBack(s, place, radix, ends);
  }

  /** The largest element, which `par_iter().max()` computes (sequentially
      here). */
  function Largest(s: seq<int>): (m: int)
    requires |s| > 0
    ensures m in s && forall i :: 0 <= i < |s| ==> s[i] <= m
  {
    if |s| == 1 then s[0]
    else
      var m := Largest(s[1..]);
      assert forall i :: 1 <= i < |s| ==> s[i] == s[1..][i - 1];
      if s[0] < m then m else s[0]
  }

  /** Below a place greater than every element, order by the digits below
      the place is plain order. */
  lemma SortedByLargePlace(s: seq<int>, place: nat, max: int)
    requires place >= 1 && Bytes(s)
    requires forall i :: 0 <= i < |s| ==> s[i] <= max < place
    requires SortedBy(s, place)
    ensures Sorted(s)
  {
    forall i | 0 <= i < |s|
      ensures s[i] % place == s[i]
    {
      DivModUnique(s[i], place, 0, s[i]);
    }
  }

  /** `radix_sort` with the radix of at least 2: the result is sorted and a
      rearrangement of the input. The source panics on an empty collection. */
  method Sort(a: seq<int>) returns (b: seq<int>)
    requires |a| > 0 && Bytes(a)
    ensures Sorted(b) && Perm(a, b)
  {
    var max := Largest(a);
    var radix := Radix(|a|);
    var place := 1;
    b := a;
    while place <= max
      invariant place >= 1
      invariant Perm(a, b) && |b| == |a| && Bytes(b)
      invariant forall i :: 0 <= i < |b| ==> b[i] <= max
      invariant SortedBy(b, place)
      decreases max + 1 - place
    {
      DistributePermutes(b, place, radix);
      DistributeSortedBy(b, place, radix, 0);
      DistributeKeepsBounds(b, place, radix, max);
      b := CountingPass(b, place, radix);
      MulMono(2, radix, place);
      place := place * radix;
    }
    SortedByLargePlace(b, place, max);
  }
}
