/** The argument parsers of the command-line application: `parse_row` reads
    a comma-separated row of signed integers, `parse_key_value_pair` reads a
    `key/value` pair. Both rest on the standard library's `FromStr` for the
    integer types, which is modelled here after its documented behaviour:
    an optional sign, then decimal digits read left to right, each step
    checked for a bad digit and then for overflow. `usize` and `isize` are
    taken 64 bits wide. */
module Args {
  import opened Wrappers

  /** `std::num::IntErrorKind`, restricted to the kinds decimal parsing
      produces. */
  datatype IntErrorKind = Empty | InvalidDigit | PosOverflow | NegOverflow

  /** The boxed error of `parse_key_value_pair`: the missing separator, or
      the error of one of the two halves. */
  datatype ArgError = NoSlash(input: string) | BadInt(kind: IntErrorKind)

  const U32Max: int := 0xffff_ffff
  const UsizeMax: int := 0xffff_ffff_ffff_ffff
  const IsizeMin: int := -0x8000_0000_0000_0000
  const IsizeMax: int := 0x7fff_ffff_ffff_ffff

  // ---------------------------------------------------------------------------
  // Decimal numerals
  // ---------------------------------------------------------------------------

  predicate IsDigit(c: char)
  {
    '0' <= c <= '9'
  }

  predicate AllDigits(ds: string)
  {
    forall i :: 0 <= i < |ds| ==> IsDigit(ds[i])
  }

  function DigitValue(c: char): nat
    requires IsDigit(c)
  {
    c as int - '0' as int
  }

  /** The number a string of digits denotes, most significant digit first. */
  function DigitsValue(ds: string): nat
    requires AllDigits(ds)
  {
    if ds == [] then 0
    else 10 * DigitsValue(ds[..|ds| - 1]) + DigitValue(ds[|ds| - 1])
  }

  /** The digits after an optional leading sign. */
  function NumeralDigits(s: string): string
  {
    if |s| > 0 && (s[0] == '+' || s[0] == '-') then s[1..] else s
  }

  /** A decimal numeral: an optional `+` (or `-` for a signed type) followed
      by at least one digit. */
  predicate IsNumeral(s: string, signed: bool)
  {
    && |NumeralDigits(s)| > 0
    && AllDigits(NumeralDigits(s))
    && (signed || s[0] != '-')
  }

  /** The integer a numeral denotes. */
  function NumeralValue(s: string): int
    requires |s| > 0 && AllDigits(NumeralDigits(s))
  {
    if s[0] == '-' then -(DigitsValue(NumeralDigits(s)) as int) else DigitsValue(NumeralDigits(s))
  }

  // ---------------------------------------------------------------------------
  // FromStr for the integer types
  // ---------------------------------------------------------------------------

  /** The digit loop: each character is first checked to be a digit, then
      the accumulator is scaled and the digit added (or, below zero,
      subtracted), and the result checked against the bounds of the type. */
  function Accumulate(digits: string, acc: int, positive: bool, lo: int, hi: int): (r: Result<int, IntErrorKind>)
    requires lo <= acc <= hi && (if positive then 0 <= acc else acc <= 0)
    ensures r.Ok? ==> lo <= r.value <= hi
    ensures r != Err(Empty)
    decreases |digits|
  {
    if digits == [] then Ok(acc)
    else if !IsDigit(digits[0]) then Err(InvalidDigit)
    else if positive then
      var next := acc * 10 + DigitValue(digits[0]);
      if next > hi then Err(PosOverflow) else Accumulate(digits[1..], next, positive, lo, hi)
    else
      var next := acc * 10 - DigitValue(digits[0]);
      if next < lo then Err(NegOverflow) else Accumulate(digits[1..], next, positive, lo, hi)
  }

  /** `str::parse` for an integer type whose values are `lo..=hi`; the type
      is signed exactly when `lo` is below zero. A lone sign is a bad digit,
      and a `-` on an unsigned type is left in place, where it is one. */
  function ParseInt(s: string, lo: int, hi: int): (r: Result<int, IntErrorKind>)
    requires lo <= 0 <= hi
    ensures r.Ok? ==> lo <= r.value <= hi
  {
    if s == [] then Err(Empty)
    else if (s[0] == '+' || s[0] == '-') && |s| == 1 then Err(InvalidDigit)
    else if s[0] == '+' then Accumulate(s[1..], 0, true, lo, hi)
    else if s[0] == '-' && lo < 0 then Accumulate(s[1..], 0, false, lo, hi)
    else Accumulate(s, 0, true, lo, hi)
  }

  /** The value the digit loop reaches from `acc`, bounds aside. */
  function Horner(acc: int, ds: string, positive: bool): int
    requires AllDigits(ds)
    decreases |ds|
  {
    if ds == [] then acc
    else Horner(if positive then acc * 10 + DigitValue(ds[0]) else acc * 10 - DigitValue(ds[0]),
                ds[1..], positive)
  }

  /** One more digit at the back scales the reading by ten. */
  lemma {:induction false} HornerSnoc(acc: int, ds: string, e: char, positive: bool)
    requires AllDigits(ds) && IsDigit(e)
    ensures AllDigits(ds + [e])
    ensures Horner(acc, ds + [e], positive)
         == Horner(acc, ds, positive) * 10 + (if positive then DigitValue(e) as int else -(DigitValue(e) as int))
    decreases |ds|
  {
    var s := ds + [e];
    assert forall i :: 0 <= i < |s| ==> IsDigit(s[i]) by {
      forall i | 0 <= i < |s| ensures IsDigit(s[i]) {
        if i < |ds| { assert s[i] == ds[i]; }
      }
    }
    if ds != [] {
      assert s[1..] == ds[1..] + [e];
      var next := if positive then acc * 10 + DigitValue(ds[0]) else acc * 10 - DigitValue(ds[0]);
      HornerSnoc(next, ds[1..], e, positive);
    }
  }

  /** Read from zero, the loop computes the value of the digits, or its
      negation on the way down. */
  lemma {:induction false} HornerValue(ds: string, positive: bool)
    requires AllDigits(ds)
    ensures Horner(0, ds, positive) == if positive then DigitsValue(ds) else -(DigitsValue(ds) as int)
    decreases |ds|
  {
    if ds != [] {
      var front, e := ds[..|ds| - 1], ds[|ds| - 1];
      assert ds == front + [e];
      assert AllDigits(front) by {
        assert forall i :: 0 <= i < |front| ==> front[i] == ds[i];
      }
      HornerValue(front, positive);
      HornerSnoc(0, front, e, positive);
    }
  }

  /** Reading up never goes below the start. */
  lemma {:induction false} HornerGrows(acc: int, ds: string)
    requires AllDigits(ds) && acc >= 0
    ensures Horner(acc, ds, true) >= acc
    decreases |ds|
  {
    if ds != [] {
      HornerGrows(acc * 10 + DigitValue(ds[0]), ds[1..]);
    }
  }

  /** Reading down never goes above the start. */
  lemma {:induction false} HornerShrinks(acc: int, ds: string)
    requires AllDigits(ds) && acc <= 0
    ensures Horner(acc, ds, false) <= acc
    decreases |ds|
  {
    if ds != [] {
      HornerShrinks(acc * 10 - DigitValue(ds[0]), ds[1..]);
    }
  }

  /** Counting up from a non-negative accumulator: the loop yields the
      reading when it fits, overflow when it does not, and an error when a
      character is not a digit. */
  lemma {:induction false} AccumulateUp(ds: string, acc: int, lo: int, hi: int)
    requires lo <= 0 <= acc <= hi
    ensures !AllDigits(ds) ==> Accumulate(ds, acc, true, lo, hi).Err?
    ensures AllDigits(ds) ==>
      var v := Horner(acc, ds, true);
      Accumulate(ds, acc, true, lo, hi) == if v > hi then Err(PosOverflow) else Ok(v)
    decreases |ds|
  {
    if ds != [] && IsDigit(ds[0]) {
      var t := ds[1..];
      var next := acc * 10 + DigitValue(ds[0]);
      assert AllDigits(ds) <==> AllDigits(t) by {
        assert forall i :: 0 < i < |ds| ==> ds[i] == t[i - 1];
      }
      if AllDigits(t) {
        HornerGrows(next, t);
      }
      if next <= hi {
        AccumulateUp(t, next, lo, hi);
      }
    }
  }

  /** Counting down from a non-positive accumulator, for a `-` numeral. */
  lemma {:induction false} AccumulateDown(ds: string, acc: int, lo: int, hi: int)
    requires lo <= acc <= 0 <= hi
    ensures !AllDigits(ds) ==> Accumulate(ds, acc, false, lo, hi).Err?
    ensures AllDigits(ds) ==>
      var v := Horner(acc, ds, false);
      Accumulate(ds, acc, false, lo, hi) == if v < lo then Err(NegOverflow) else Ok(v)
    decreases |ds|
  {
    if ds != [] && IsDigit(ds[0]) {
      var t := ds[1..];
      var next := acc * 10 - DigitValue(ds[0]);
      assert AllDigits(ds) <==> AllDigits(t) by {
        assert forall i :: 0 < i < |ds| ==> ds[i] == t[i - 1];
      }
      if AllDigits(t) {
        HornerShrinks(next, t);
      }
      if next >= lo {
        AccumulateDown(t, next, lo, hi);
      }
    }
  }

  /** `str::parse` against the meaning of decimal numerals: only the empty
      string is `Empty`; a numeral parses to its value when the type holds
      it and overflows in the direction of its sign otherwise; anything
      else is an error. */
  lemma ParseIntSpec(s: string, lo: int, hi: int)
    requires lo <= 0 <= hi
    ensures ParseInt(s, lo, hi) == Err(Empty) <==> s == []
    ensures !IsNumeral(s, lo < 0) ==> ParseInt(s, lo, hi).Err?
    ensures IsNumeral(s, lo < 0) ==>
      var v := NumeralValue(s);
      ParseInt(s, lo, hi) == if v > hi then Err(PosOverflow) else if v < lo then Err(NegOverflow) else Ok(v)
  {
    if s != [] && !((s[0] == '+' || s[0] == '-') && |s| == 1) {
      var ds := NumeralDigits(s);
      if AllDigits(ds) {
        HornerValue(ds, s[0] != '-');
      }
      if s[0] == '+' {
        AccumulateUp(ds, 0, lo, hi);
      } else if s[0] == '-' && lo < 0 {
        AccumulateDown(ds, 0, lo, hi);
      } else if s[0] == '-' {
        assert !IsDigit(s[0]);
        AccumulateUp(s, 0, lo, hi);
      } else {
        AccumulateUp(s, 0, lo, hi);
      }
    }
  }

  // ---------------------------------------------------------------------------
  // Printing numbers
  // ---------------------------------------------------------------------------

  function DigitChar(d: nat): (c: char)
    requires d < 10
    ensures IsDigit(c) && DigitValue(c) == d
  {
    ('0' as int + d) as char
  }

  /** The decimal form of a natural number, without leading zeros. */
  function ShowNat(n: nat): string
  {
    if n < 10 then [DigitChar(n)] else ShowNat(n / 10) + [DigitChar(n % 10)]
  }

  /** The decimal form of an integer, with `-` below zero. */
  function ShowInt(n: int): string
  {
    if n < 0 then "-" + ShowNat(-n) else ShowNat(n)
  }

  /** The decimal form is digits, and they denote the number. */
  lemma {:induction false} ShowNatValue(n: nat)
    ensures |ShowNat(n)| > 0 && AllDigits(ShowNat(n))
    ensures DigitsValue(ShowNat(n)) == n
    decreases n
  {
    if n >= 10 {
      ShowNatValue(n / 10);
      var s := ShowNat(n);
      assert s[..|s| - 1] == ShowNat(n / 10);
      assert forall i :: 0 <= i < |s| - 1 ==> s[i] == ShowNat(n / 10)[i];
    }
  }

  /** Printing then parsing gives the number back, for every value of the
      type. */
  lemma ParseShowInt(n: int, lo: int, hi: int)
    requires lo <= 0 <= hi && lo <= n <= hi
    ensures ParseInt(ShowInt(n), lo, hi) == Ok(n)
  {
    var s := ShowInt(n);
    if n < 0 {
      ShowNatValue(-n);
      assert NumeralDigits(s) == ShowNat(-n);
    } else {
      ShowNatValue(n);
      assert NumeralDigits(s) == ShowNat(n);
    }
    ParseIntSpec(s, lo, hi);
  }

  /** A number in decimal never contains a character other than a sign and
      digits. */
  lemma NumeralHasNo(s: string, signed: bool, c: char)
    requires IsNumeral(s, signed) && c != '+' && c != '-' && !IsDigit(c)
    ensures c !in s
  {
    forall i | 0 <= i < |s| ensures s[i] != c {
      if s[0] != '+' && s[0] != '-' {
        assert s[i] == NumeralDigits(s)[i];
      } else if i > 0 {
        assert s[i] == NumeralDigits(s)[i - 1];
      }
    }
  }

  // ---------------------------------------------------------------------------
  // Splitting and joining
  // ---------------------------------------------------------------------------

  /** `str::split` on one character: the pieces between the separators,
      including empty ones at either end. */
  function Split(s: string, sep: char): (r: seq<string>)
    ensures |r| > 0
  {
    if s == [] then [[]]
    else if s[0] == sep then [[]] + Split(s[1..], sep)
    else
      var rest := Split(s[1..], sep);
      [[s[0]] + rest[0]] + rest[1..]
  }

  /** `join`: the pieces with the separator between consecutive ones. */
  function Join(ps: seq<string>, sep: char): string
  {
    if ps == [] then [] else if |ps| == 1 then ps[0] else ps[0] + [sep] + Join(ps[1..], sep)
  }

  /** Splitting yields one piece more than there are separators. */
  lemma {:induction false} SplitCount(s: string, sep: char)
    ensures |Split(s, sep)| == multiset(s)[sep] + 1
  {
    if s != [] {
      SplitCount(s[1..], sep);
      assert s == [s[0]] + s[1..];
      assert multiset(s) == multiset{s[0]} + multiset(s[1..]);
    }
  }

  /** No piece holds a separator. */
  lemma {:induction false} SplitPieces(s: string, sep: char)
    ensures forall i :: 0 <= i < |Split(s, sep)| ==> sep !in Split(s, sep)[i]
  {
    if s != [] {
      var rest := Split(s[1..], sep);
      SplitPieces(s[1..], sep);
      var r := Split(s, sep);
      if s[0] == sep {
        assert forall i :: 1 <= i < |r| ==> r[i] == rest[i - 1];
      } else {
        assert forall i :: 1 <= i < |r| ==> r[i] == rest[i];
        assert sep !in rest[0];
      }
    }
  }

  /** Joining the pieces gives the string back. */
  lemma {:induction false} JoinOfSplit(s: string, sep: char)
    ensures Join(Split(s, sep), sep) == s
  {
    if s != [] {
      var rest := Split(s[1..], sep);
      JoinOfSplit(s[1..], sep);
      var r := Split(s, sep);
      if s[0] == sep {
        assert r[1..] == rest;
      } else {
        assert r[1..] == rest[1..];
        if |rest| > 1 {
          assert Join(rest, sep) == rest[0] + [sep] + Join(rest[1..], sep);
        }
      }
      assert s == [s[0]] + s[1..];
    }
  }

  /** Joining pieces free of the separator and splitting again gives the
      pieces back. */
  lemma {:induction false} JoinSplit(ps: seq<string>, sep: char)
    requires |ps| > 0 && forall i :: 0 <= i < |ps| ==> sep !in ps[i]
    ensures Split(Join(ps, sep), sep) == ps
  {
    if |ps| > 1 {
      JoinSplit(ps[1..], sep);
      PrefixSplit(ps[0], Join(ps[1..], sep), sep);
    } else {
      JoinSplitPiece(ps[0], sep);
    }
  }

  /** A piece free of the separator splits into itself. */
  lemma {:induction false} JoinSplitPiece(p: string, sep: char)
    requires sep !in p
    ensures Split(p, sep) == [p]
  {
    if p != [] {
      JoinSplitPiece(p[1..], sep);
      assert p == [p[0]] + p[1..];
    }
  }

  /** A piece free of the separator, then the separator, puts the piece in
      front of the split of the rest. */
  lemma {:induction false} PrefixSplit(p: string, rest: string, sep: char)
    requires sep !in p
    ensures Split(p + [sep] + rest, sep) == [p] + Split(rest, sep)
  {
    var s := p + [sep] + rest;
    if p == [] {
      assert s == [sep] + rest;
      assert s[1..] == rest;
    } else {
      PrefixSplit(p[1..], rest, sep);
      assert s[1..] == p[1..] + [sep] + rest;
      assert p == [p[0]] + p[1..];
    }
  }

  // ---------------------------------------------------------------------------
  // parse_row
  // ---------------------------------------------------------------------------

  /** `collect` into a `Result`: the values in order, or the error of the
      first piece that fails. */
  function ParseAll(ps: seq<string>, lo: int, hi: int): Result<seq<int>, IntErrorKind>
    requires lo <= 0 <= hi
  {
    if ps == [] then Ok([])
    else match ParseInt(ps[0], lo, hi)
      case Err(e) => Err(e)
      case Ok(v) => match ParseAll(ps[1..], lo, hi)
        case Err(e) => Err(e)
        case Ok(vs) => Ok([v] + vs)
  }

  /** Collecting succeeds exactly when every piece parses, with the pieces'
      values; otherwise it reports the error of the first failing piece. */
  lemma {:induction false} ParseAllSpec(ps: seq<string>, lo: int, hi: int)
    requires lo <= 0 <= hi
    ensures ParseAll(ps, lo, hi).Ok? <==> forall i :: 0 <= i < |ps| ==> ParseInt(ps[i], lo, hi).Ok?
    ensures ParseAll(ps, lo, hi).Ok? ==>
      && |ParseAll(ps, lo, hi).value| == |ps|
      && forall i :: 0 <= i < |ps| ==> ParseInt(ps[i], lo, hi) == Ok(ParseAll(ps, lo, hi).value[i])
    ensures ParseAll(ps, lo, hi).Err? ==>
      exists i :: && 0 <= i < |ps|
                  && ParseInt(ps[i], lo, hi) == Err(ParseAll(ps, lo, hi).error)
                  && forall j :: 0 <= j < i ==> ParseInt(ps[j], lo, hi).Ok?
  {
    if ps != [] {
      ParseAllSpec(ps[1..], lo, hi);
      assert forall i :: 1 <= i < |ps| ==> ps[i] == ps[1..][i - 1];
      var r := ParseAll(ps, lo, hi);
      if ParseInt(ps[0], lo, hi).Ok? && ParseAll(ps[1..], lo, hi).Err? {
        var i :| && 0 <= i < |ps[1..]|
                 && ParseInt(ps[1..][i], lo, hi) == Err(ParseAll(ps[1..], lo, hi).error)
                 && forall j :: 0 <= j < i ==> ParseInt(ps[1..][j], lo, hi).Ok?;
        assert ParseInt(ps[i + 1], lo, hi) == Err(r.error);
        assert forall j :: 0 <= j < i + 1 ==> ParseInt(ps[j], lo, hi).Ok? by {
          forall j | 0 < j < i + 1 ensures ParseInt(ps[j], lo, hi).Ok? {
            assert ps[j] == ps[1..][j - 1];
          }
        }
      }
    }
  }

  /** `parse_row::<isize>`: the row split on commas, every piece parsed. */
  function ParseRow(s: string): Result<seq<int>, IntErrorKind>
  {
    ParseAll(Split(s, ','), IsizeMin, IsizeMax)
  }

  /** A parsed row has one value per comma-separated piece, each the value
      of its piece and within `isize`; it fails exactly when some piece
      does not parse. */
  lemma ParseRowSpec(s: string)
    ensures ParseRow(s).Ok? <==>
      forall i :: 0 <= i < |Split(s, ',')| ==> ParseInt(Split(s, ',')[i], IsizeMin, IsizeMax).Ok?
    ensures ParseRow(s).Ok? ==>
      && |ParseRow(s).value| == |Split(s, ',')| == multiset(s)[','] + 1
      && forall i :: 0 <= i < |Split(s, ',')| ==>
           IsizeMin <= ParseRow(s).value[i] <= IsizeMax
           && ParseInt(Split(s, ',')[i], IsizeMin, IsizeMax) == Ok(ParseRow(s).value[i])
  {
    SplitCount(s, ',');
    ParseAllSpec(Split(s, ','), IsizeMin, IsizeMax);
  }

  /** The empty row is rejected: its only piece is empty. */
  lemma EmptyRowRejected()
    ensures ParseRow("") == Err(Empty)
  {
  }

  /** A row printed in decimal, comma-separated. */
  function ShowRow(xs: seq<int>): string
  {
    Join(ShowEach(xs), ',')
  }

  function ShowEach(xs: seq<int>): (ps: seq<string>)
    ensures |ps| == |xs| && forall i :: 0 <= i < |xs| ==> ps[i] == ShowInt(xs[i])
  {
    seq(|xs|, i requires 0 <= i < |xs| => ShowInt(xs[i]))
  }

  /** A non-empty row of `isize` values, printed and joined with commas,
      parses back to itself. */
  lemma ParseRowShow(xs: seq<int>)
    requires |xs| > 0 && forall i :: 0 <= i < |xs| ==> IsizeMin <= xs[i] <= IsizeMax
    ensures ParseRow(ShowRow(xs)) == Ok(xs)
  {
    var ps := ShowEach(xs);
    forall i | 0 <= i < |ps| ensures ',' !in ps[i] && ParseInt(ps[i], IsizeMin, IsizeMax) == Ok(xs[i]) {
      ParseShowInt(xs[i], IsizeMin, IsizeMax);
      ParseIntSpec(ps[i], IsizeMin, IsizeMax);
      NumeralHasNo(ps[i], true, ',');
    }
    JoinSplit(ps, ',');
    assert Split(ShowRow(xs), ',') == ps;
    ParseAllSpec(ps, IsizeMin, IsizeMax);
    var vs := ParseAll(ps, IsizeMin, IsizeMax).value;
    assert forall i :: 0 <= i < |xs| ==> vs[i] == xs[i];
    assert vs == xs;
  }

  // ---------------------------------------------------------------------------
  // parse_key_value_pair
  // ---------------------------------------------------------------------------

  /** `str::find` for one character. */
  function Find(s: string, c: char): (r: Option<nat>)
    ensures r.None? <==> c !in s
    ensures r.Some? ==> r.value < |s| && s[r.value] == c && c !in s[..r.value]
  {
    if s == [] then None
    else if s[0] == c then Some(0)
    else match Find(s[1..], c)
      case None => None
      case Some(p) => assert s[..p + 1] == [s[0]] + s[1..][..p]; Some(p + 1)
  }

  /** `parse_key_value_pair`, with the parsers of the two halves as
      parameters: the string is cut at its first `/`; the key is parsed
      first, so its error is the one reported. */
  function ParseKeyValuePair<T, U>(s: string, parseKey: string -> Result<T, ArgError>,
                                   parseValue: string -> Result<U, ArgError>): (r: Result<(T, U), ArgError>)
    ensures '/' !in s ==> r == Err(NoSlash(s))
    ensures r.Ok? ==>
      exists p :: && 0 <= p < |s| && s[p] == '/' && '/' !in s[..p]
                  && parseKey(s[..p]) == Ok(r.value.0) && parseValue(s[p + 1..]) == Ok(r.value.1)
  {
    match Find(s, '/')
    case None => Err(NoSlash(s))
    case Some(pos) =>
      match parseKey(s[..pos])
      case Err(e) => Err(e)
      case Ok(k) =>
        match parseValue(s[pos + 1..])
        case Err(e) => Err(e)
        case Ok(v) => Ok((k, v))
  }

  /** Errors: with a `/`, the key's error comes first, then the value's. */
  lemma PairErrors<T, U>(s: string, parseKey: string -> Result<T, ArgError>,
                         parseValue: string -> Result<U, ArgError>, p: nat)
    requires p < |s| && s[p] == '/' && '/' !in s[..p]
    ensures parseKey(s[..p]).Err? ==> ParseKeyValuePair(s, parseKey, parseValue) == Err(parseKey(s[..p]).error)
    ensures parseKey(s[..p]).Ok? && parseValue(s[p + 1..]).Err? ==>
      ParseKeyValuePair(s, parseKey, parseValue) == Err(parseValue(s[p + 1..]).error)
  {
    FirstIndex(s, '/', p, Find(s, '/').value);
  }

  /** Two first occurrences of a character are at the same place. */
  lemma FirstIndex(s: string, c: char, p: nat, q: nat)
    requires p < |s| && s[p] == c && c !in s[..p]
    requires q < |s| && s[q] == c && c !in s[..q]
    ensures p == q
  {
  }

  /** A key free of `/`, a `/` and a value parse to the two parsed halves,
      whatever the value holds. */
  lemma PairRoundTrip<T, U>(key: string, value: string, parseKey: string -> Result<T, ArgError>,
                            parseValue: string -> Result<U, ArgError>, a: T, b: U)
    requires '/' !in key && parseKey(key) == Ok(a) && parseValue(value) == Ok(b)
    ensures ParseKeyValuePair(key + "/" + value, parseKey, parseValue) == Ok((a, b))
  {
    var s := key + "/" + value;
    var p := |key|;
    assert s[..p] == key && s[p + 1..] == value && s[p] == '/';
    FirstIndex(s, '/', p, Find(s, '/').value);
  }

  /** `usize::from_str`. */
  function ParseUsize(s: string): (r: Result<int, ArgError>)
    ensures r.Ok? ==> 0 <= r.value <= UsizeMax
  {
    match ParseInt(s, 0, UsizeMax)
    case Ok(v) => Ok(v)
    case Err(e) => Err(BadInt(e))
  }

  /** `u32::from_str`. */
  function ParseU32(s: string): (r: Result<int, ArgError>)
    ensures r.Ok? ==> 0 <= r.value <= U32Max
  {
    match ParseInt(s, 0, U32Max)
    case Ok(v) => Ok(v)
    case Err(e) => Err(BadInt(e))
  }

  /** `String::from_str`, which cannot fail. */
  function ParseString(s: string): Result<string, ArgError>
  {
    Ok(s)
  }

  /** The documented `x/y` form of the jump optimiser's arguments: two
      `usize` values in decimal around a `/` parse to the pair. */
  lemma UsizePairRoundTrip(x: nat, y: nat)
    requires x <= UsizeMax && y <= UsizeMax
    ensures ParseKeyValuePair(ShowNat(x) + "/" + ShowNat(y), ParseUsize, ParseUsize) == Ok((x, y))
  {
    ParseShowInt(x, 0, UsizeMax);
    ParseShowInt(y, 0, UsizeMax);
    ShowNatValue(x);
    NumeralHasNo(ShowNat(x), false, '/');
    PairRoundTrip(ShowNat(x), ShowNat(y), ParseUsize, ParseUsize, x, y);
  }

  /** A pair of `usize` values holds exactly one `/`: a second one lands in
      the value, where it is not a digit. */
  lemma UsizePairOneSlash(s: string)
    requires ParseKeyValuePair(s, ParseUsize, ParseUsize).Ok?
    ensures multiset(s)['/'] == 1
  {
    var r := ParseKeyValuePair(s, ParseUsize, ParseUsize);
    var p :| && 0 <= p < |s| && s[p] == '/' && '/' !in s[..p]
             && ParseUsize(s[..p]) == Ok(r.value.0) && ParseUsize(s[p + 1..]) == Ok(r.value.1);
    UsizeHasNoSlash(s[p + 1..]);
    CountAround(s, p, '/');
  }

  /** A `usize` in decimal holds no `/`. */
  lemma UsizeHasNoSlash(x: string)
    requires ParseUsize(x).Ok?
    ensures '/' !in x
  {
    ParseIntSpec(x, 0, UsizeMax);
    NumeralHasNo(x, false, '/');
  }

  /** The only `c` of a string with none before and none after `p`. */
  lemma CountAround(s: string, p: nat, c: char)
    requires p < |s| && s[p] == c && c !in s[..p] && c !in s[p + 1..]
    ensures multiset(s)[c] == 1
  {
    assert s == s[..p] + [s[p]] + s[p + 1..];
    assert multiset(s) == multiset(s[..p]) + multiset{c} + multiset(s[p + 1..]);
  }

  /** The menu optimiser's `dish/calories` form: a dish name free of `/`
      and a `u32` in decimal parse to the dish. */
  lemma DishRoundTrip(name: string, calories: nat)
    requires '/' !in name && calories <= U32Max
    ensures ParseKeyValuePair(name + "/" + ShowNat(calories), ParseString, ParseU32) == Ok((name, calories))
  {
    ParseShowInt(calories, 0, U32Max);
    PairRoundTrip(name, ShowNat(calories), ParseString, ParseU32, name, calories);
  }
}
