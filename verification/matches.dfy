/** The bad-character Boyer-Moore searcher of the pattern-search server:
    it counts the positions at which a byte pattern occurs in a byte text. */
module Matches {
  import opened Wrappers

  type Byte = b: int | 0 <= b < 256

  /** Size of the bad-character table; byte 255 has no entry. */
  const NUM_CHARS: nat := 255

  datatype SearchError = PatternLongerThanText

  /** Every byte has an entry in the bad-character table. Text and pattern
      come from UTF-8 strings, which never contain the byte 255. */
  predicate InTable(s: seq<Byte>)
  {
    forall i :: 0 <= i < |s| ==> s[i] < NUM_CHARS
  }

  /** The last index of `c` in `pattern`, or -1 when `c` does not occur. */
  function LastIndex(pattern: seq<Byte>, c: Byte): (r: int)
    ensures -1 <= r < |pattern|
    ensures r >= 0 ==> pattern[r] == c
    ensures forall k :: r < k < |pattern| ==> pattern[k] != c
  {
    if |pattern| == 0 then -1
    else if pattern[|pattern| - 1] == c then |pattern| - 1
    else LastIndex(pattern[..|pattern| - 1], c)
  }

  /** `preprocess_pattern`: a table of `NUM_CHARS` entries, all -1, then
      overwritten position by position, so each byte ends up with its last
      index in the pattern. */
  method PreprocessPattern(pattern: seq<Byte>) returns (badChar: seq<int>)
    requires InTable(pattern)
    ensures |badChar| == NUM_CHARS
    ensures forall c :: 0 <= c < NUM_CHARS ==> badChar[c] == LastIndex(pattern, c)
  {
    badChar := seq(NUM_CHARS, _ => -1);
    var i := 0;
    while i < |pattern|
      invariant 0 <= i <= |pattern|
      invariant |badChar| == NUM_CHARS
      invariant forall c :: 0 <= c < NUM_CHARS ==> badChar[c] == LastIndex(pattern[..i], c)
    {
      assert pattern[..i + 1][..i] == pattern[..i];
      badChar := badChar[pattern[i] := i];
      i := i + 1;
    }
    assert pattern[..i] == pattern;
  }

  /** The pattern occurs in the text at position `s`. */
  predicate MatchAt(text: seq<Byte>, pattern: seq<Byte>, s: int)
  {
    0 <= s && s + |pattern| <= |text| && text[s..s + |pattern|] == pattern
  }

  /** The number of occurrences that start before `hi`. */
  function Occurrences(text: seq<Byte>, pattern: seq<Byte>, hi: nat): (n: nat)
    ensures n <= hi
  {
    if hi == 0 then 0
    else Occurrences(text, pattern, hi - 1) + (if MatchAt(text, pattern, hi - 1) then 1 else 0)
  }

  /** `Occurrences` counts the set of matching positions below `hi`. */
  lemma {:induction false} OccurrencesIsCardinality(text: seq<Byte>, pattern: seq<Byte>, hi: nat)
    ensures Occurrences(text, pattern, hi) == |set s | 0 <= s < hi && MatchAt(text, pattern, s)|
  {
    if hi > 0 {
      OccurrencesIsCardinality(text, pattern, hi - 1);
      var below := set s | 0 <= s < hi - 1 && MatchAt(text, pattern, s);
      var upTo := set s | 0 <= s < hi && MatchAt(text, pattern, s);
      if MatchAt(text, pattern, hi - 1) {
        assert upTo == below + {hi - 1};
      } else {
        assert upTo == below;
      }
    }
  }

  /** A stretch without occurrences adds nothing to the count. */
  lemma {:induction false} NoMatchesBetween(text: seq<Byte>, pattern: seq<Byte>, lo: nat, hi: nat)
    requires lo <= hi
    requires forall s :: lo <= s < hi ==> !MatchAt(text, pattern, s)
    ensures Occurrences(text, pattern, hi) == Occurrences(text, pattern, lo)
  {
    if lo < hi {
      NoMatchesBetween(text, pattern, lo, hi - 1);
    }
  }

  /** After an occurrence at `s`, aligning the byte just past the window with
      its last occurrence in the pattern skips no occurrence. */
  lemma AfterMatchSkips(text: seq<Byte>, pattern: seq<Byte>, s: nat)
    requires s + |pattern| < |text|
    ensures forall s2 :: s < s2 < s + |pattern| - LastIndex(pattern, text[s + |pattern|]) ==>
              !MatchAt(text, pattern, s2)
  {
  }

  /** After a mismatch at pattern index `j`, aligning the mismatched text
      byte with its last occurrence in the pattern (or moving by one) skips
      no occurrence, and `s` itself is none. */
  lemma MismatchSkips(text: seq<Byte>, pattern: seq<Byte>, s: nat, j: nat)
    requires j < |pattern| && s + |pattern| <= |text|
    requires pattern[j] != text[s + j]
    ensures forall s2 :: s <= s2 < s + Max(1, j - LastIndex(pattern, text[s + j])) ==>
              !MatchAt(text, pattern, s2)
  {
  }

  function Max(a: int, b: int): int
  {
    if a < b then b else a
  }

  /** The inner loop of `search`: compares the window at `s` from its last
      byte backwards and stops at the first mismatch, or at -1 when the
      whole window matches. The source's guard `j as usize <= pat_len`
      fails only once `j` has wrapped to -1, so it is `j >= 0`. */
  method ScanBack(text: seq<Byte>, pattern: seq<Byte>, s: nat) returns (j: int)
    requires |pattern| >= 1 && s + |pattern| <= |text|
    ensures -1 <= j < |pattern|
    ensures j < 0 <==> MatchAt(text, pattern, s)
    ensures j >= 0 ==> pattern[j] != text[s + j]
  {
    var m := |pattern|;
    j := m - 1;
    while j >= 0 && pattern[j] == text[s + j]
      invariant -1 <= j < m
      invariant forall k :: j < k < m ==> pattern[k] == text[s + k]
      decreases j + 1
    {
      j := j - 1;
    }
    if j < 0 {
      assert text[s..s + m] == pattern;
    } else {
      assert text[s..s + m][j] != pattern[j];
    }
  }

  /** Where the window moves after the comparison at `s` stopped at `j`:
      after a match, so that the byte just past the window meets its last
      occurrence in the pattern (by one at the end of the text); after a
      mismatch, so that the mismatched byte meets its last occurrence in
      the pattern, and by at least one. `pat_len.wrapping_sub(-1 as usize)`
      is `pat_len + 1`, so a match moves by `m - bc` for every table entry
      `bc`. */
  function NextShift(text: seq<Byte>, pattern: seq<Byte>, s: nat, j: int): (s2: nat)
    requires |pattern| >= 1 && s + |pattern| <= |text| && -1 <= j < |pattern|
    ensures s < s2 <= |text|
  {
    var m := |pattern|;
    if j < 0 then
      if s + m < |text| then s + m - LastIndex(pattern, text[s + m]) else s + 1
    else
      s + Max(1, j - LastIndex(pattern, text[s + j]))
  }

  /** Moving from `s` to `NextShift` skips no occurrence: the count grows by
      one exactly when the window at `s` matched. */
  lemma NextShiftSkipsNothing(text: seq<Byte>, pattern: seq<Byte>, s: nat, j: int)
    requires |pattern| >= 1 && s + |pattern| <= |text| && -1 <= j < |pattern|
    requires j < 0 <==> MatchAt(text, pattern, s)
    requires j >= 0 ==> pattern[j] != text[s + j]
    ensures Occurrences(text, pattern, NextShift(text, pattern, s, j)) ==
              Occurrences(text, pattern, s) + (if j < 0 then 1 else 0)
  {
    var m := |pattern|;
    var s2 := NextShift(text, pattern, s, j);
    if j < 0 {
      if s + m < |text| {
        AfterMatchSkips(text, pattern, s);
      }
      NoMatchesBetween(text, pattern, s + 1, s2);
    } else {
      MismatchSkips(text, pattern, s, j);
      NoMatchesBetween(text, pattern, s, s2);
    }
  }

  /** `BoyerMooreSearcher::search`. A pattern longer than the text is an
      error; otherwise the count is the number of positions at which the
      pattern occurs. Every shift is at least one, so the search ends. The
      source subtracts one from the pattern length, so the pattern must not
      be empty, and it indexes the 255-entry table with text and pattern
      bytes. */
  method Search(text: seq<Byte>, pattern: seq<Byte>) returns (r: Result<nat, SearchError>)
    requires |pattern| >= 1
    requires InTable(text) && InTable(pattern)
    ensures r.Err? <==> |text| < |pattern|
    ensures r.Ok? ==> r.value == Occurrences(text, pattern, |text| - |pattern| + 1)
  {
    var n, m := |text|, |pattern|;
    if n < m {
      return Err(PatternLongerThanText);
    }
    var badChar := PreprocessPattern(pattern);
    var shift := 0;
    var count := 0;
    while shift <= n - m
      invariant 0 <= shift <= n
      invariant count == Occurrences(text, pattern, shift)
      decreases n - shift
    {
      var j := ScanBack(text, pattern, shift);
      var next := NextShift(text, pattern, shift, j);
      NextShiftSkipsNothing(text, pattern, shift, j);
      if j < 0 {
        var step := if shift + m < n then m - badChar[text[shift + m]] else 1;
        assert shift + step == next;
        shift := shift + step;
        count := count + 1;
      } else {
        var step := Max(1, j - badChar[text[shift + j]]);
        assert shift + step == next;
        shift := shift + step;
      }
    }
    NoMatchesBetween(text, pattern, n - m + 1, shift);
    return Ok(count);
  }

  /** The source's test: a pattern longer than the text is an error. The
      text has the 45 bytes and the pattern the 51 bytes of the source
      test's strings. */
  method TestPatternLongerThanText() returns (r: Result<nat, SearchError>)
    ensures r.Err?
  {
    var text: seq<Byte> := seq(45, i => 65);
    var pattern: seq<Byte> := seq(51, i => 65);
    assert |text| < |pattern|;
    r := Search(text, pattern);
  }
}
