/** The frequency analyser of the substitution breaker: it counts the
    characters of a text, maps the distinct characters to the letters of an
    English frequency table, and joins characters into the result string.

    A `BTreeMap` is modelled as a sequence of entries in strictly ascending
    key order. The frequencies are `f64` quotients `count / length` in the
    source; the model keeps the counts, which carry the same information for
    a fixed text. */
module Frequency {

  /** `LETTERS_FREQ`: the English letters by descending frequency, in
      ten-thousandths of a per cent (11.160 per cent is 111600). */
  const LettersFreq: seq<(char, nat)> := [
    ('E', 111600), ('A', 84966), ('R', 75809), ('I', 75448), ('O', 71635),
    ('T', 69509), ('N', 66544), ('S', 57351), ('L', 54893), ('C', 45388),
    ('U', 36308), ('D', 33844), ('P', 31671), ('M', 30129), ('H', 30034),
    ('G', 24705), ('B', 20720), ('F', 18121), ('Y', 17779), ('W', 12899),
    ('K', 11016), ('V', 10074), ('X', 2902), ('Z', 2722), ('J', 1965),
    ('Q', 1962)
  ]

  /** The analyser holds its copy of the English table. */
  datatype Analizer = Analizer(engFreqs: seq<(char, nat)>)

  /** `Analizer::new`. */
  function NewAnalizer(): (a: Analizer)
    ensures |a.engFreqs| == 26
  {
    Analizer(LettersFreq)
  }

  /** `get_english_freqs`. */
  function EnglishFreqs(a: Analizer): seq<(char, nat)>
  {
    a.engFreqs
  }

  /** A new analyser hands the table back unchanged. */
  lemma EnglishFreqsUnchanged()
    ensures EnglishFreqs(NewAnalizer()) == LettersFreq
  {
  }

  /** The table lists capital letters by strictly decreasing frequency. */
  lemma EnglishTableDescending()
    ensures forall i :: 0 <= i < |LettersFreq| ==> 'A' <= LettersFreq[i].0 <= 'Z'
    ensures forall i :: 0 < i < |LettersFreq| ==> LettersFreq[i].1 < LettersFreq[i - 1].1
  {
  }

  // ---------------------------------------------------------------------------
  // Ordered maps
  // ---------------------------------------------------------------------------

  type Entries = seq<(char, nat)>

  /** The keys strictly ascend: the iteration order of a `BTreeMap`. */
  predicate Ascending(m: Entries)
  {
    forall i, j :: 0 <= i < j < |m| ==> m[i].0 < m[j].0
  }

  /** Every key of `m` is above `k`. */
  predicate AllAbove(k: char, m: Entries)
  {
    forall i :: 0 <= i < |m| ==> k < m[i].0
  }

  predicate HasKey(m: Entries, c: char)
  {
    exists i :: 0 <= i < |m| && m[i].0 == c
  }

  /** The value stored under `c`, and 0 when there is none. */
  function Lookup(m: Entries, c: char): nat
  {
    if m == [] then 0
    else if m[0].0 == c then m[0].1
    else Lookup(m[1..], c)
  }

  /** A map in key order is its first entry above the rest, in key order. */
  lemma AscendingCons(m: Entries)
    requires m != []
    ensures Ascending(m) <==> AllAbove(m[0].0, m[1..]) && Ascending(m[1..])
  {
    if AllAbove(m[0].0, m[1..]) && Ascending(m[1..]) {
      forall i, j | 0 <= i < j < |m| ensures m[i].0 < m[j].0 {
        assert m[j] == m[1..][j - 1];
        if i > 0 { assert m[i] == m[1..][i - 1]; }
      }
    }
  }

  lemma HasKeyCons(m: Entries, c: char)
    requires m != []
    ensures HasKey(m, c) <==> m[0].0 == c || HasKey(m[1..], c)
  {
    if HasKey(m, c) && m[0].0 != c {
      var i :| 0 <= i < |m| && m[i].0 == c;
      assert m[1..][i - 1].0 == c;
    }
    if HasKey(m[1..], c) {
      var i :| 0 <= i < |m[1..]| && m[1..][i].0 == c;
      assert m[i + 1].0 == c;
    }
  }

  /** A key below the first key of an ordered map has no value. */
  lemma {:induction false} LookupAbsent(m: Entries, c: char)
    requires Ascending(m) && m != [] && c < m[0].0
    ensures Lookup(m, c) == 0
  {
    if |m| > 1 {
      AscendingCons(m);
      LookupAbsent(m[1..], c);
    }
  }

  /** `*freq.entry(c).or_insert(0) += 1`. */
  function Bump(m: Entries, c: char): Entries
  {
    if m == [] then [(c, 1)]
    else if m[0].0 == c then [(c, m[0].1 + 1)] + m[1..]
    else if c < m[0].0 then [(c, 1)] + m
    else [m[0]] + Bump(m[1..], c)
  }

  /** Bumping adds `c` to the keys. */
  lemma {:induction false} BumpKeys(m: Entries, c: char)
    ensures forall d :: HasKey(Bump(m, c), d) <==> HasKey(m, d) || d == c
  {
    var r := Bump(m, c);
    forall d ensures HasKey(r, d) <==> r[0].0 == d || HasKey(r[1..], d) {
      HasKeyCons(r, d);
    }
    if m != [] {
      forall d ensures HasKey(m, d) <==> m[0].0 == d || HasKey(m[1..], d) {
        HasKeyCons(m, d);
      }
      if m[0].0 == c {
        assert r[1..] == m[1..];
      } else if c < m[0].0 {
        assert r[1..] == m;
      } else {
        BumpKeys(m[1..], c);
        assert r[1..] == Bump(m[1..], c);
      }
    }
  }

  /** A bound below every key and below `c` stays below every key. */
  lemma {:induction false} BumpAbove(m: Entries, c: char, x: char)
    requires AllAbove(x, m) && x < c
    ensures AllAbove(x, Bump(m, c))
  {
    var r := Bump(m, c);
    if m != [] && m[0].0 != c && !(c < m[0].0) {
      BumpAbove(m[1..], c, x);
      forall i | 0 <= i < |r| ensures x < r[i].0 {
        if i > 0 { assert r[i] == Bump(m[1..], c)[i - 1]; }
      }
    }
  }

  /** Bumping keeps the keys ordered. */
  lemma {:induction false} BumpAscending(m: Entries, c: char)
    requires Ascending(m)
    ensures Ascending(Bump(m, c))
  {
    var r := Bump(m, c);
    if m != [] {
      AscendingCons(m);
      if m[0].0 == c {
        assert r[1..] == m[1..];
      } else if c < m[0].0 {
        assert r[1..] == m;
        forall i | 0 <= i < |m| ensures c < m[i].0 {
          if i > 0 { assert m[0].0 < m[i].0; }
        }
      } else {
        BumpAscending(m[1..], c);
        BumpAbove(m[1..], c, m[0].0);
        assert r[1..] == Bump(m[1..], c);
      }
      AscendingCons(r);
    }
  }

  /** Bumping adds one to the value of `c` and to no other value. */
  lemma {:induction false} BumpLookup(m: Entries, c: char)
    requires Ascending(m)
    ensures forall d :: Lookup(Bump(m, c), d) == Lookup(m, d) + (if d == c then 1 else 0)
  {
    if m != [] {
      if c < m[0].0 {
        LookupAbsent(m, c);
      } else if m[0].0 != c {
        AscendingCons(m);
        BumpLookup(m[1..], c);
      }
    }
  }

  // ---------------------------------------------------------------------------
  // calculate_frequency
  // ---------------------------------------------------------------------------

  /** `calculate_frequency` before the division by the text length: the
      characters of `text`, in order, each bump their entry. */
  function CalculateFrequency(text: seq<char>): Entries
  {
    if text == [] then []
    else Bump(CalculateFrequency(text[..|text| - 1]), text[|text| - 1])
  }

  /** The keys are exactly the distinct characters of the text, in
      ascending order, and each value is the character's number of
      occurrences. */
  lemma {:induction false} FrequencyCounts(text: seq<char>)
    ensures Ascending(CalculateFrequency(text))
    ensures forall d :: HasKey(CalculateFrequency(text), d) <==> d in text
    ensures forall d :: Lookup(CalculateFrequency(text), d) == multiset(text)[d]
  {
    if text != [] {
      var front, c := text[..|text| - 1], text[|text| - 1];
      assert text == front + [c];
      FrequencyCounts(front);
      BumpKeys(CalculateFrequency(front), c);
      BumpAscending(CalculateFrequency(front), c);
      BumpLookup(CalculateFrequency(front), c);
      assert multiset(text) == multiset(front) + multiset{c};
    }
  }

  // ---------------------------------------------------------------------------
  // associate_frequency
  // ---------------------------------------------------------------------------

  /** `BTreeMap::insert`: a new key goes in key order, an existing key gets
      the new value. */
  function Insert(m: Entries, k: char, v: nat): Entries
  {
    if m == [] then [(k, v)]
    else if m[0].0 == k then [(k, v)] + m[1..]
    else if k < m[0].0 then [(k, v)] + m
    else [m[0]] + Insert(m[1..], k, v)
  }

  /** Inserting adds `k` to the keys. */
  lemma {:induction false} InsertKeys(m: Entries, k: char, v: nat)
    ensures forall d :: HasKey(Insert(m, k, v), d) <==> HasKey(m, d) || d == k
  {
    var r := Insert(m, k, v);
    forall d ensures HasKey(r, d) <==> r[0].0 == d || HasKey(r[1..], d) {
      HasKeyCons(r, d);
    }
    if m != [] {
      forall d ensures HasKey(m, d) <==> m[0].0 == d || HasKey(m[1..], d) {
        HasKeyCons(m, d);
      }
      if m[0].0 == k {
        assert r[1..] == m[1..];
      } else if k < m[0].0 {
        assert r[1..] == m;
      } else {
        InsertKeys(m[1..], k, v);
        assert r[1..] == Insert(m[1..], k, v);
      }
    }
  }

  /** A bound below every key and below `k` stays below every key. */
  lemma {:induction false} InsertAbove(m: Entries, k: char, v: nat, x: char)
    requires AllAbove(x, m) && x < k
    ensures AllAbove(x, Insert(m, k, v))
  {
    var r := Insert(m, k, v);
    if m != [] && m[0].0 != k && !(k < m[0].0) {
      InsertAbove(m[1..], k, v, x);
      forall i | 0 <= i < |r| ensures x < r[i].0 {
        if i > 0 { assert r[i] == Insert(m[1..], k, v)[i - 1]; }
      }
    }
  }

  /** Inserting keeps the keys ordered. */
  lemma {:induction false} InsertAscending(m: Entries, k: char, v: nat)
    requires Ascending(m)
    ensures Ascending(Insert(m, k, v))
  {
    var r := Insert(m, k, v);
    if m != [] {
      AscendingCons(m);
      if m[0].0 == k {
        assert r[1..] == m[1..];
      } else if k < m[0].0 {
        assert r[1..] == m;
        forall i | 0 <= i < |m| ensures k < m[i].0 {
          if i > 0 { assert m[0].0 < m[i].0; }
        }
      } else {
        InsertAscending(m[1..], k, v);
        InsertAbove(m[1..], k, v, m[0].0);
        assert r[1..] == Insert(m[1..], k, v);
      }
      AscendingCons(r);
    }
  }

  /** Inserting a key that is not in the map adds exactly the new entry. */
  lemma {:induction false} InsertEntries(m: Entries, k: char, v: nat)
    requires !HasKey(m, k)
    ensures multiset(Insert(m, k, v)) == multiset(m) + multiset{(k, v)}
  {
    if m != [] {
      HasKeyCons(m, k);
      if !(k < m[0].0) {
        InsertEntries(m[1..], k, v);
        assert Insert(m, k, v) == [m[0]] + Insert(m[1..], k, v);
        assert m == [m[0]] + m[1..];
      }
    }
  }

  /** Collecting entries into a `BTreeMap`, one `insert` after the other. */
  function Collect(ps: Entries): Entries
  {
    if ps == [] then []
    else Insert(Collect(ps[..|ps| - 1]), ps[|ps| - 1].0, ps[|ps| - 1].1)
  }

  predicate DistinctKeys(ps: Entries)
  {
    forall i, j :: 0 <= i < j < |ps| ==> ps[i].0 != ps[j].0
  }

  /** Collecting entries with distinct keys gives them back in key order. */
  lemma {:induction false} CollectSorts(ps: Entries)
    requires DistinctKeys(ps)
    ensures Ascending(Collect(ps)) && multiset(Collect(ps)) == multiset(ps)
    ensures forall d :: HasKey(Collect(ps), d) <==> HasKey(ps, d)
  {
    if ps != [] {
      var front, last := ps[..|ps| - 1], ps[|ps| - 1];
      assert ps == front + [last];
      CollectSorts(front);
      forall d ensures HasKey(ps, d) <==> HasKey(front, d) || d == last.0 {
        if HasKey(ps, d) && d != last.0 {
          var i :| 0 <= i < |ps| && ps[i].0 == d;
          assert front[i].0 == d;
        }
        if HasKey(front, d) {
          var i :| 0 <= i < |front| && front[i].0 == d;
          assert ps[i].0 == d;
        }
        if d == last.0 {
          assert ps[|ps| - 1].0 == d;
        }
      }
      forall i | 0 <= i < |front| ensures front[i].0 != last.0 {
        assert ps[i] == front[i];
      }
      InsertKeys(Collect(front), last.0, last.1);
      InsertAscending(Collect(front), last.0, last.1);
      InsertEntries(Collect(front), last.0, last.1);
    }
  }

  /** Two ordered maps with the same entries start with the same entry. */
  lemma AscendingSameHead(a: Entries, b: Entries)
    requires Ascending(a) && Ascending(b) && multiset(a) == multiset(b) && a != []
    ensures b != [] && a[0] == b[0]
  {
    assert a[0] in multiset(b);
    assert b != [];
    assert b[0] in multiset(a);
    var i :| 0 <= i < |a| && a[i] == b[0];
    var j :| 0 <= j < |b| && b[j] == a[0];
  }

  /** Dropping equal first entries keeps the entries equal. */
  lemma DropSameHead(a: Entries, b: Entries)
    requires a != [] && b != [] && a[0] == b[0] && multiset(a) == multiset(b)
    ensures multiset(a[1..]) == multiset(b[1..])
  {
    assert a == [a[0]] + a[1..] && b == [b[0]] + b[1..];
    assert multiset(a) == multiset{a[0]} + multiset(a[1..]);
    assert multiset(b) == multiset{a[0]} + multiset(b[1..]);
    assert multiset(a[1..]) == multiset(a) - multiset{a[0]};
    assert multiset(b[1..]) == multiset(b) - multiset{a[0]};
  }

  /** Two maps in key order with the same entries are equal. */
  lemma {:induction false} AscendingUnique(a: Entries, b: Entries)
    requires Ascending(a) && Ascending(b) && multiset(a) == multiset(b)
    ensures a == b
  {
    if a != [] {
      AscendingSameHead(a, b);
      DropSameHead(a, b);
      AscendingCons(a);
      AscendingCons(b);
      AscendingUnique(a[1..], b[1..]);
      assert a == [a[0]] + a[1..] && b == [b[0]] + b[1..];
    }
  }

  /** The `sort_by` on the frequencies and the `reverse` are undone by the
      collection back into a `BTreeMap`: whatever order the sorted vector
      has, the map is the one it came from. */
  lemma CollectUndoesSort(freq: Entries, sorted: Entries)
    requires Ascending(freq) && multiset(sorted) == multiset(freq) && DistinctKeys(sorted)
    ensures Collect(sorted) == freq
  {
    CollectSorts(sorted);
    AscendingUnique(Collect(sorted), freq);
  }

  /** `associate_frequency`, given `sorted`, the frequency entries after the
      descending sort by value (any arrangement of them): the `i`-th
      character in key order is mapped to the `i`-th letter of the English
      table. Indexing the table panics beyond its 26 letters. */
  function AssociateFrequency(a: Analizer, freq: Entries, sorted: Entries): (r: seq<(char, char)>)
    requires Ascending(freq) && multiset(sorted) == multiset(freq) && DistinctKeys(sorted)
    requires |freq| <= |a.engFreqs|
    ensures |r| == |freq|
    ensures forall i :: 0 <= i < |r| ==> r[i].0 == freq[i].0 && r[i].1 == a.engFreqs[i].0
  {
    CollectUndoesSort(freq, sorted);
    var m := Collect(sorted);
    seq(|m|, i requires 0 <= i < |m| => (m[i].0, a.engFreqs[i].0))
  }

  /** The keys of an ordered map below its `i`-th key are its first `i`
      keys. */
  lemma {:induction false} KeysBelow(m: Entries, i: nat)
    requires Ascending(m) && i <= |m|
    ensures |set j | 0 <= j < i :: m[j].0| == i
  {
    if i > 0 {
      KeysBelow(m, i - 1);
      assert (set j | 0 <= j < i :: m[j].0) == (set j | 0 <= j < i - 1 :: m[j].0) + {m[i - 1].0};
      assert m[i - 1].0 !in (set j | 0 <= j < i - 1 :: m[j].0);
    }
  }

  /** The distinct characters of a text are as many as the entries of its
      frequency map. */
  lemma DistinctCount(text: seq<char>)
    ensures |set c | c in text| == |CalculateFrequency(text)|
  {
    var freq := CalculateFrequency(text);
    FrequencyCounts(text);
    KeysBelow(freq, |freq|);
    assert (set j | 0 <= j < |freq| :: freq[j].0) == (set c | c in text) by {
      forall c | c in text ensures c in (set j | 0 <= j < |freq| :: freq[j].0) {
        assert HasKey(freq, c);
      }
      forall j | 0 <= j < |freq| ensures freq[j].0 in text {
        assert HasKey(freq, freq[j].0);
      }
    }
  }

  /** In a text's frequency map, the characters of the text below the
      `i`-th key are exactly the first `i` keys. */
  lemma RankOfEntry(text: seq<char>, i: nat)
    requires i < |CalculateFrequency(text)|
    ensures |set d | d in text && d < CalculateFrequency(text)[i].0| == i
  {
    var freq := CalculateFrequency(text);
    FrequencyCounts(text);
    KeysBelow(freq, i);
    assert (set d | d in text && d < freq[i].0) == (set j | 0 <= j < i :: freq[j].0) by {
      forall d | d in text && d < freq[i].0 ensures d in (set j | 0 <= j < i :: freq[j].0) {
        assert HasKey(freq, d);
        var j :| 0 <= j < |freq| && freq[j].0 == d;
      }
      forall j | 0 <= j < i ensures freq[j].0 in text {
        assert HasKey(freq, freq[j].0);
      }
    }
  }

  /** The rank rule: after counting a text with at most 26 distinct
      characters, each distinct character `c` of the text is mapped to the
      letter of the English table at the position given by the number of
      distinct characters of the text smaller than `c`. */
  lemma AssociateByRank(text: seq<char>, sorted: Entries)
    requires multiset(sorted) == multiset(CalculateFrequency(text)) && DistinctKeys(sorted)
    requires |set c | c in text| <= 26
    ensures Ascending(CalculateFrequency(text)) && |CalculateFrequency(text)| <= 26
    ensures var r := AssociateFrequency(NewAnalizer(), CalculateFrequency(text), sorted);
      && |r| == |set c | c in text|
      && forall i :: 0 <= i < |r| ==>
           r[i].0 in text && |set d | d in text && d < r[i].0| == i && r[i].1 == LettersFreq[i].0
  {
    var freq := CalculateFrequency(text);
    FrequencyCounts(text);
    DistinctCount(text);
    var r := AssociateFrequency(NewAnalizer(), freq, sorted);
    forall i | 0 <= i < |r| ensures r[i].0 in text && |set d | d in text && d < r[i].0| == i {
      assert HasKey(freq, freq[i].0);
      RankOfEntry(text, i);
    }
  }

  // ---------------------------------------------------------------------------
  // assemble_result
  // ---------------------------------------------------------------------------

  /** `assemble_result`: pushes the characters one after the other, so the
      string is the characters in their order. */
  method AssembleResult(parts: seq<char>) returns (result: string)
    ensures |result| == |parts|
    ensures forall i :: 0 <= i < |parts| ==> result[i] == parts[i]
  {
    result := [];
    var i := 0;
    while i < |parts|
      invariant 0 <= i <= |parts| && result == parts[..i]
    {
      result := result + [parts[i]];
      i := i + 1;
    }
  }
}
