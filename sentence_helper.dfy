/** Splitting a Chinese sentence into dictionary words and finding the word
  * at an index (DictionarySentenceHelper.java). Candidates come from the
  * Chinese index bucket of the character at the cursor, are ordered longest
  * first, and the first that fits the sentence is taken. An entry is
  * identified, as the source compares entries by reference, by its position
  * in the entry table. */
module SentenceHelper {
  import opened Wrappers
  import opened Text
  import opened Entries
  import opened SearchResults
  import opened Searching
  import ChineseSearching

  // ---------------------------------------------------------------------
  // indexesOf

  /** String.indexOf of a one-character string from position `from`. */
  function IndexOf(s: string, ch: char, from: nat): (r: Option<nat>)
    ensures r.Some? ==> from <= r.value < |s| && s[r.value] == ch
                        && forall k :: from <= k < r.value ==> s[k] != ch
    ensures r.None? ==> forall k :: from <= k < |s| ==> s[k] != ch
    decreases |s| - from
  {
    if from >= |s| then None
    else if s[from] == ch then Some(from)
    else IndexOf(s, ch, from + 1)
  }

  /** The positions of `ch` in `s` from `from` on, in ascending order. */
  function OccurrencesFrom(s: string, ch: char, from: nat): (r: seq<nat>)
    ensures forall k :: 0 <= k < |r| ==> from <= r[k] < |s| && s[r[k]] == ch
    decreases |s| - from
  {
    match IndexOf(s, ch, from)
    case None => []
    case Some(k) => [k] + OccurrencesFrom(s, ch, k + 1)
  }

  function Occurrences(s: string, ch: char): (r: seq<nat>)
    ensures forall k :: 0 <= k < |r| ==> r[k] < |s| && s[r[k]] == ch
  {
    OccurrencesFrom(s, ch, 0)
  }

  lemma {:induction false} OccurrencesFromExact(s: string, ch: char, from: nat)
    ensures forall k :: k in OccurrencesFrom(s, ch, from) <==> from <= k < |s| && s[k] == ch
    ensures forall a, b :: 0 <= a < b < |OccurrencesFrom(s, ch, from)| ==>
              OccurrencesFrom(s, ch, from)[a] < OccurrencesFrom(s, ch, from)[b]
    decreases |s| - from
  {
    var i := IndexOf(s, ch, from);
    if i.Some? {
      OccurrencesFromExact(s, ch, i.value + 1);
    }
  }

  /** indexesOf gives every position of the character, each once, in
    * ascending order. */
  lemma OccurrencesExact(s: string, ch: char)
    ensures forall k :: k in Occurrences(s, ch) <==> 0 <= k < |s| && s[k] == ch
    ensures forall a, b :: 0 <= a < b < |Occurrences(s, ch)| ==> Occurrences(s, ch)[a] < Occurrences(s, ch)[b]
  {
    OccurrencesFromExact(s, ch, 0);
  }

  /** indexesOf, for the one-character strings it is called with. */
  method IndexesOf(str: string, ch: char) returns (r: seq<nat>)
    ensures r == Occurrences(str, ch)
  {
    r := [];
    var index := 0;
    while true
      invariant index <= |str|
      invariant r + OccurrencesFrom(str, ch, index) == Occurrences(str, ch)
      decreases |str| - index
    {
      var i := IndexOf(str, ch, index);
      if i.None? {
        assert r + [] == r;
        return;
      }
      index := i.value + 1;
      r := r + [i.value];
    }
  }

  // ---------------------------------------------------------------------
  // PossibleMatch

  /** A spelling of an entry (by position) that might sit in the sentence
    * with its start at `indexFound`. */
  datatype Candidate = Candidate(str: string, pos: nat, indexFound: int)

  /** charsEqual of the sentence helper: equal, or equal once both are
    * lower-cased. */
  predicate SameLetter(c1: char, c2: char) {
    c1 == c2 || Lower(c1) == Lower(c2)
  }

  /** Unlike the searches' test, this one is symmetric. */
  lemma SameLetterSymmetric(c1: char, c2: char)
    ensures SameLetter(c1, c2) <==> SameLetter(c2, c1)
    ensures 'A' <= c1 <= 'Z' ==> SameLetter(c1, Lower(c1)) && SameLetter(Lower(c1), c1)
  {
  }

  /** PossibleMatch.matches: the spelling sits in the sentence at
    * `indexFound`, letter by letter up to case. */
  predicate Matches(c: Candidate, sentence: string) {
    && c.indexFound >= 0
    && forall k :: 0 <= k < |c.str| ==> c.indexFound + k < |sentence| && SameLetter(sentence[c.indexFound + k], c.str[k])
  }

  /** PossibleMatch.matches. */
  method CandidateMatches(pm: Candidate, search: string) returns (b: bool)
    ensures b == Matches(pm, search)
  {
    if pm.indexFound < 0 {
      return false;
    }
    var i := pm.indexFound;
    while i < pm.indexFound + |pm.str|
      invariant pm.indexFound <= i <= pm.indexFound + |pm.str|
      invariant forall k :: 0 <= k < i - pm.indexFound ==>
                  pm.indexFound + k < |search| && SameLetter(search[pm.indexFound + k], pm.str[k])
    {
      if i - pm.indexFound >= |pm.str| || i >= |search| || !SameLetter(search[i], pm.str[i - pm.indexFound]) {
        ghost var k := i - pm.indexFound;
        assert !(pm.indexFound + k < |search| && SameLetter(search[pm.indexFound + k], pm.str[k]));
        return false;
      }
      i := i + 1;
    }
    assert i - pm.indexFound == |pm.str|;
    return true;
  }

  // ---------------------------------------------------------------------
  // Building the candidates

  /** The candidates of one spelling: one per occurrence `k` of the
    * character, found at `at - k`; with `ahead` (the sentence split's "no
    * lookbehind" test) only the occurrence at 0 is kept. */
  function Placed(s: string, p: nat, at: int, occ: seq<nat>, ahead: bool): (r: seq<Candidate>)
    requires forall k :: 0 <= k < |occ| ==> occ[k] < |s|
    ensures forall j :: 0 <= j < |r| ==>
              r[j].str == s && r[j].pos == p && at - |s| < r[j].indexFound <= at && (ahead ==> r[j].indexFound == at)
  {
    if occ == [] then []
    else
      var init := Placed(s, p, at, occ[..|occ| - 1], ahead);
      var k := occ[|occ| - 1];
      if !ahead || at - k >= at then init + [Candidate(s, p, at - k)] else init
  }

  /** A candidate is well formed: a non-empty spelling of the entry at its
    * position, placed so that it covers `at`. */
  predicate WellPlaced(idx: Index<int>, c: Candidate, at: int, ahead: bool) {
    && c.pos < |idx.entries|
    && (c.str == idx.entries[c.pos].simplified || c.str == idx.entries[c.pos].traditional)
    && at - |c.str| < c.indexFound <= at
    && (ahead ==> c.indexFound == at)
  }

  /** The candidates of the entries at `positions`, in bucket order, the
    * simplified spelling's before the traditional one's. */
  function CandidatesOf(idx: Index<int>, positions: seq<nat>, ch: char, at: int, ahead: bool): (r: seq<Candidate>)
    requires forall k :: 0 <= k < |positions| ==> positions[k] < |idx.entries|
    ensures forall j :: 0 <= j < |r| ==> WellPlaced(idx, r[j], at, ahead)
  {
    if positions == [] then []
    else
      var p := positions[|positions| - 1];
      var e := idx.entries[p];
      CandidatesOf(idx, positions[..|positions| - 1], ch, at, ahead)
        + Placed(e.simplified, p, at, Occurrences(e.simplified, ch), ahead)
        + Placed(e.traditional, p, at, Occurrences(e.traditional, ch), ahead)
  }

  /** The inner loop over the occurrences of one spelling. */
  method AddPlaced(acc: seq<Candidate>, s: string, p: nat, at: int, ch: char, ahead: bool) returns (r: seq<Candidate>)
    ensures r == acc + Placed(s, p, at, Occurrences(s, ch), ahead)
  {
    var occ := IndexesOf(s, ch);
    r := acc;
    var j := 0;
    while j < |occ|
      invariant j <= |occ|
      invariant r == acc + Placed(s, p, at, occ[..j], ahead)
    {
      assert occ[..j + 1][..j] == occ[..j];
      var index := occ[j];
      if !ahead || at - index >= at {
        r := r + [Candidate(s, p, at - index)];
      }
      j := j + 1;
    }
    assert occ[..j] == occ;
  }

  /** The loop that builds possibleMatches over the bucket. */
  method CollectCandidates(idx: Index<int>, positions: seq<nat>, ch: char, at: int, ahead: bool)
    returns (r: seq<Candidate>)
    requires forall k :: 0 <= k < |positions| ==> positions[k] < |idx.entries|
    ensures r == CandidatesOf(idx, positions, ch, at, ahead)
  {
    r := [];
    var i := 0;
    while i < |positions|
      invariant i <= |positions|
      invariant r == CandidatesOf(idx, positions[..i], ch, at, ahead)
    {
      assert positions[..i + 1][..i] == positions[..i];
      var entry := idx.entries[positions[i]];
      r := AddPlaced(r, entry.simplified, positions[i], at, ch, ahead);
      r := AddPlaced(r, entry.traditional, positions[i], at, ch, ahead);
      i := i + 1;
    }
    assert positions[..i] == positions;
  }

  // ---------------------------------------------------------------------
  // Longest first: Collections.sort with a by-length comparator (stable)

  /** `c` placed after every element at least as long as it. */
  function Insert(sorted: seq<Candidate>, c: Candidate): (r: seq<Candidate>)
    ensures |r| == |sorted| + 1
  {
    if sorted == [] then [c]
    else if |sorted[0].str| < |c.str| then [c] + sorted
    else [sorted[0]] + Insert(sorted[1..], c)
  }

  /** The candidates ordered longest first, equal lengths in their original
    * order. */
  function ByLength(cs: seq<Candidate>): (r: seq<Candidate>)
    ensures |r| == |cs|
  {
    if cs == [] then []
    else Insert(ByLength(cs[..|cs| - 1]), cs[|cs| - 1])
  }

  predicate LongestFirst(cs: seq<Candidate>) {
    forall a, b :: 0 <= a < b < |cs| ==> |cs[a].str| >= |cs[b].str|
  }

  lemma {:induction false} InsertPermutes(sorted: seq<Candidate>, c: Candidate)
    ensures multiset(Insert(sorted, c)) == multiset(sorted) + multiset{c}
    decreases |sorted|
  {
    if sorted != [] && |sorted[0].str| >= |c.str| {
      InsertPermutes(sorted[1..], c);
      assert sorted == [sorted[0]] + sorted[1..];
    }
  }

  lemma {:induction false} InsertLongestFirst(sorted: seq<Candidate>, c: Candidate)
    requires LongestFirst(sorted)
    ensures LongestFirst(Insert(sorted, c))
    decreases |sorted|
  {
    if sorted != [] && |sorted[0].str| >= |c.str| {
      InsertLongestFirst(sorted[1..], c);
      InsertPermutes(sorted[1..], c);
      var rest := Insert(sorted[1..], c);
      forall j | 0 <= j < |rest|
        ensures |sorted[0].str| >= |rest[j].str|
      {
        assert rest[j] in multiset(rest);
        if rest[j] != c {
          assert rest[j] in multiset(sorted[1..]);
        }
      }
    }
  }

  /** The sort puts longer spellings first and keeps every candidate. */
  lemma {:induction false} ByLengthLongestFirst(cs: seq<Candidate>)
    ensures LongestFirst(ByLength(cs))
    ensures multiset(ByLength(cs)) == multiset(cs)
  {
    if cs != [] {
      var init := cs[..|cs| - 1];
      ByLengthLongestFirst(init);
      InsertLongestFirst(ByLength(init), cs[|cs| - 1]);
      InsertPermutes(ByLength(init), cs[|cs| - 1]);
      assert cs == init + [cs[|cs| - 1]];
    }
  }

  // ---------------------------------------------------------------------
  // The first candidate that matches

  function FirstMatchFrom(cs: seq<Candidate>, sentence: string, j: nat): (r: Option<Candidate>)
    requires j <= |cs|
    decreases |cs| - j
  {
    if j == |cs| then None
    else if Matches(cs[j], sentence) then Some(cs[j])
    else FirstMatchFrom(cs, sentence, j + 1)
  }

  function FirstMatch(cs: seq<Candidate>, sentence: string): (r: Option<Candidate>)
  {
    FirstMatchFrom(cs, sentence, 0)
  }

  lemma {:induction false} FirstMatchFromFound(cs: seq<Candidate>, sentence: string, j: nat)
    requires j <= |cs|
    ensures FirstMatchFrom(cs, sentence, j).Some? ==>
              FirstMatchFrom(cs, sentence, j).value in cs[j..] && Matches(FirstMatchFrom(cs, sentence, j).value, sentence)
    decreases |cs| - j
  {
    if j < |cs| && !Matches(cs[j], sentence) {
      FirstMatchFromFound(cs, sentence, j + 1);
    }
  }

  /** The candidate taken is one of the list and fits the sentence. */
  lemma FirstMatchFound(cs: seq<Candidate>, sentence: string)
    ensures FirstMatch(cs, sentence).Some? ==>
              FirstMatch(cs, sentence).value in cs && Matches(FirstMatch(cs, sentence).value, sentence)
  {
    FirstMatchFromFound(cs, sentence, 0);
  }

  /** The loop over the sorted candidates that stops at the first match. */
  method FindFirstMatch(cs: seq<Candidate>, sentence: string) returns (r: Option<Candidate>)
    ensures r == FirstMatch(cs, sentence)
  {
    var j := 0;
    while j < |cs|
      invariant j <= |cs|
      invariant FirstMatchFrom(cs, sentence, j) == FirstMatch(cs, sentence)
    {
      var b := CandidateMatches(cs[j], sentence);
      if b {
        return Some(cs[j]);
      }
      j := j + 1;
    }
    return None;
  }

  lemma {:induction false} FirstMatchFromLongest(cs: seq<Candidate>, sentence: string, j: nat)
    requires j <= |cs| && LongestFirst(cs)
    ensures FirstMatchFrom(cs, sentence, j).None? <==> forall k :: j <= k < |cs| ==> !Matches(cs[k], sentence)
    ensures FirstMatchFrom(cs, sentence, j).Some? ==>
              forall k :: j <= k < |cs| && Matches(cs[k], sentence) ==> |cs[k].str| <= |FirstMatchFrom(cs, sentence, j).value.str|
    decreases |cs| - j
  {
    if j < |cs| {
      FirstMatchFromLongest(cs, sentence, j + 1);
    }
  }

  /** Greedy longest match: the candidate taken from the sorted list fits
    * the sentence, and no candidate that fits is longer; nothing is taken
    * only when no candidate fits. */
  lemma LongestMatch(cs: seq<Candidate>, sentence: string)
    ensures FirstMatch(ByLength(cs), sentence).None? <==> forall c :: c in cs ==> !Matches(c, sentence)
    ensures FirstMatch(ByLength(cs), sentence).Some? ==>
              var m := FirstMatch(ByLength(cs), sentence).value;
              m in cs && Matches(m, sentence) && forall c :: c in cs && Matches(c, sentence) ==> |c.str| <= |m.str|
  {
    var sorted := ByLength(cs);
    ByLengthLongestFirst(cs);
    FirstMatchFromLongest(sorted, sentence, 0);
    FirstMatchFound(sorted, sentence);
    assert forall c :: c in cs <==> c in sorted by {
      forall c ensures c in cs <==> c in sorted {
        assert c in cs <==> c in multiset(cs);
        assert c in sorted <==> c in multiset(sorted);
      }
    }
    forall c | c in cs && Matches(c, sentence)
      ensures FirstMatch(sorted, sentence).Some?
    {
      var k :| 0 <= k < |sorted| && sorted[k] == c;
    }
  }

  // ---------------------------------------------------------------------
  // splitChineseSentence

  /** The Chinese index bucket of a character, as positions; None where the
    * index has no such key (the source then dereferences null). */
  function BucketOf(idx: Index<int>, c: char): (r: Option<seq<nat>>)
    requires idx.Valid()
    ensures r.Some? ==> forall k :: 0 <= k < |r.value| ==> r.value[k] < |idx.entries|
    ensures r.Some? <==> idx.Bucket(ChineseSearching.Key(c as nat)).Some?
  {
    var key := ChineseSearching.Key(c as nat);
    if key in idx.buckets then Some(idx.buckets[key]) else None
  }

  /** The candidates at sentence position `i` of the split, longest first:
    * only spellings that start with the character there. */
  function SplitCandidates(idx: Index<int>, str: string, i: nat, positions: seq<nat>): (r: seq<Candidate>)
    requires i < |str|
    requires forall k :: 0 <= k < |positions| ==> positions[k] < |idx.entries|
    ensures forall j :: 0 <= j < |r| ==> r[j].pos < |idx.entries|
  {
    ByLengthPlaced(idx, CandidatesOf(idx, positions, str[i], i, true), i, true);
    ByLength(CandidatesOf(idx, positions, str[i], i, true))
  }

  /** Every candidate of a sorted list is one of the unsorted list. */
  lemma ByLengthPlaced(idx: Index<int>, cs: seq<Candidate>, at: int, ahead: bool)
    requires forall j :: 0 <= j < |cs| ==> WellPlaced(idx, cs[j], at, ahead)
    ensures forall j :: 0 <= j < |ByLength(cs)| ==> WellPlaced(idx, ByLength(cs)[j], at, ahead)
  {
    var sorted := ByLength(cs);
    ByLengthLongestFirst(cs);
    forall j | 0 <= j < |sorted|
      ensures WellPlaced(idx, sorted[j], at, ahead)
    {
      assert sorted[j] in multiset(sorted);
      assert sorted[j] in multiset(cs);
      var k :| 0 <= k < |cs| && cs[k] == sorted[j];
    }
  }

  /** A non-empty spelling that fits the sentence ends inside it. */
  lemma MatchesFits(c: Candidate, sentence: string)
    requires Matches(c, sentence) && |c.str| > 0
    ensures c.indexFound + |c.str| <= |sentence|
  {
    var last := |c.str| - 1;
    var ch := c.str[last];
    assert c.indexFound + last < |sentence|;
  }

  /** The first fitting candidate of well-placed ones lies inside the
    * sentence. */
  lemma FirstMatchPlaced(idx: Index<int>, cs: seq<Candidate>, str: string, at: nat)
    requires forall j :: 0 <= j < |cs| ==> WellPlaced(idx, cs[j], at, true)
    ensures FirstMatch(cs, str).Some? ==>
              WellPlaced(idx, FirstMatch(cs, str).value, at, true) && at + |FirstMatch(cs, str).value.str| <= |str|
  {
    var found := FirstMatch(cs, str);
    FirstMatchFound(cs, str);
    if found.Some? {
      var k :| 0 <= k < |cs| && cs[k] == found.value;
      MatchesFits(found.value, str);
    }
  }

  /** The result of the alternates loop after the first `n` candidates: the
    * entries already added and the results. */
  function AltUpTo(idx: Index<int>, cs: seq<Candidate>, m: Candidate, n: nat): (r: (seq<nat>, seq<SearchResult>))
    requires n <= |cs|
    requires forall j :: 0 <= j < |cs| ==> cs[j].pos < |idx.entries|
    ensures |r.0| == |r.1|
  {
    if n == 0 then ([], [])
    else
      var prev := AltUpTo(idx, cs, m, n - 1);
      var pm := cs[n - 1];
      if Equivalent(pm, m) && pm.pos !in prev.0 then
        (prev.0 + [pm.pos], prev.1 + [Tagged(idx.entries[pm.pos], SentenceSplit, false, false)])
      else prev
  }

  /** The entries equivalent to the chosen word: the other entries with the
    * same spelling at the same place. */
  function Alternates(idx: Index<int>, cs: seq<Candidate>, m: Candidate): (r: seq<SearchResult>)
    requires forall j :: 0 <= j < |cs| ==> cs[j].pos < |idx.entries|
  {
    AltUpTo(idx, cs, m, |cs|).1
  }

  /** The candidates the alternates loop accepts: another entry with the
    * same spelling at the same place. */
  predicate Equivalent(pm: Candidate, m: Candidate) {
    pm.indexFound == m.indexFound && pm.pos != m.pos && pm.str == m.str
  }

  /** Some candidate among the first `n` is an equivalent of `m` for the
    * entry at `p`. */
  predicate EquivalentFor(cs: seq<Candidate>, m: Candidate, n: nat, p: nat)
    requires n <= |cs|
  {
    exists j :: 0 <= j < n && cs[j].pos == p && Equivalent(cs[j], m)
  }

  lemma {:induction false} AltUpToExact(idx: Index<int>, cs: seq<Candidate>, m: Candidate, n: nat)
    requires n <= |cs|
    requires forall j :: 0 <= j < |cs| ==> cs[j].pos < |idx.entries|
    ensures forall a, b :: 0 <= a < b < |AltUpTo(idx, cs, m, n).0| ==> AltUpTo(idx, cs, m, n).0[a] != AltUpTo(idx, cs, m, n).0[b]
    ensures forall p: nat :: p in AltUpTo(idx, cs, m, n).0 <==> EquivalentFor(cs, m, n, p)
    ensures forall k :: 0 <= k < |AltUpTo(idx, cs, m, n).1| ==>
              AltUpTo(idx, cs, m, n).0[k] < |idx.entries|
              && AltUpTo(idx, cs, m, n).1[k] == Tagged(idx.entries[AltUpTo(idx, cs, m, n).0[k]], SentenceSplit, false, false)
  {
    if n > 0 {
      AltUpToExact(idx, cs, m, n - 1);
      var prev := AltUpTo(idx, cs, m, n - 1);
      var r := AltUpTo(idx, cs, m, n);
      var pm := cs[n - 1];
      forall p: nat
        ensures p in r.0 <==> EquivalentFor(cs, m, n, p)
      {
        if p in prev.0 {
          assert EquivalentFor(cs, m, n - 1, p);
          var j :| 0 <= j < n - 1 && cs[j].pos == p && Equivalent(cs[j], m);
          assert EquivalentFor(cs, m, n, p);
        } else if EquivalentFor(cs, m, n, p) {
          var j :| 0 <= j < n && cs[j].pos == p && Equivalent(cs[j], m);
        }
        if p in r.0 && p !in prev.0 {
          assert cs[n - 1].pos == p && Equivalent(cs[n - 1], m);
        }
      }
      if Equivalent(pm, m) && pm.pos !in prev.0 {
        assert r.0 == prev.0 + [pm.pos];
        assert r.1 == prev.1 + [Tagged(idx.entries[pm.pos], SentenceSplit, false, false)];
      }
    }
  }

  /** The alternates are the entries, other than the chosen word's, with a
    * candidate of the same spelling at the same place: each once, and each
    * tagged as a sentence-split result that does not start a group. */
  lemma AlternatesExact(idx: Index<int>, cs: seq<Candidate>, m: Candidate)
    requires forall j :: 0 <= j < |cs| ==> cs[j].pos < |idx.entries|
    ensures var r := AltUpTo(idx, cs, m, |cs|);
            && (forall a, b :: 0 <= a < b < |r.0| ==> r.0[a] != r.0[b])
            && m.pos !in r.0
            && (forall j :: 0 <= j < |cs| && Equivalent(cs[j], m) ==> cs[j].pos in r.0)
            && (forall p: nat :: p in r.0 ==> EquivalentFor(cs, m, |cs|, p))
            && (forall k :: 0 <= k < |r.1| ==> r.0[k] < |idx.entries| && r.1[k] == Tagged(idx.entries[r.0[k]], SentenceSplit, false, false))
  {
    AltUpToExact(idx, cs, m, |cs|);
    var r := AltUpTo(idx, cs, m, |cs|);
    forall j | 0 <= j < |cs| && Equivalent(cs[j], m)
      ensures cs[j].pos in r.0
    {
      assert EquivalentFor(cs, m, |cs|, cs[j].pos);
    }
  }

  /** The alternates loop of splitChineseSentence. */
  method AddAlternates(idx: Index<int>, cs: seq<Candidate>, m: Candidate, result: seq<SearchResult>)
    returns (r: seq<SearchResult>)
    requires forall j :: 0 <= j < |cs| ==> cs[j].pos < |idx.entries|
    ensures r == result + Alternates(idx, cs, m)
  {
    var added: seq<nat> := [];
    r := result;
    var j := 0;
    while j < |cs|
      invariant j <= |cs|
      invariant added == AltUpTo(idx, cs, m, j).0
      invariant r == result + AltUpTo(idx, cs, m, j).1
    {
      var pm := cs[j];
      if pm.indexFound == m.indexFound && pm.pos != m.pos && pm.str == m.str && pm.pos !in added {
        added := added + [pm.pos];
        r := r + [Tagged(idx.entries[pm.pos], SentenceSplit, false, false)];
      }
      j := j + 1;
    }
  }

  /** The word chosen at position `i` of the split: Failure(i) where the index
    * has no bucket for the character, None where no candidate fits. */
  function WordAt(idx: Index<int>, str: string, i: nat): (r: Result<Option<Candidate>, nat>)
    requires idx.Valid() && i < |str|
    ensures r.Failure? ==> r.error == i
    ensures r.Success? && r.value.Some? ==>
              && r.value.value.pos < |idx.entries| && r.value.value.indexFound == i
              && 0 < |r.value.value.str| && i + |r.value.value.str| <= |str|
  {
    match BucketOf(idx, str[i])
    case None => Failure(i)
    case Some(positions) =>
      var cs := SplitCandidates(idx, str, i, positions);
      ByLengthPlaced(idx, CandidatesOf(idx, positions, str[i], i, true), i, true);
      FirstMatchPlaced(idx, cs, str, i);
      Success(FirstMatch(cs, str))
  }

  /** The results for the word `m` chosen at position `i`: the word's entry,
    * starting a group, then its alternates. */
  function Group(idx: Index<int>, str: string, i: nat, m: Candidate): (r: seq<SearchResult>)
    requires idx.Valid() && i < |str| && BucketOf(idx, str[i]).Some?
    requires m.pos < |idx.entries|
  {
    var cs := SplitCandidates(idx, str, i, BucketOf(idx, str[i]).value);
    [Tagged(idx.entries[m.pos], SentenceSplit, false, true)] + Alternates(idx, cs, m)
  }

  /** What one pass of the split loop does at a position: stop on a missing
    * bucket, skip a character no word fits, or take a word with its group
    * of results. */
  datatype Step = Missing | Skip | Take(word: Candidate, group: seq<SearchResult>)

  /** The cursor after a pass. */
  function Next(step: Step, i: nat): int
    requires !step.Missing?
  {
    match step
    case Skip => i + 1
    case Take(m, _) => i + |m.str| + (m.indexFound - i)
  }

  /** The results a pass adds. */
  function Added(step: Step): seq<SearchResult> {
    if step.Take? then step.group else []
  }

  /** A word taken at `i` starts there and is a non-empty piece of the
    * sentence. */
  predicate Fits(steps: seq<Step>) {
    forall i :: 0 <= i < |steps| && steps[i].Take? ==>
      steps[i].word.indexFound == i && 0 < |steps[i].word.str| && i + |steps[i].word.str| <= |steps|
  }

  /** The pass of the split loop at position `i`. */
  function StepAt(idx: Index<int>, str: string, i: nat): (r: Step)
    requires idx.Valid() && i < |str|
    ensures r.Take? ==> r.word.indexFound == i && 0 < |r.word.str| && i + |r.word.str| <= |str|
  {
    match WordAt(idx, str, i)
    case Failure(_) => Missing
    case Success(None) => Skip
    case Success(Some(m)) => Take(m, Group(idx, str, i, m))
  }

  /** The passes at the first `n` positions of the sentence. */
  function StepsUpTo(idx: Index<int>, str: string, n: nat): (r: seq<Step>)
    requires idx.Valid() && n <= |str|
    ensures |r| == n
    ensures forall i :: 0 <= i < n && r[i].Take? ==>
              r[i].word.indexFound == i && 0 < |r[i].word.str| && i + |r[i].word.str| <= |str|
  {
    if n == 0 then [] else StepsUpTo(idx, str, n - 1) + [StepAt(idx, str, n - 1)]
  }

  /** The passes at every position of the sentence. */
  function Steps(idx: Index<int>, str: string): (r: seq<Step>)
    requires idx.Valid()
    ensures |r| == |str| && Fits(r)
  {
    StepsUpTo(idx, str, |str|)
  }

  lemma {:induction false} StepsUpToAt(idx: Index<int>, str: string, n: nat, i: nat)
    requires idx.Valid() && i < n <= |str|
    ensures StepsUpTo(idx, str, n)[i] == StepAt(idx, str, i)
  {
    if i < n - 1 {
      StepsUpToAt(idx, str, n - 1, i);
    }
  }

  /** The pass recorded for position `i` is the one taken there. */
  lemma StepsAt(idx: Index<int>, str: string, i: nat)
    requires idx.Valid() && i < |str|
    ensures Steps(idx, str)[i] == StepAt(idx, str, i)
  {
    StepsUpToAt(idx, str, |str|, i);
  }

  /** What a pass means: it stops exactly where the character has no
    * bucket; it skips where no candidate starting there fits the sentence;
    * and the word it takes is a non-empty spelling of its entry that starts
    * there, fits the sentence, and is at least as long as every candidate
    * that fits. */
  lemma StepMeaning(idx: Index<int>, str: string, i: nat)
    requires idx.Valid() && i < |str|
    ensures StepAt(idx, str, i).Missing? <==> BucketOf(idx, str[i]).None?
    ensures StepAt(idx, str, i).Skip? ==>
              forall c :: c in CandidatesOf(idx, BucketOf(idx, str[i]).value, str[i], i, true) ==> !Matches(c, str)
    ensures StepAt(idx, str, i).Take? ==>
              var m := StepAt(idx, str, i).word;
              && WellPlaced(idx, m, i, true) && |m.str| > 0 && Matches(m, str)
              && forall c :: c in CandidatesOf(idx, BucketOf(idx, str[i]).value, str[i], i, true) && Matches(c, str) ==>
                   |c.str| <= |m.str|
  {
    if BucketOf(idx, str[i]).Some? {
      var cs := CandidatesOf(idx, BucketOf(idx, str[i]).value, str[i], i, true);
      LongestMatch(cs, str);
      ByLengthPlaced(idx, cs, i, true);
      FirstMatchPlaced(idx, ByLength(cs), str, i);
    }
  }

  /** The split loop from position `i` with the results `acc` so far. */
  function Run(steps: seq<Step>, i: nat, acc: seq<SearchResult>): (r: Result<seq<SearchResult>, nat>)
    requires Fits(steps) && i <= |steps|
    decreases |steps| - i
  {
    if i == |steps| then Success(acc)
    else if steps[i].Missing? then Failure(i)
    else Run(steps, Next(steps[i], i), acc + Added(steps[i]))
  }

  /** splitChineseSentence: Success(None) where nothing was found, Failure(i)
    * where the character at `i` has no index bucket (the source throws). */
  function SplitSentence(idx: Index<int>, search: string): (r: Result<Option<seq<SearchResult>>, nat>)
    requires idx.Valid()
  {
    var res :- Run(Steps(idx, LowerString(search)), 0, []);
    Success(if res == [] then None else Some(res))
  }

  /** One pass of the split loop at position `i`. */
  method SplitStep(idx: Index<int>, str: string, i: nat) returns (step: Step)
    requires idx.Valid() && i < |str|
    ensures step == StepAt(idx, str, i)
  {
    var indexed := BucketOf(idx, str[i]);
    if indexed.None? {
      return Missing;
    }
    var possible := CollectCandidates(idx, indexed.value, str[i], i, true);
    var sorted := ByLength(possible);
    var found := FindFirstMatch(sorted, str);
    assert sorted == SplitCandidates(idx, str, i, indexed.value);
    assert WordAt(idx, str, i) == Success(found);
    if found.None? {
      return Skip;
    }
    var m := found.value;
    var group := [Tagged(idx.entries[m.pos], SentenceSplit, false, true)];
    group := AddAlternates(idx, sorted, m, group);
    return Take(m, group);
  }

  /** splitChineseSentence. */
  method SplitChineseSentence(idx: Index<int>, search: string) returns (r: Result<Option<seq<SearchResult>>, nat>)
    requires idx.Valid()
    ensures r == SplitSentence(idx, search)
  {
    var str := LowerString(search);
    ghost var steps := Steps(idx, str);
    var result: seq<SearchResult> := [];
    var i := 0;
    while i < |str|
      invariant i <= |str|
      invariant Run(steps, i, result) == Run(steps, 0, [])
      decreases |str| - i
    {
      var step := SplitStep(idx, str, i);
      StepsAt(idx, str, i);
      if step.Missing? {
        return Failure(i);
      }
      result := result + Added(step);
      i := Next(step, i);
    }
    return if result == [] then Success(None) else Success(Some(result));
  }

  // ---------------------------------------------------------------------
  // What the split produces

  /** The words the split takes from position `i` on. */
  function Words(steps: seq<Step>, i: nat): (r: Result<seq<Candidate>, nat>)
    requires Fits(steps) && i <= |steps|
    decreases |steps| - i
  {
    if i == |steps| then Success([])
    else if steps[i].Missing? then Failure(i)
    else
      var rest :- Words(steps, Next(steps[i], i));
      Success(if steps[i].Take? then [steps[i].word] + rest else rest)
  }

  /** The entries of the results that start a group, in order. */
  function Firsts(rs: seq<SearchResult>): seq<Entry> {
    if rs == [] then []
    else Firsts(rs[..|rs| - 1]) + (if rs[|rs| - 1].isFirstOfSplitGroup then [rs[|rs| - 1].entry] else [])
  }

  lemma {:induction false} FirstsConcat(a: seq<SearchResult>, b: seq<SearchResult>)
    ensures Firsts(a + b) == Firsts(a) + Firsts(b)
    decreases |b|
  {
    if b == [] {
      assert a + b == a;
    } else {
      FirstsConcat(a, b[..|b| - 1]);
      assert (a + b)[..|a + b| - 1] == a + b[..|b| - 1];
    }
  }

  lemma {:induction false} FirstsNone(rs: seq<SearchResult>)
    requires forall k :: 0 <= k < |rs| ==> !rs[k].isFirstOfSplitGroup
    ensures Firsts(rs) == []
  {
    if rs != [] {
      FirstsNone(rs[..|rs| - 1]);
    }
  }

  /** A sentence-split result with no definition or highlight. */
  predicate SplitTagged(r: SearchResult) {
    r.kind == SentenceSplit && !r.isFullMatch && r.definition == -1 && r.beginIndex == -1 && r.endIndex == -1
  }

  /** A pass adds sentence-split results, and starts one group exactly for
    * the word it takes. */
  predicate StepShaped(idx: Index<int>, step: Step) {
    && (forall k :: 0 <= k < |Added(step)| ==> SplitTagged(Added(step)[k]))
    && (step.Take? ==> step.word.pos < |idx.entries| && Firsts(Added(step)) == [idx.entries[step.word.pos]])
    && (!step.Take? ==> Firsts(Added(step)) == [])
  }

  /** A group is made of sentence-split results and only its head starts it. */
  lemma GroupShaped(idx: Index<int>, str: string, i: nat, m: Candidate)
    requires idx.Valid() && i < |str| && BucketOf(idx, str[i]).Some?
    requires m.pos < |idx.entries|
    ensures var g := Group(idx, str, i, m);
            && (forall k :: 0 <= k < |g| ==> SplitTagged(g[k]))
            && Firsts(g) == [idx.entries[m.pos]]
  {
    var cs := SplitCandidates(idx, str, i, BucketOf(idx, str[i]).value);
    var head := [Tagged(idx.entries[m.pos], SentenceSplit, false, true)];
    var alts := Alternates(idx, cs, m);
    assert Group(idx, str, i, m) == head + alts;
    AlternatesExact(idx, cs, m);
    FirstsNone(alts);
    FirstsConcat(head, alts);
    assert Firsts(head) == Firsts([]) + [idx.entries[m.pos]];
  }

  /** Every pass of the split is shaped so. */
  lemma StepAtShaped(idx: Index<int>, str: string, i: nat)
    requires idx.Valid() && i < |str|
    ensures StepShaped(idx, StepAt(idx, str, i))
  {
    var step := StepAt(idx, str, i);
    if step.Take? {
      GroupShaped(idx, str, i, step.word);
    }
  }

  /** The entries of the chosen words. */
  function WordEntries(idx: Index<int>, words: seq<Candidate>): (r: seq<Entry>)
    requires forall k :: 0 <= k < |words| ==> words[k].pos < |idx.entries|
    ensures |r| == |words| && forall k :: 0 <= k < |r| ==> r[k] == idx.entries[words[k].pos]
  {
    seq(|words|, k requires 0 <= k < |words| => idx.entries[words[k].pos])
  }

  lemma WordEntriesCons(idx: Index<int>, w: Candidate, rest: seq<Candidate>)
    requires w.pos < |idx.entries|
    requires forall k :: 0 <= k < |rest| ==> rest[k].pos < |idx.entries|
    ensures forall k :: 0 <= k < |[w] + rest| ==> ([w] + rest)[k].pos < |idx.entries|
    ensures WordEntries(idx, [w] + rest) == [idx.entries[w.pos]] + WordEntries(idx, rest)
  {
    var ws := [w] + rest;
    assert forall k :: 0 < k < |ws| ==> ws[k] == rest[k - 1];
    var a, b := WordEntries(idx, ws), [idx.entries[w.pos]] + WordEntries(idx, rest);
    assert |a| == |b|;
    forall k | 0 <= k < |a|
      ensures a[k] == b[k]
    {
      if k > 0 {
        assert a[k] == idx.entries[rest[k - 1].pos];
      }
    }
  }

  /** The run and the words agree: they fail at the same place, every
    * result is a sentence-split result, and the results that start a group
    * are the taken words' entries, in order. */
  lemma {:induction false} RunWords(idx: Index<int>, steps: seq<Step>, i: nat, acc: seq<SearchResult>)
    requires Fits(steps) && i <= |steps|
    requires forall j :: 0 <= j < |steps| ==> StepShaped(idx, steps[j])
    requires forall k :: 0 <= k < |acc| ==> SplitTagged(acc[k])
    ensures Run(steps, i, acc).Failure? <==> Words(steps, i).Failure?
    ensures Run(steps, i, acc).Failure? ==> Run(steps, i, acc).error == Words(steps, i).error
    ensures Run(steps, i, acc).Success? ==>
              var rs := Run(steps, i, acc).value;
              var words := Words(steps, i).value;
              && (forall k :: 0 <= k < |words| ==> words[k].pos < |idx.entries|)
              && (forall k :: 0 <= k < |rs| ==> SplitTagged(rs[k]))
              && Firsts(rs) == Firsts(acc) + WordEntries(idx, words)
              && (words == [] ==> rs == acc)
    decreases |steps| - i
  {
    if i < |steps| && !steps[i].Missing? {
      var step := steps[i];
      var next := Next(step, i);
      assert StepShaped(idx, step);
      RunWords(idx, steps, next, acc + Added(step));
      FirstsConcat(acc, Added(step));
      if !step.Take? {
        assert acc + Added(step) == acc;
      }
      if Run(steps, i, acc).Success? {
        var rest := Words(steps, next).value;
        if step.Take? {
          assert Words(steps, i).value == [step.word] + rest;
          WordEntriesCons(idx, step.word, rest);
        }
      }
    }
  }

  /** Each word is the one taken at its own start, at or after `i`. */
  lemma {:induction false} WordsTaken(steps: seq<Step>, i: nat)
    requires Fits(steps) && i <= |steps| && Words(steps, i).Success?
    ensures forall k :: 0 <= k < |Words(steps, i).value| ==>
              var w := Words(steps, i).value[k];
              i <= w.indexFound < |steps| && steps[w.indexFound].Take? && steps[w.indexFound].word == w
    decreases |steps| - i
  {
    if i < |steps| {
      WordsTaken(steps, Next(steps[i], i));
    }
  }

  /** The words come in order without overlapping, the first at or after
    * `i`, the last inside the sentence. */
  lemma {:induction false} WordsOrdered(steps: seq<Step>, i: nat)
    requires Fits(steps) && i <= |steps| && Words(steps, i).Success?
    ensures var words := Words(steps, i).value;
            && (forall k :: 0 <= k < |words| ==> i <= words[k].indexFound && words[k].indexFound + |words[k].str| <= |steps|)
            && (forall k :: 0 <= k < |words| - 1 ==> words[k].indexFound + |words[k].str| <= words[k + 1].indexFound)
    decreases |steps| - i
  {
    if i < |steps| {
      var next := Next(steps[i], i);
      WordsOrdered(steps, next);
      if steps[i].Take? {
        var rest := Words(steps, next).value;
        assert Words(steps, i).value == [steps[i].word] + rest;
      }
    }
  }

  /** No word covers position `p`. */
  predicate Uncovered(words: seq<Candidate>, p: int) {
    forall k :: 0 <= k < |words| ==> !(words[k].indexFound <= p < words[k].indexFound + |words[k].str|)
  }

  /** Every position from `i` on that no word covers is one the split
    * skipped: no word fits there. */
  lemma {:induction false} WordsGaps(steps: seq<Step>, i: nat)
    requires Fits(steps) && i <= |steps| && Words(steps, i).Success?
    ensures forall p :: i <= p < |steps| && Uncovered(Words(steps, i).value, p) ==> steps[p].Skip?
    decreases |steps| - i
  {
    if i < |steps| {
      var step := steps[i];
      var next := Next(step, i);
      WordsGaps(steps, next);
      var rest := Words(steps, next).value;
      if step.Take? {
        var words := [step.word] + rest;
        assert Words(steps, i).value == words;
        forall p | i <= p < |steps| && Uncovered(words, p)
          ensures Uncovered(rest, p)
        {
          forall k | 0 <= k < |rest|
            ensures !(rest[k].indexFound <= p < rest[k].indexFound + |rest[k].str|)
          {
            assert rest[k] == words[k + 1];
          }
        }
        forall p | i <= p < |steps| && Uncovered(words, p)
          ensures next <= p
        {
          assert !(words[0].indexFound <= p < words[0].indexFound + |words[0].str|);
        }
      }
    }
  }

  /** splitChineseSentence as a whole, over the lower-cased sentence: the
    * results are sentence-split results; the group starts are the entries
    * of the words taken, which tile the sentence in order, each the longest
    * fitting candidate at its start; and None means no word was taken. */
  lemma SplitSentenceWords(idx: Index<int>, search: string)
    requires idx.Valid()
    ensures var steps := Steps(idx, LowerString(search));
            && (SplitSentence(idx, search).Failure? <==> Words(steps, 0).Failure?)
            && (SplitSentence(idx, search) == Success(None) <==> Words(steps, 0) == Success([]))
            && (SplitSentence(idx, search).Success? && SplitSentence(idx, search).value.Some? ==>
                  var rs := SplitSentence(idx, search).value.value;
                  var words := Words(steps, 0).value;
                  && (forall k :: 0 <= k < |words| ==> words[k].pos < |idx.entries|)
                  && (forall k :: 0 <= k < |rs| ==> SplitTagged(rs[k]))
                  && Firsts(rs) == WordEntries(idx, words))
  {
    var steps := Steps(idx, LowerString(search));
    StepsShaped(idx, LowerString(search));
    RunWords(idx, steps, 0, []);
    assert Firsts([]) == [];
  }

  lemma StepsShaped(idx: Index<int>, str: string)
    requires idx.Valid()
    ensures forall j :: 0 <= j < |Steps(idx, str)| ==> StepShaped(idx, Steps(idx, str)[j])
  {
    forall j | 0 <= j < |str|
      ensures StepShaped(idx, Steps(idx, str)[j])
    {
      StepsAt(idx, str, j);
      StepAtShaped(idx, str, j);
    }
  }

  // ---------------------------------------------------------------------
  // findChineseWord

  /** findChineseWord: the word of the dictionary around `index`, looking
    * both behind and ahead of it; None where the character has no bucket or
    * no candidate fits. */
  function FindWord(idx: Index<int>, sentence: string, index: nat): (r: Option<Match>)
    requires idx.Valid() && index < |sentence|
  {
    match BucketOf(idx, sentence[index])
    case None => None
    case Some(positions) =>
      var cs := ByLength(CandidatesOf(idx, positions, sentence[index], index, false));
      ByLengthPlaced(idx, CandidatesOf(idx, positions, sentence[index], index, false), index, false);
      FirstMatchFound(cs, sentence);
      match FirstMatch(cs, sentence)
      case None => None
      case Some(c) =>
        var k :| 0 <= k < |cs| && cs[k] == c;
        Some(Match(c.str, idx.entries[c.pos], c.indexFound))
  }

  /** findChineseWord. */
  method FindChineseWord(idx: Index<int>, sentence: string, index: nat) returns (r: Option<Match>)
    requires idx.Valid() && index < |sentence|
    ensures r == FindWord(idx, sentence, index)
  {
    var indexed := BucketOf(idx, sentence[index]);
    if indexed.None? {
      return None;
    }
    var possible := CollectCandidates(idx, indexed.value, sentence[index], index, false);
    var sorted := ByLength(possible);
    ByLengthPlaced(idx, possible, index, false);
    var found := FindFirstMatch(sorted, sentence);
    FirstMatchFound(sorted, sentence);
    if found.None? {
      return None;
    }
    var c := found.value;
    var k :| 0 <= k < |sorted| && sorted[k] == c;
    return Some(Match(c.str, idx.entries[c.pos], c.indexFound));
  }

  /** The candidates findChineseWord considers at `index`. */
  function WordCandidates(idx: Index<int>, sentence: string, index: nat): (r: seq<Candidate>)
    requires idx.Valid() && index < |sentence|
  {
    if BucketOf(idx, sentence[index]).Some?
    then CandidatesOf(idx, BucketOf(idx, sentence[index]).value, sentence[index], index, false)
    else []
  }

  /** Nothing is found only where no candidate fits the sentence. */
  lemma FindWordNone(idx: Index<int>, sentence: string, index: nat)
    requires idx.Valid() && index < |sentence|
    ensures FindWord(idx, sentence, index).None? <==>
              forall c :: c in WordCandidates(idx, sentence, index) ==> !Matches(c, sentence)
  {
    if BucketOf(idx, sentence[index]).Some? {
      LongestMatch(WordCandidates(idx, sentence, index), sentence);
    }
  }

  /** The word found spans `index`, lies inside the sentence, is the
    * simplified or traditional spelling of an entry of the table, matches
    * the sentence letter by letter up to case, and no candidate that fits
    * is longer. */
  lemma FindWordFound(idx: Index<int>, sentence: string, index: nat)
    requires idx.Valid() && index < |sentence| && FindWord(idx, sentence, index).Some?
    ensures var w := FindWord(idx, sentence, index).value;
            && 0 <= w.index <= index < w.index + |w.str| <= |sentence|
            && w.entry in idx.entries
            && (w.str == w.entry.simplified || w.str == w.entry.traditional)
            && (forall k :: 0 <= k < |w.str| ==> SameLetter(sentence[w.index + k], w.str[k]))
            && (forall c :: c in WordCandidates(idx, sentence, index) && Matches(c, sentence) ==> |c.str| <= |w.str|)
  {
    var cs := WordCandidates(idx, sentence, index);
    LongestMatch(cs, sentence);
    ByLengthPlaced(idx, cs, index, false);
    var sorted := ByLength(cs);
    FirstMatchFound(sorted, sentence);
    var c := FirstMatch(sorted, sentence).value;
    var k :| 0 <= k < |sorted| && sorted[k] == c;
    MatchesFits(c, sentence);
  }
}
