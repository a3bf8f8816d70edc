/** Searching in pinyin (DictionaryPinyinSearch.java): the index is keyed by
  * the first two characters of the pinyin, a one-letter query lists the
  * single-syllable entries under every key starting with that letter, and
  * each entry is matched by a two-cursor walk in which tones and the space
  * between syllables are optional. */
module PinyinSearching {
  import opened Wrappers
  import opened Text
  import opened Entries
  import opened SearchResults
  import opened Searching

  // ---------------------------------------------------------------------
  // getFromIndexMap

  /** The index key: the query's first two characters, an apostrophe read as
    * the space that separates syllables in stored pinyin. */
  function Key(q: string): (k: string)
    requires |q| >= 2
    ensures |k| == 2 && '\'' !in k
    ensures forall i :: 0 <= i < 2 ==> k[i] == q[i] || (q[i] == '\'' && k[i] == ' ')
  {
    var a := if q[0] == '\'' then ' ' else q[0];
    var b := if q[1] == '\'' then ' ' else q[1];
    [a, b]
  }

  // ---------------------------------------------------------------------
  // searchMatches

  /** Characters the walk steps over when the query leaves them out. */
  predicate Skippable(c: char) {
    c == ' ' || IsTone(c)
  }

  /** The skip loop: the first position from `pi` on that is neither a space
    * nor a tone, or None when the pinyin runs out first. */
  function SkipFrom(p: string, pi: nat): (r: Option<nat>)
    requires pi < |p|
    ensures r.Some? ==> pi <= r.value < |p| && !Skippable(p[r.value])
                        && forall j :: pi <= j < r.value ==> Skippable(p[j])
    ensures r.None? <==> forall j :: pi <= j < |p| ==> Skippable(p[j])
    decreases |p| - pi
  {
    if !Skippable(p[pi]) then Some(pi)
    else if pi + 1 >= |p| then None
    else SkipFrom(p, pi + 1)
  }

  /** The walk of searchMatches from pinyin position `pi` and query position
    * `si`: the final pinyin position, or None where searchMatches gives
    * null. */
  function Walk(p: string, q: string, pi: nat, si: nat): Option<nat>
    decreases |p| - pi
  {
    if si >= |q| then Some(pi)
    else if si >= |p| || pi >= |p| then None
    else
      var c := q[si];
      if IsTone(c) && c == p[pi] then Walk(p, q, pi + 1, si + 1)
      else if c == '\'' && (p[pi] == ' ' || (|p| > pi + 1 && p[pi + 1] == ' ')) then Walk(p, q, pi + 1, si + 1)
      else if c == 'u' && |p| > pi + 1 && p[pi + 1] == ':' && (|q| <= si + 1 || q[si + 1] != ':') then None
      else
        match SkipFrom(p, pi)
        case None => None
        case Some(pj) => if CharsEqual(c, p[pj]) then Walk(p, q, pj + 1, si + 1) else None
  }

  /** A walk that ends at `pi` is a full match when nothing of the pinyin is
    * left but, possibly, a final tone. */
  predicate IsFull(p: string, pi: nat) {
    pi == |p| || (pi + 1 == |p| && IsTone(p[|p| - 1]))
  }

  function PinyinMatch(e: Entry, q: string): (r: Option<SearchResult>)
    ensures r.Some? ==> r.value.entry == e && r.value.kind == PinyinSearch && !r.value.isFirstOfSplitGroup
                        && r.value.definition == -1 && r.value.beginIndex == -1 && r.value.endIndex == -1
  {
    match Walk(e.pinyin, q, 0, 0)
    case None => None
    case Some(pi) => Some(Tagged(e, PinyinSearch, IsFull(e.pinyin, pi), false))
  }

  /** searchMatches. */
  method SearchMatches(entry: Entry, search: string) returns (r: Option<SearchResult>)
    ensures r == PinyinMatch(entry, search)
  {
    var pinyin := entry.pinyin;
    var pinyinI, pinyinLength, searchI, searchLength := 0, |pinyin|, 0, |search|;
    while searchI < searchLength
      invariant Walk(pinyin, search, pinyinI, searchI) == Walk(pinyin, search, 0, 0)
      decreases pinyinLength - pinyinI
    {
      if searchI >= pinyinLength || pinyinI >= pinyinLength {
        return None;
      }
      var c := search[searchI];
      if IsTone(c) && c == pinyin[pinyinI] {
        searchI, pinyinI := searchI + 1, pinyinI + 1;
        continue;
      } else if c == '\'' && (pinyin[pinyinI] == ' ' || (pinyinLength > pinyinI + 1 && pinyin[pinyinI + 1] == ' ')) {
        pinyinI, searchI := pinyinI + 1, searchI + 1;
        continue;
      } else if c == 'u' {
        if pinyinLength > pinyinI + 1 && pinyin[pinyinI + 1] == ':'
          && (searchLength <= searchI + 1 || search[searchI + 1] != ':')
        {
          return None;
        }
      }
      ghost var start := pinyinI;
      while Skippable(pinyin[pinyinI])
        invariant start <= pinyinI < pinyinLength
        invariant SkipFrom(pinyin, pinyinI) == SkipFrom(pinyin, start)
        decreases pinyinLength - pinyinI
      {
        pinyinI := pinyinI + 1;
        if pinyinI >= pinyinLength {
          return None;
        }
      }
      if !CharsEqual(c, pinyin[pinyinI]) {
        return None;
      }
      pinyinI, searchI := pinyinI + 1, searchI + 1;
    }
    var full := pinyinI == pinyinLength || (pinyinI == pinyinLength - 1 && IsTone(pinyin[pinyinLength - 1]));
    r := Some(Tagged(entry, PinyinSearch, full, false));
  }

  function PinyinMatcher(q: string): Entry -> Option<SearchResult> {
    e => PinyinMatch(e, q)
  }

  // ---------------------------------------------------------------------
  // Properties of the walk

  lemma {:induction false} WalkCovers(p: string, q: string, pi: nat, si: nat)
    requires si <= pi
    ensures Walk(p, q, pi, si).Some? ==> |q| <= Walk(p, q, pi, si).value && (si < |q| ==> Walk(p, q, pi, si).value <= |p|)
    decreases |p| - pi
  {
    if si < |q| && si < |p| && pi < |p| {
      var c := q[si];
      if IsTone(c) && c == p[pi] {
        WalkCovers(p, q, pi + 1, si + 1);
      } else if c == '\'' && (p[pi] == ' ' || (|p| > pi + 1 && p[pi + 1] == ' ')) {
        WalkCovers(p, q, pi + 1, si + 1);
      } else if !(c == 'u' && |p| > pi + 1 && p[pi + 1] == ':' && (|q| <= si + 1 || q[si + 1] != ':')) {
        var pj := SkipFrom(p, pi);
        if pj.Some? {
          WalkCovers(p, q, pj.value + 1, si + 1);
        }
      }
    }
  }

  /** A query longer than the pinyin never matches: each query character
    * uses up at least one pinyin character. */
  lemma LongQueryFails(e: Entry, q: string)
    requires |q| > |e.pinyin|
    ensures PinyinMatch(e, q).None?
  {
    WalkCovers(e.pinyin, q, 0, 0);
  }

  /** The pinyin as a formatted query spells it: spaces become apostrophes. */
  function Spelling(c: char): char {
    if c == ' ' then '\'' else c
  }

  /** The query stops on a "u" of the pinyin that is followed by ':'. */
  predicate CutAtU(p: string, n: nat) {
    0 < n < |p| && p[n - 1] == 'u' && p[n] == ':'
  }

  lemma {:induction false} SpelledWalk(p: string, q: string, i: nat)
    requires |q| <= |p| && i <= |q|
    requires forall k :: i <= k < |q| ==> q[k] == Spelling(p[k])
    ensures Walk(p, q, i, i) == if CutAtU(p, |q|) && i < |q| then None else Some(|q|)
    decreases |p| - i
  {
    if i < |q| {
      var c := q[i];
      assert c == Spelling(p[i]);
      if c == 'u' && |p| > i + 1 && p[i + 1] == ':' {
        if i + 1 < |q| {
          assert q[i + 1] == ':';
        }
      }
      if IsTone(c) && c == p[i] {
      } else if c == '\'' && (p[i] == ' ' || (|p| > i + 1 && p[i + 1] == ' ')) {
      } else {
        assert SkipFrom(p, i) == Some(i);
      }
      SpelledWalk(p, q, i + 1);
    }
  }

  /** A query that spells the first `|q|` characters of the pinyin (spaces
    * written as apostrophes) matches, unless it stops on a "u" that the
    * pinyin writes "u:"; the match is full exactly when the query reaches
    * the end of the pinyin or stops just before a final tone. */
  lemma SpelledPrefixMatch(e: Entry, q: string)
    requires |q| <= |e.pinyin|
    requires forall k :: 0 <= k < |q| ==> q[k] == Spelling(e.pinyin[k])
    ensures PinyinMatch(e, q).Some? <==> !CutAtU(e.pinyin, |q|)
    ensures PinyinMatch(e, q).Some? ==>
              (PinyinMatch(e, q).value.isFullMatch <==>
                 |q| == |e.pinyin| || (|q| + 1 == |e.pinyin| && IsTone(e.pinyin[|q|])))
  {
    SpelledWalk(e.pinyin, q, 0);
  }

  // ---------------------------------------------------------------------
  // singleLetterPinyinSearch

  /** String.compareTo(a, b) <= 0: the order of the first differing
    * character, a proper prefix first. */
  predicate LessEq(a: string, b: string) {
    a == [] || (b != [] && (a[0] < b[0] || (a[0] == b[0] && LessEq(a[1..], b[1..]))))
  }

  lemma {:induction false} LessEqReflexive(a: string)
    ensures LessEq(a, a)
    decreases |a|
  {
    if a != [] {
      LessEqReflexive(a[1..]);
    }
  }

  lemma {:induction false} LessEqTotal(a: string, b: string)
    ensures LessEq(a, b) || LessEq(b, a)
    decreases |a|
  {
    if a != [] && b != [] && a[0] == b[0] {
      LessEqTotal(a[1..], b[1..]);
    }
  }

  lemma {:induction false} LessEqAntisymmetric(a: string, b: string)
    requires LessEq(a, b) && LessEq(b, a)
    ensures a == b
    decreases |a|
  {
    if a != [] {
      LessEqAntisymmetric(a[1..], b[1..]);
      assert a == [a[0]] + a[1..] && b == [b[0]] + b[1..];
    }
  }

  lemma {:induction false} LessEqTransitive(a: string, b: string, c: string)
    requires LessEq(a, b) && LessEq(b, c)
    ensures LessEq(a, c)
    decreases |a|
  {
    if a != [] && a[0] == b[0] && b[0] == c[0] {
      LessEqTransitive(a[1..], b[1..], c[1..]);
    }
  }

  predicate IsLeast(m: string, keys: set<string>) {
    m in keys && forall k :: k in keys ==> LessEq(m, k)
  }

  lemma {:induction false} LeastExists(keys: set<string>)
    requires keys != {}
    ensures exists m :: IsLeast(m, keys)
    decreases |keys|
  {
    var x :| x in keys;
    var rest := keys - {x};
    LessEqReflexive(x);
    if rest == {} {
      assert keys == {x};
      assert IsLeast(x, keys);
    } else {
      LeastExists(rest);
      var m :| IsLeast(m, rest);
      LessEqTotal(x, m);
      if LessEq(x, m) {
        forall k | k in keys
          ensures LessEq(x, k)
        {
          if k != x {
            LessEqTransitive(x, m, k);
          }
        }
        assert IsLeast(x, keys);
      } else {
        assert IsLeast(m, keys);
      }
    }
  }

  lemma LeastUnique(a: string, b: string, keys: set<string>)
    requires IsLeast(a, keys) && IsLeast(b, keys)
    ensures a == b
  {
    LessEqAntisymmetric(a, b);
  }

  /** The keys in ascending order (Collections.sort). */
  ghost function Sorted(keys: set<string>): seq<string>
    decreases |keys|
  {
    if keys == {} then []
    else
      LeastExists(keys);
      var m :| IsLeast(m, keys);
      [m] + Sorted(keys - {m})
  }

  lemma SortedStep(keys: set<string>, m: string)
    requires IsLeast(m, keys)
    ensures Sorted(keys) == [m] + Sorted(keys - {m})
  {
    var r := Sorted(keys);
    assert r[0] in keys && IsLeast(r[0], keys) && r == [r[0]] + Sorted(keys - {r[0]});
    LeastUnique(m, r[0], keys);
  }

  lemma {:induction false} SortedMembers(keys: set<string>)
    ensures forall i :: 0 <= i < |Sorted(keys)| ==> Sorted(keys)[i] in keys
    decreases |keys|
  {
    if keys != {} {
      LeastExists(keys);
      var m :| IsLeast(m, keys);
      SortedStep(keys, m);
      SortedMembers(keys - {m});
    }
  }

  lemma {:induction false} SortedAscending(keys: set<string>)
    ensures forall i, j :: 0 <= i < j < |Sorted(keys)| ==> LessEq(Sorted(keys)[i], Sorted(keys)[j])
    decreases |keys|
  {
    if keys != {} {
      LeastExists(keys);
      var m :| IsLeast(m, keys);
      SortedStep(keys, m);
      var rest := Sorted(keys - {m});
      SortedAscending(keys - {m});
      SortedMembers(keys - {m});
      forall i, j | 0 <= i < j < |Sorted(keys)|
        ensures LessEq(Sorted(keys)[i], Sorted(keys)[j])
      {
        if i > 0 {
          assert Sorted(keys)[i] == rest[i - 1] && Sorted(keys)[j] == rest[j - 1];
        } else {
          assert Sorted(keys)[j] == rest[j - 1] && rest[j - 1] in keys;
        }
      }
    }
  }

  lemma {:induction false} SortedComplete(keys: set<string>)
    ensures forall k :: k in keys ==> k in Sorted(keys)
    decreases |keys|
  {
    if keys != {} {
      LeastExists(keys);
      var m :| IsLeast(m, keys);
      SortedStep(keys, m);
      SortedComplete(keys - {m});
    }
  }

  /** The keys starting with `ch`. */
  function KeysOf(idx: Index<string>, ch: char): set<string> {
    set k | k in idx.buckets && |k| > 0 && k[0] == ch
  }

  /** The single-syllable entries of a bucket, as non-full pinyin results. */
  function Singles(bucket: seq<Entry>): (r: seq<SearchResult>)
    ensures |r| <= |bucket|
  {
    if bucket == [] then []
    else
      var init := Singles(bucket[..|bucket| - 1]);
      var e := bucket[|bucket| - 1];
      if ' ' in e.pinyin then init else init + [Tagged(e, PinyinSearch, false, false)]
  }

  /** The results for the keys in the given order. */
  function Gathered(idx: Index<string>, keys: seq<string>): seq<SearchResult>
    requires idx.Valid()
  {
    if keys == [] then []
    else
      var init := Gathered(idx, keys[..|keys| - 1]);
      match idx.Bucket(keys[|keys| - 1])
      case None => init
      case Some(bucket) => init + Singles(bucket)
  }

  /** singleLetterPinyinSearch: None when no key starts with the letter or
    * no entry under those keys is a single syllable. */
  ghost function SingleLetter(idx: Index<string>, ch: char): Option<seq<SearchResult>>
    requires idx.Valid()
  {
    var keys := KeysOf(idx, ch);
    if keys == {} then None
    else
      var rs := Gathered(idx, Sorted(keys));
      if rs == [] then None else Some(rs)
  }

  /** Collections.sort on the collected keys, as a selection of the least
    * remaining key. */
  method SortKeys(keys: set<string>) returns (strs: seq<string>)
    ensures strs == Sorted(keys)
  {
    strs := [];
    var remaining := keys;
    while remaining != {}
      invariant strs + Sorted(remaining) == Sorted(keys)
      decreases |remaining|
    {
      LeastExists(remaining);
      var m :| IsLeast(m, remaining);
      SortedStep(remaining, m);
      var rest := remaining - {m};
      assert strs + Sorted(remaining) == (strs + [m]) + Sorted(rest);
      strs := strs + [m];
      remaining := rest;
    }
    assert Sorted(remaining) == [];
    assert strs + [] == strs;
  }

  /** singleLetterPinyinSearch: the matching keys are taken smallest first,
    * which is the order Collections.sort gives them. */
  method SingleLetterPinyinSearch(idx: Index<string>, ch: char) returns (r: Option<seq<SearchResult>>)
    requires idx.Valid()
    ensures r == SingleLetter(idx, ch)
  {
    var keys := set k | k in idx.buckets && |k| > 0 && k[0] == ch;
    if keys == {} {
      return None;
    }
    var strs := SortKeys(keys);
    var result: seq<SearchResult> := [];
    var i := 0;
    while i < |strs|
      invariant i <= |strs|
      invariant result == Gathered(idx, strs[..i])
    {
      assert strs[..i + 1][..i] == strs[..i];
      var bucket := idx.Bucket(strs[i]);
      if bucket.Some? {
        result := AddSingles(result, bucket.value);
      }
      i := i + 1;
    }
    assert strs[..i] == strs;
    r := if |result| == 0 then None else Some(result);
  }

  /** The inner loop of singleLetterPinyinSearch: the entries of one bucket
    * whose pinyin is a single syllable. */
  method AddSingles(result: seq<SearchResult>, bucket: seq<Entry>) returns (r: seq<SearchResult>)
    ensures r == result + Singles(bucket)
  {
    r := result;
    var j := 0;
    while j < |bucket|
      invariant j <= |bucket|
      invariant r == result + Singles(bucket[..j])
    {
      var e := bucket[j];
      assert bucket[..j + 1][..j] == bucket[..j];
      if ' ' !in e.pinyin {
        r := r + [Tagged(e, PinyinSearch, false, false)];
      }
      j := j + 1;
    }
    assert bucket[..j] == bucket;
  }

  lemma {:induction false} SinglesShape(bucket: seq<Entry>, x: SearchResult)
    requires x in Singles(bucket)
    ensures x.kind == PinyinSearch && !x.isFullMatch && x.entry in bucket && ' ' !in x.entry.pinyin
  {
    if bucket != [] {
      var init := bucket[..|bucket| - 1];
      if x in Singles(init) {
        SinglesShape(init, x);
      }
    }
  }

  lemma {:induction false} GatheredShape(idx: Index<string>, keys: seq<string>, x: SearchResult)
    requires idx.Valid() && x in Gathered(idx, keys)
    ensures x.kind == PinyinSearch && !x.isFullMatch && ' ' !in x.entry.pinyin
    ensures exists i :: 0 <= i < |keys| && keys[i] in idx.buckets && x.entry in idx.Bucket(keys[i]).value
  {
    var init := keys[..|keys| - 1];
    if x in Gathered(idx, init) {
      GatheredShape(idx, init, x);
      var i :| 0 <= i < |init| && init[i] in idx.buckets && x.entry in idx.Bucket(init[i]).value;
      assert init[i] == keys[i];
    } else {
      SinglesShape(idx.Bucket(keys[|keys| - 1]).value, x);
    }
  }

  /** Every single-letter result is a non-full pinyin result for a
    * single-syllable entry stored under a key that starts with the letter. */
  lemma SingleLetterShape(idx: Index<string>, ch: char, x: SearchResult)
    requires idx.Valid() && SingleLetter(idx, ch).Some? && x in SingleLetter(idx, ch).value
    ensures x.kind == PinyinSearch && !x.isFullMatch && ' ' !in x.entry.pinyin
    ensures exists k :: k in idx.buckets && |k| > 0 && k[0] == ch && x.entry in idx.Bucket(k).value
  {
    var keys := Sorted(KeysOf(idx, ch));
    GatheredShape(idx, keys, x);
    var i :| 0 <= i < |keys| && keys[i] in idx.buckets && x.entry in idx.Bucket(keys[i]).value;
    SortedMembers(KeysOf(idx, ch));
    assert keys[i] in KeysOf(idx, ch);
  }

  lemma {:induction false} SinglesComplete(bucket: seq<Entry>, e: Entry)
    requires e in bucket && ' ' !in e.pinyin
    ensures Tagged(e, PinyinSearch, false, false) in Singles(bucket)
  {
    var init := bucket[..|bucket| - 1];
    if e != bucket[|bucket| - 1] {
      assert e in init;
      SinglesComplete(init, e);
    }
  }

  lemma {:induction false} GatheredComplete(idx: Index<string>, keys: seq<string>, i: nat, e: Entry)
    requires idx.Valid() && i < |keys| && keys[i] in idx.buckets
    requires e in idx.Bucket(keys[i]).value && ' ' !in e.pinyin
    ensures Tagged(e, PinyinSearch, false, false) in Gathered(idx, keys)
  {
    var init := keys[..|keys| - 1];
    if i < |keys| - 1 {
      assert init[i] == keys[i];
      GatheredComplete(idx, init, i, e);
    } else {
      SinglesComplete(idx.Bucket(keys[i]).value, e);
    }
  }

  /** Every single-syllable entry stored under a key that starts with the
    * letter is listed, and the search finds nothing exactly when no such
    * entry exists. */
  lemma SingleLetterComplete(idx: Index<string>, ch: char)
    requires idx.Valid()
    ensures forall k, e :: k in KeysOf(idx, ch) && e in idx.Bucket(k).value && ' ' !in e.pinyin ==>
              SingleLetter(idx, ch).Some? && Tagged(e, PinyinSearch, false, false) in SingleLetter(idx, ch).value
    ensures SingleLetter(idx, ch).None? <==>
              forall k, e :: k in KeysOf(idx, ch) && e in idx.Bucket(k).value ==> ' ' in e.pinyin
  {
    var keys := KeysOf(idx, ch);
    var sorted := Sorted(keys);
    SortedComplete(keys);
    forall k, e | k in keys && e in idx.Bucket(k).value && ' ' !in e.pinyin
      ensures SingleLetter(idx, ch).Some? && Tagged(e, PinyinSearch, false, false) in SingleLetter(idx, ch).value
    {
      var i :| 0 <= i < |sorted| && sorted[i] == k;
      GatheredComplete(idx, sorted, i, e);
    }
    if SingleLetter(idx, ch).Some? {
      var x := SingleLetter(idx, ch).value[0];
      SingleLetterShape(idx, ch, x);
    }
  }

  /** Keys are visited in ascending order. */
  lemma SingleLetterOrder(idx: Index<string>, ch: char)
    ensures forall i, j :: 0 <= i < j < |Sorted(KeysOf(idx, ch))| ==>
              LessEq(Sorted(KeysOf(idx, ch))[i], Sorted(KeysOf(idx, ch))[j])
    ensures forall k :: k in KeysOf(idx, ch) ==> k in Sorted(KeysOf(idx, ch))
  {
    SortedAscending(KeysOf(idx, ch));
    SortedComplete(KeysOf(idx, ch));
  }

  // ---------------------------------------------------------------------
  // search

  /** search: a one-character query lists single syllables; a longer one
    * looks up the bucket of its first two characters. */
  ghost function Searched(idx: Index<string>, q: string): Option<seq<SearchResult>>
    requires idx.Valid() && |q| >= 1
  {
    if |q| == 1 then SingleLetter(idx, q[0])
    else
      match idx.Bucket(Key(q))
      case None => None
      case Some(bucket) => Collected(bucket, PinyinMatcher(q))
  }

  method Search(idx: Index<string>, search: string) returns (r: Option<seq<SearchResult>>)
    requires idx.Valid() && |search| >= 1
    ensures r == Searched(idx, search)
  {
    if |search| == 1 {
      r := SingleLetterPinyinSearch(idx, search[0]);
      return;
    }
    var ind := idx.Bucket(Key(search));
    if ind.None? {
      return None;
    }
    r := Collect(ind.value, PinyinMatcher(search));
  }
}
