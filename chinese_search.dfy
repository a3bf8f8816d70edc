/** Searching in Chinese characters (DictionaryChineseSearch.java): the index
  * is keyed by the low byte of a character's code point, the search picks
  * the smallest bucket among the query's characters, and each entry is
  * matched by a walk over the query and the stored spelling that also
  * accepts the pinyin of a stored character in place of the character. */
module ChineseSearching {
  import opened Wrappers
  import opened Text
  import opened Entries
  import opened SearchResults
  import opened Searching

  /** Integer.MAX_VALUE, the starting size bound of getFromIndexMap. */
  const IntMax: int := 0x7FFF_FFFF

  // ---------------------------------------------------------------------
  // getWithCodePoint

  /** The index key of a code point: an odd code point is rounded down to
    * even, and the low 8 bits are taken as a signed byte. */
  function Key(cp: nat): (k: int)
    ensures -128 <= k < 128
  {
    var even := if cp % 2 != 0 then cp - 1 else cp;
    var low := even % 256;
    if low >= 128 then low - 256 else low
  }

  /** An odd code point shares the bucket of the even one below it. */
  lemma KeyOddEven(cp: nat)
    requires cp % 2 == 1
    ensures Key(cp) == Key(cp - 1)
  {
    assert (cp - 1) % 2 == 0;
  }

  /** The key is the low byte of the even code point, read as a signed byte. */
  lemma KeyLowByte(cp: nat)
    ensures (Key(cp) + 256) % 256 == (cp - cp % 2) % 256
  {
    var even := if cp % 2 != 0 then cp - 1 else cp;
    assert even == cp - cp % 2;
    var low := even % 256;
    if low >= 128 {
      assert Key(cp) + 256 == low;
    } else {
      assert (low + 256) % 256 == low;
    }
  }

  /** Keys are even, so only half of the byte values are used. */
  lemma KeyEven(cp: nat)
    ensures Key(cp) % 2 == 0
  {
    var even := if cp % 2 != 0 then cp - 1 else cp;
    assert even % 2 == 0;
    assert (even % 256) % 2 == 0;
  }

  /** Code points 256 apart share a bucket. */
  lemma KeyPeriodic(cp: nat)
    ensures Key(cp + 256) == Key(cp)
  {
    var even := if cp % 2 != 0 then cp - 1 else cp;
    assert (cp + 256) % 2 == cp % 2;
    assert (even + 256) % 256 == even % 256;
  }

  function GetWithCodePoint(idx: Index<int>, cp: nat): Option<seq<Entry>>
    requires idx.Valid()
  {
    idx.Bucket(Key(cp))
  }

  // ---------------------------------------------------------------------
  // getFromIndexMap: the smallest bucket

  /** The state of the selection loop: the chosen bucket, the size bound,
    * and (for the proofs) the query position the bucket was chosen at. */
  datatype Choice = Choice(result: Option<seq<Entry>>, lowest: int, at: int)

  function ChooseStep(idx: Index<int>, c: Choice, q: string, i: nat): Choice
    requires idx.Valid() && i < |q|
  {
    var cp := q[i] as nat;
    var entries := GetWithCodePoint(idx, cp);
    if cp <= CjkStart then
      if entries.Some? && c.lowest == IntMax then Choice(entries, IntMax - 1, i) else c
    else if entries.Some? && |entries.value| <= c.lowest then Choice(entries, |entries.value|, i)
    else c
  }

  /** The selection state after the first `n` characters of the query. */
  function ChooseUpTo(idx: Index<int>, q: string, n: nat): Choice
    requires idx.Valid() && n <= |q|
  {
    if n == 0 then Choice(None, IntMax, -1) else ChooseStep(idx, ChooseUpTo(idx, q, n - 1), q, n - 1)
  }

  function ChooseBucket(idx: Index<int>, q: string): Option<seq<Entry>>
    requires idx.Valid()
  {
    ChooseUpTo(idx, q, |q|).result
  }

  /** getFromIndexMap. */
  method GetFromIndexMap(idx: Index<int>, search: string) returns (r: Option<seq<Entry>>)
    requires idx.Valid()
    ensures r == ChooseBucket(idx, search)
  {
    var result: Option<seq<Entry>> := None;
    var lowestSize := IntMax;
    var i := 0;
    while i < |search|
      invariant 0 <= i <= |search|
      invariant result == ChooseUpTo(idx, search, i).result && lowestSize == ChooseUpTo(idx, search, i).lowest
    {
      var codePoint := search[i] as nat;
      var entries := GetWithCodePoint(idx, codePoint);
      if codePoint <= CjkStart {
        if entries.Some? && lowestSize == IntMax {
          result := entries;
          lowestSize := lowestSize - 1;
        }
      } else if entries.Some? && |entries.value| <= lowestSize {
        result := entries;
        lowestSize := |entries.value|;
      }
      i := i + 1;
    }
    r := result;
  }

  predicate HasBucket(idx: Index<int>, q: string, i: nat)
    requires i < |q|
  {
    Key(q[i] as nat) in idx.buckets
  }

  function Size(idx: Index<int>, q: string, i: nat): nat
    requires i < |q| && HasBucket(idx, q, i)
  {
    |idx.buckets[Key(q[i] as nat)]|
  }

  /** Some Chinese character among the first `n` has a bucket. */
  predicate CjkBucketBefore(idx: Index<int>, q: string, n: nat)
    requires n <= |q|
  {
    exists i :: 0 <= i < n && IsCjk(q[i]) && HasBucket(idx, q, i)
  }

  /** Every bucket holds fewer than Integer.MAX_VALUE - 1 entries (the file
    * stores bucket sizes in 16 bits). */
  predicate SmallBuckets(idx: Index<int>) {
    forall k :: k in idx.buckets ==> |idx.buckets[k]| < IntMax - 1
  }

  /** What the selection state says after `n` characters. */
  predicate ChoiceInv(idx: Index<int>, q: string, n: nat, c: Choice)
    requires idx.Valid() && n <= |q|
  {
    && (c.result.None? <==> forall i :: 0 <= i < n ==> !HasBucket(idx, q, i))
    && (c.result.None? ==> c.lowest == IntMax)
    && (c.result.Some? ==> 0 <= c.at < n && HasBucket(idx, q, c.at) && c.result == GetWithCodePoint(idx, q[c.at] as nat))
    && (c.result.Some? && !CjkBucketBefore(idx, q, n) ==>
          c.lowest == IntMax - 1 && forall i :: 0 <= i < c.at ==> !HasBucket(idx, q, i))
    && (CjkBucketBefore(idx, q, n) ==>
          && IsCjk(q[c.at]) && c.lowest == Size(idx, q, c.at)
          && (forall i :: 0 <= i < n && IsCjk(q[i]) && HasBucket(idx, q, i) ==> Size(idx, q, c.at) <= Size(idx, q, i))
          && (forall i :: c.at < i < n && IsCjk(q[i]) && HasBucket(idx, q, i) ==> Size(idx, q, c.at) < Size(idx, q, i)))
  }

  lemma {:induction false} ChooseInvariant(idx: Index<int>, q: string, n: nat)
    requires idx.Valid() && SmallBuckets(idx) && n <= |q|
    ensures ChoiceInv(idx, q, n, ChooseUpTo(idx, q, n))
  {
    if n > 0 {
      ChooseInvariant(idx, q, n - 1);
      var c := ChooseUpTo(idx, q, n - 1);
      var i := n - 1;
      if !IsCjk(q[i]) {
        ChooseStepPlain(idx, q, n, c);
      } else if HasBucket(idx, q, i) && Size(idx, q, i) <= c.lowest {
        ChooseStepTaken(idx, q, n, c);
      } else {
        ChooseStepKept(idx, q, n, c);
      }
    }
  }

  lemma ChooseStepPlain(idx: Index<int>, q: string, n: nat, c: Choice)
    requires idx.Valid() && SmallBuckets(idx) && 0 < n <= |q| && !IsCjk(q[n - 1])
    requires ChoiceInv(idx, q, n - 1, c)
    ensures ChoiceInv(idx, q, n, ChooseStep(idx, c, q, n - 1))
  {
    if CjkBucketBefore(idx, q, n) {
      var j :| 0 <= j < n && IsCjk(q[j]) && HasBucket(idx, q, j);
      assert CjkBucketBefore(idx, q, n - 1);
    }
    if HasBucket(idx, q, n - 1) && c.lowest == IntMax {
      assert c.result.None?;
    } else if HasBucket(idx, q, n - 1) {
      assert c.result.Some?;
      assert HasBucket(idx, q, c.at);
    }
  }

  lemma ChooseStepTaken(idx: Index<int>, q: string, n: nat, c: Choice)
    requires idx.Valid() && SmallBuckets(idx) && 0 < n <= |q| && IsCjk(q[n - 1])
    requires HasBucket(idx, q, n - 1) && Size(idx, q, n - 1) <= c.lowest
    requires ChoiceInv(idx, q, n - 1, c)
    ensures ChoiceInv(idx, q, n, ChooseStep(idx, c, q, n - 1))
  {
    assert CjkBucketBefore(idx, q, n);
  }

  lemma ChooseStepKept(idx: Index<int>, q: string, n: nat, c: Choice)
    requires idx.Valid() && SmallBuckets(idx) && 0 < n <= |q| && IsCjk(q[n - 1])
    requires !(HasBucket(idx, q, n - 1) && Size(idx, q, n - 1) <= c.lowest)
    requires ChoiceInv(idx, q, n - 1, c)
    ensures ChoiceInv(idx, q, n, ChooseStep(idx, c, q, n - 1))
  {
    if HasBucket(idx, q, n - 1) {
      assert CjkBucketBefore(idx, q, n - 1);
    }
    if CjkBucketBefore(idx, q, n) {
      assert CjkBucketBefore(idx, q, n - 1);
    }
  }

  /** getFromIndexMap gives null exactly when no character of the query has
    * a bucket; otherwise it gives the bucket of one of them. */
  lemma ChooseFound(idx: Index<int>, q: string)
    requires idx.Valid() && SmallBuckets(idx)
    ensures ChooseBucket(idx, q).None? <==> forall i :: 0 <= i < |q| ==> !HasBucket(idx, q, i)
    ensures ChooseBucket(idx, q).Some? ==>
              exists i :: 0 <= i < |q| && ChooseBucket(idx, q) == GetWithCodePoint(idx, q[i] as nat)
  {
    ChooseInvariant(idx, q, |q|);
  }

  /** When some Chinese character of the query has a bucket, the chosen
    * bucket is that of a Chinese character, no other Chinese character has
    * a smaller one, and every later Chinese character has a larger one (a
    * tie goes to the later character). */
  lemma ChooseSmallest(idx: Index<int>, q: string)
    requires idx.Valid() && SmallBuckets(idx) && CjkBucketBefore(idx, q, |q|)
    ensures exists j :: (0 <= j < |q| && IsCjk(q[j]) && HasBucket(idx, q, j)
      && ChooseBucket(idx, q) == GetWithCodePoint(idx, q[j] as nat)
      && (forall i :: 0 <= i < |q| && IsCjk(q[i]) && HasBucket(idx, q, i) ==> Size(idx, q, j) <= Size(idx, q, i))
      && (forall i :: j < i < |q| && IsCjk(q[i]) && HasBucket(idx, q, i) ==> Size(idx, q, j) < Size(idx, q, i)))
  {
    ChooseInvariant(idx, q, |q|);
    var c := ChooseUpTo(idx, q, |q|);
    assert c.result.Some?;
  }

  /** When no Chinese character has a bucket, the bucket of the first
    * character that has one is used. */
  lemma ChooseFirstOtherwise(idx: Index<int>, q: string)
    requires idx.Valid() && SmallBuckets(idx) && !CjkBucketBefore(idx, q, |q|)
    ensures ChooseBucket(idx, q).Some? ==>
      exists j :: (0 <= j < |q| && HasBucket(idx, q, j)
        && ChooseBucket(idx, q) == GetWithCodePoint(idx, q[j] as nat)
        && forall i :: 0 <= i < j ==> !HasBucket(idx, q, i))
  {
    ChooseInvariant(idx, q, |q|);
  }

  // ---------------------------------------------------------------------
  // searchMatches: the syllable of the stored pinyin for a character

  /** The number of spaces in `s`. */
  function Spaces(s: string): nat {
    if s == [] then 0 else Spaces(s[..|s| - 1]) + (if s[|s| - 1] == ' ' then 1 else 0)
  }

  /** The scan for the `syll`-th space-separated syllable, from position `i`
    * with `spaces` spaces seen so far and the syllable starting at `start`. */
  function RangeFrom(p: string, syll: nat, i: nat, spaces: nat, start: nat): (r: (nat, nat))
    requires start <= i <= |p|
    ensures start <= r.0 <= r.1 <= |p|
    decreases |p| - i
  {
    if i == |p| then (start, |p|)
    else if p[i] == ' ' then
      if spaces + 1 == syll then RangeFrom(p, syll, i + 1, spaces + 1, i + 1)
      else if spaces + 1 == syll + 1 then (start, i)
      else RangeFrom(p, syll, i + 1, spaces + 1, start)
    else RangeFrom(p, syll, i + 1, spaces, start)
  }

  /** The bounds of syllable number `syll` (from 0) of the pinyin. */
  function SyllableRange(p: string, syll: nat): (r: (nat, nat))
    ensures r.0 <= r.1 <= |p|
  {
    RangeFrom(p, syll, 0, 0, 0)
  }

  lemma SpacesSnoc(p: string, i: nat)
    requires i < |p|
    ensures Spaces(p[..i + 1]) == Spaces(p[..i]) + (if p[i] == ' ' then 1 else 0)
  {
    assert p[..i + 1][..i] == p[..i];
  }

  lemma {:induction false} RangeFromWord(p: string, syll: nat, i: nat, spaces: nat, start: nat)
    requires start <= i <= |p| && spaces == Spaces(p[..i]) && spaces <= syll <= Spaces(p)
    requires spaces < syll ==> start == 0
    requires spaces == syll ==> Spaces(p[..start]) == syll && forall j :: start <= j < i ==> p[j] != ' '
    ensures var r := RangeFrom(p, syll, i, spaces, start);
      && Spaces(p[..r.0]) == syll
      && (forall j :: r.0 <= j < r.1 ==> p[j] != ' ')
      && (r.1 == |p| || p[r.1] == ' ')
    decreases |p| - i
  {
    if i == |p| {
      assert p[..i] == p;
    } else {
      SpacesSnoc(p, i);
      if p[i] == ' ' {
        if spaces + 1 == syll {
          RangeFromWord(p, syll, i + 1, spaces + 1, i + 1);
        } else if spaces + 1 != syll + 1 {
          RangeFromWord(p, syll, i + 1, spaces + 1, start);
        }
      } else {
        RangeFromWord(p, syll, i + 1, spaces, start);
      }
    }
  }

  /** When the pinyin has at least `syll` spaces, the range is the syllable
    * after the `syll`-th space: it holds no space and ends at a space or at
    * the end of the pinyin. */
  lemma SyllableRangeWord(p: string, syll: nat)
    requires syll <= Spaces(p)
    ensures var r := SyllableRange(p, syll);
      && Spaces(p[..r.0]) == syll
      && (forall j :: r.0 <= j < r.1 ==> p[j] != ' ')
      && (r.1 == |p| || p[r.1] == ' ')
  {
    RangeFromWord(p, syll, 0, 0, 0);
  }

  lemma {:induction false} RangeFromBeyond(p: string, syll: nat, i: nat, spaces: nat)
    requires i <= |p| && spaces == Spaces(p[..i]) && Spaces(p) < syll
    ensures RangeFrom(p, syll, i, spaces, 0) == (0, |p|)
    decreases |p| - i
  {
    if i < |p| {
      SpacesSnoc(p, i);
      SpacesPrefix(p, i + 1);
      RangeFromBeyond(p, syll, i + 1, if p[i] == ' ' then spaces + 1 else spaces);
    }
  }

  lemma {:induction false} SpacesPrefix(p: string, n: nat)
    requires n <= |p|
    ensures Spaces(p[..n]) <= Spaces(p)
    decreases |p| - n
  {
    if n < |p| {
      SpacesSnoc(p, n);
      SpacesPrefix(p, n + 1);
    } else {
      assert p[..n] == p;
    }
  }

  /** A character past the last syllable of the pinyin is compared with the
    * whole pinyin. */
  lemma SyllableRangeBeyond(p: string, syll: nat)
    requires Spaces(p) < syll
    ensures SyllableRange(p, syll) == (0, |p|)
  {
    RangeFromBeyond(p, syll, 0, 0);
  }

  /** The comparison of the query from `qi` with the pinyin syllable
    * p[start..end], from offset `k`: the query position after the syllable,
    * or None when the query cannot spell it. The tone is optional, an
    * apostrophe may stand for it, and "u" must not stand for "u:". */
  function SyllableFrom(p: string, start: nat, end: nat, q: string, qi: nat, k: nat): (r: Option<nat>)
    requires start <= end <= |p|
    ensures r.Some? ==> qi <= r.value <= qi + (end - start)
    decreases end - start - k
  {
    var plen := end - start;
    if k >= plen || |q| <= qi + k then Some(qi + plen)
    else
      var sc := q[qi + k];
      var pc := p[start + k];
      if sc == '\'' && IsTone(pc) then Some(qi + plen)
      else if sc == 'u' && pc == 'u' && start + k + 1 < end && p[start + k + 1] == ':' then
        if |q| <= qi + k + 1 || q[qi + k + 1] != ':' then None
        else SyllableFrom(p, start, end, q, qi, k + 2)
      else if k == plen - 1 && IsTone(pc) then
        if sc == pc then Some(qi + plen) else Some(qi + plen - 1)
      else if !CharsEqual(sc, pc) then None
      else SyllableFrom(p, start, end, q, qi, k + 1)
  }

  /** A query that copies the syllable moves past the whole of it. */
  lemma {:induction false} SyllableCopy(p: string, start: nat, end: nat, q: string, qi: nat, k: nat)
    requires start <= end <= |p| && k <= end - start && qi + (end - start) <= |q|
    requires forall j :: qi + k <= j < qi + (end - start) ==> q[j] == p[start + j - qi]
    ensures SyllableFrom(p, start, end, q, qi, k) == Some(qi + (end - start))
    decreases end - start - k
  {
    var plen := end - start;
    if k < plen {
      var pc := p[start + k];
      if pc == 'u' && start + k + 1 < end && p[start + k + 1] == ':' {
        SyllableCopy(p, start, end, q, qi, k + 2);
      } else if !(k == plen - 1 && IsTone(pc)) {
        SyllableCopy(p, start, end, q, qi, k + 1);
      }
    }
  }

  /** The tone is optional: a query that copies the syllable but its final
    * tone, and goes on with some other character, resumes right after the
    * letters of the syllable. */
  lemma {:induction false} SyllableToneOptional(p: string, start: nat, end: nat, q: string, qi: nat, k: nat)
    requires start < end <= |p| && IsTone(p[end - 1]) && k <= end - start - 1
    requires qi + (end - start) <= |q| && q[qi + (end - start) - 1] != p[end - 1] && q[qi + (end - start) - 1] != '\''
    requires forall j :: qi + k <= j < qi + (end - start) - 1 ==> q[j] == p[start + j - qi]
    ensures SyllableFrom(p, start, end, q, qi, k) == Some(qi + (end - start) - 1)
    decreases end - start - k
  {
    var plen := end - start;
    var pc := p[start + k];
    if k < plen - 1 {
      if pc == 'u' && start + k + 1 < end && p[start + k + 1] == ':' {
        SyllableToneOptional(p, start, end, q, qi, k + 2);
      } else {
        SyllableToneOptional(p, start, end, q, qi, k + 1);
      }
    }
  }

  // ---------------------------------------------------------------------
  // searchMatches: the walk over the query and the stored spelling

  /** The matching walk of searchMatches from query position `qi`, stored
    * position `si` (the same for the simplified and the traditional
    * spelling) and `syll` characters consumed so far. */
  function Walk(e: Entry, q: string, qi: nat, si: nat, syll: nat): bool
    decreases |e.simplified| - si, |q| - qi
  {
    if qi >= |q| then true
    else if si >= |e.simplified| || si >= |e.traditional| then false
    else
      var c := q[qi];
      var s := e.simplified[si];
      var t := e.traditional[si];
      if c == '*' then Walk(e, q, qi + 1, si + 1, syll + 1)
      else if c == '\'' then Walk(e, q, qi + 1, si, syll)
      else if c as int <= CjkStart && IsCjk(s) && IsCjk(t) then
        var range := SyllableRange(e.pinyin, syll);
        match SyllableFrom(e.pinyin, range.0, range.1, q, qi, 0)
        case None => false
        case Some(next) => Walk(e, q, next, si + 1, syll + 1)
      else if c as int <= CjkStart then CharsEqual(c, s) && Walk(e, q, qi + 1, si + 1, syll + 1)
      else (c == s || c == t) && Walk(e, q, qi + 1, si + 1, syll + 1)
  }

  /** The result of searchMatches for one entry: never a full match. */
  function ChineseMatch(e: Entry, q: string): (r: Option<SearchResult>)
    ensures r.Some? ==> r.value == Tagged(e, ChineseSearch, false, false)
  {
    if Walk(e, q, 0, 0, 0) then Some(Tagged(e, ChineseSearch, false, false)) else None
  }

  /** The syllable-range loop of searchMatches. */
  method FindSyllable(pinyin: string, syllableCount: nat) returns (rangeStart: nat, rangeEnd: nat)
    ensures (rangeStart, rangeEnd) == SyllableRange(pinyin, syllableCount)
  {
    var spaceCount := 0;
    rangeStart, rangeEnd := 0, |pinyin|;
    var i := 0;
    while i < rangeEnd
      invariant rangeStart <= i <= rangeEnd == |pinyin|
      invariant RangeFrom(pinyin, syllableCount, i, spaceCount, rangeStart) == SyllableRange(pinyin, syllableCount)
    {
      if pinyin[i] == ' ' {
        spaceCount := spaceCount + 1;
        if spaceCount == syllableCount {
          rangeStart := i + 1;
        } else if spaceCount == syllableCount + 1 {
          rangeEnd := i;
          break;
        }
      }
      i := i + 1;
    }
  }

  /** The syllable-comparison loop of searchMatches: the query position
    * after the syllable, or None where searchMatches gives null. */
  method MatchSyllable(pinyin: string, rangeStart: nat, rangeEnd: nat, search: string, searchI: nat)
    returns (next: Option<nat>)
    requires rangeStart <= rangeEnd <= |pinyin|
    ensures next == SyllableFrom(pinyin, rangeStart, rangeEnd, search, searchI, 0)
  {
    var len := |search|;
    var pinyinLen := rangeEnd - rangeStart;
    var back := 0;
    var k := 0;
    while k < pinyinLen
      invariant k <= pinyinLen
      invariant SyllableFrom(pinyin, rangeStart, rangeEnd, search, searchI, k)
             == SyllableFrom(pinyin, rangeStart, rangeEnd, search, searchI, 0)
      invariant back == 0
    {
      if len <= searchI + k {
        break;
      }
      var sC := search[searchI + k];
      var pC := pinyin[k + rangeStart];
      if sC == '\'' && IsTone(pC) {
        break;
      }
      if sC == 'u' && pC == 'u' && k + rangeStart + 1 < rangeEnd && pinyin[k + rangeStart + 1] == ':' {
        if len <= searchI + k + 1 || search[searchI + k + 1] != ':' {
          return None;
        }
        k := k + 2;
        continue;
      }
      if k == pinyinLen - 1 && IsTone(pC) {
        if sC != pC {
          back := 1;
        }
        break;
      }
      if !CharsEqual(sC, pC) {
        return None;
      }
      k := k + 1;
    }
    next := Some(searchI + pinyinLen - back);
  }

  /** searchMatches. */
  method SearchMatches(entry: Entry, search: string) returns (r: Option<SearchResult>)
    ensures r == ChineseMatch(entry, search)
  {
    var len := |search|;
    var entryLen := |entry.simplified|;
    var searchI: nat, smplI: nat, syllableCount: nat := 0, 0, 0;
    while searchI < len
      invariant Walk(entry, search, searchI, smplI, syllableCount) == Walk(entry, search, 0, 0, 0)
      decreases entryLen - smplI, len - searchI
    {
      if smplI >= entryLen || smplI >= |entry.traditional| {
        return None;
      }
      var searchC := search[searchI];
      var smplC := entry.simplified[smplI];
      var tradC := entry.traditional[smplI];
      if searchC == '*' {
        searchI, smplI, syllableCount := searchI + 1, smplI + 1, syllableCount + 1;
        continue;
      } else if searchC == '\'' {
        searchI := searchI + 1;
        continue;
      }
      if searchC as int <= CjkStart && smplC as int > CjkStart && tradC as int > CjkStart {
        var rangeStart, rangeEnd := FindSyllable(entry.pinyin, syllableCount);
        var next := MatchSyllable(entry.pinyin, rangeStart, rangeEnd, search, searchI);
        if next.None? {
          return None;
        }
        searchI, smplI, syllableCount := next.value, smplI + 1, syllableCount + 1;
        continue;
      } else if searchC as int <= CjkStart {
        if !CharsEqual(searchC, smplC) {
          return None;
        }
        searchI, smplI, syllableCount := searchI + 1, smplI + 1, syllableCount + 1;
        continue;
      }
      if searchC != smplC && searchC != tradC {
        return None;
      }
      searchI, smplI, syllableCount := searchI + 1, smplI + 1, syllableCount + 1;
    }
    r := Some(Tagged(entry, ChineseSearch, false, false));
  }

  function ChineseMatcher(q: string): Entry -> Option<SearchResult> {
    e => ChineseMatch(e, q)
  }

  /** search on the Chinese index: the smallest bucket among the query's
    * characters, then every entry of it that the walk accepts. */
  function Searched(idx: Index<int>, q: string): Option<seq<SearchResult>>
    requires idx.Valid()
  {
    match ChooseBucket(idx, q)
    case None => None
    case Some(bucket) => Collected(bucket, ChineseMatcher(q))
  }

  method Search(idx: Index<int>, search: string) returns (r: Option<seq<SearchResult>>)
    requires idx.Valid()
    ensures r == Searched(idx, search)
  {
    var ind := GetFromIndexMap(idx, search);
    if ind.None? {
      return None;
    }
    r := Collect(ind.value, ChineseMatcher(search));
  }

  // ---------------------------------------------------------------------
  // Properties of the walk

  /** A query of Chinese characters and wildcards. */
  predicate Positional(q: string) {
    forall k :: 0 <= k < |q| ==> q[k] == '*' || IsCjk(q[k])
  }

  /** Both spellings are at least as long as the query from `i` on, and
    * every Chinese character of it equals the simplified or the traditional
    * character at the same position. */
  predicate SpelledFrom(e: Entry, q: string, i: nat) {
    && |q| <= |e.simplified| && |q| <= |e.traditional|
    && forall k :: i <= k < |q| && q[k] != '*' ==> q[k] == e.simplified[k] || q[k] == e.traditional[k]
  }

  lemma {:induction false} PositionalWalk(e: Entry, q: string, i: nat)
    requires Positional(q) && i <= |q| && i <= |e.simplified| && i <= |e.traditional|
    ensures Walk(e, q, i, i, i) <==> SpelledFrom(e, q, i)
    decreases |q| - i
  {
    if i < |q| && i < |e.simplified| && i < |e.traditional| {
      PositionalWalk(e, q, i + 1);
    }
  }

  /** A query of Chinese characters and wildcards matches exactly when each
    * of its Chinese characters is the simplified or the traditional
    * character at its position, and neither spelling is shorter than the
    * query (so a longer query never matches). */
  lemma PositionalMatch(e: Entry, q: string)
    requires Positional(q)
    ensures ChineseMatch(e, q).Some? <==> SpelledFrom(e, q, 0)
  {
    PositionalWalk(e, q, 0);
  }

  /** Pinyin between Chinese characters: where both stored characters are
    * Chinese and the query copies the whole syllable of the pinyin for that
    * character, the walk goes on after the syllable and the character. */
  lemma WalkPinyinSyllable(e: Entry, q: string, qi: nat, si: nat, syll: nat)
    requires si < |e.simplified| && si < |e.traditional|
    requires IsCjk(e.simplified[si]) && IsCjk(e.traditional[si])
    requires var r := SyllableRange(e.pinyin, syll);
      && r.0 < r.1 && qi + (r.1 - r.0) <= |q|
      && (forall j :: qi <= j < qi + (r.1 - r.0) ==> q[j] == e.pinyin[r.0 + j - qi])
      && e.pinyin[r.0] as int <= CjkStart && e.pinyin[r.0] != '*' && e.pinyin[r.0] != '\''
    ensures var r := SyllableRange(e.pinyin, syll);
      Walk(e, q, qi, si, syll) == Walk(e, q, qi + (r.1 - r.0), si + 1, syll + 1)
  {
    var r := SyllableRange(e.pinyin, syll);
    SyllableCopy(e.pinyin, r.0, r.1, q, qi, 0);
  }
}
