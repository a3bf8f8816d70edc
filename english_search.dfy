/** Searching in English (DictionaryEnglishSearch.java): the query is reduced
  * to lower-case letters, digits and single spaces, the index is keyed by
  * the first three letters of its first word, and each normalised
  * definition of an entry is scanned for the query starting at a word. */
module EnglishSearching {
  import opened Wrappers
  import opened Text
  import opened Entries
  import opened SearchResults
  import opened Searching

  // ---------------------------------------------------------------------
  // getFromIndexMap

  /** The query up to its first space. */
  function FirstWord(s: string): (w: string)
    ensures |w| <= |s| && w == s[..|w|] && ' ' !in w
    ensures |w| < |s| ==> s[|w|] == ' '
  {
    if s == [] || s[0] == ' ' then [] else [s[0]] + FirstWord(s[1..])
  }

  /** The index key: the first word cut to three characters, or None when
    * the first word is empty. */
  function Key(q: string): (k: Option<string>)
    ensures k.None? <==> FirstWord(q) == []
    ensures k.Some? ==> 1 <= |k.value| <= 3 && |k.value| <= |q| && k.value == q[..|k.value|] && ' ' !in k.value
    ensures k.Some? && |k.value| < 3 ==> k.value == FirstWord(q)
  {
    var word := FirstWord(q);
    if word == [] then None
    else if |word| > 3 then Some(word[..3])
    else Some(word)
  }

  function BucketOf(idx: Index<string>, q: string): (r: Option<seq<Entry>>)
    requires idx.Valid()
    ensures Key(q).None? ==> r.None?
    ensures Key(q).Some? ==> r == idx.Bucket(Key(q).value)
  {
    match Key(q)
    case None => None
    case Some(k) => idx.Bucket(k)
  }

  // ---------------------------------------------------------------------
  // removeDiacritics

  /** The first character of the canonical decomposition (NFD) of a
    * character, for ASCII and the letters of Latin-1; other characters are
    * kept. */
  function BaseLetter(c: char): (r: char)
    ensures c as int <= 127 ==> r == c
    ensures r != c ==> 'A' <= r <= 'Z' || 'a' <= r <= 'z'
  {
    var v := c as int;
    if v <= 127 then c
    else if 0xC0 <= v <= 0xC5 then 'A'
    else if v == 0xC7 then 'C'
    else if 0xC8 <= v <= 0xCB then 'E'
    else if 0xCC <= v <= 0xCF then 'I'
    else if v == 0xD1 then 'N'
    else if 0xD2 <= v <= 0xD6 then 'O'
    else if 0xD9 <= v <= 0xDC then 'U'
    else if v == 0xDD then 'Y'
    else if 0xE0 <= v <= 0xE5 then 'a'
    else if v == 0xE7 then 'c'
    else if 0xE8 <= v <= 0xEB then 'e'
    else if 0xEC <= v <= 0xEF then 'i'
    else if v == 0xF1 then 'n'
    else if 0xF2 <= v <= 0xF6 then 'o'
    else if 0xF9 <= v <= 0xFC then 'u'
    else if v == 0xFD || v == 0xFF then 'y'
    else c
  }

  /** The string with every character replaced by its base letter. */
  function Stripped(s: string): (r: string)
    ensures |r| == |s|
  {
    if s == [] then [] else Stripped(s[..|s| - 1]) + [BaseLetter(s[|s| - 1])]
  }

  lemma {:induction false} StrippedAt(s: string, i: nat)
    requires i < |s|
    ensures Stripped(s)[i] == BaseLetter(s[i])
    decreases |s|
  {
    if i < |s| - 1 {
      StrippedAt(s[..|s| - 1], i);
    }
  }

  /** removeDiacritics leaves ASCII text unchanged. */
  lemma {:induction false} StrippedAscii(s: string)
    requires forall i :: 0 <= i < |s| ==> s[i] as int <= 127
    ensures Stripped(s) == s
  {
    if s != [] {
      StrippedAscii(s[..|s| - 1]);
      assert s == s[..|s| - 1] + [s[|s| - 1]];
    }
  }

  /** removeDiacritics. */
  method RemoveDiacritics(str: string) returns (r: string)
    ensures r == Stripped(str)
  {
    r := [];
    var i := 0;
    while i < |str|
      invariant i <= |str| && r == Stripped(str[..i])
    {
      assert str[..i + 1][..i] == str[..i];
      if str[i] as int <= 127 {
        r := r + [str[i]];
      } else {
        r := r + [BaseLetter(str[i])];
      }
      i := i + 1;
    }
    assert str[..i] == str;
  }

  // ---------------------------------------------------------------------
  // formatEngSearch

  predicate IsWordChar(c: char) {
    'a' <= c <= 'z' || '0' <= c <= '9'
  }

  /** The builder after the first `n` characters: letters and digits are
    * kept, a space only after a kept character that is not a space, and
    * everything else is dropped. */
  function EngBuilt(s: string, n: nat): string
    requires n <= |s|
  {
    if n == 0 then []
    else
      var sb := EngBuilt(s, n - 1);
      var ch := s[n - 1];
      if ch as int >= 127 then sb
      else if IsWordChar(ch) then sb + [ch]
      else if ch == ' ' && sb != [] && sb[|sb| - 1] != ' ' then sb + [' ']
      else sb
  }

  /** The builder without its trailing spaces. */
  function TrimEnd(sb: string): (r: string)
    ensures |r| <= |sb| && r == sb[..|r|]
    ensures r != [] ==> r[|r| - 1] != ' '
    ensures forall k :: |r| <= k < |sb| ==> sb[k] == ' '
  {
    if sb != [] && sb[|sb| - 1] == ' ' then TrimEnd(sb[..|sb| - 1]) else sb
  }

  /** The normalised English query. */
  function FormattedEng(s: string): string {
    var str := LowerString(Stripped(s));
    TrimEnd(EngBuilt(str, |str|))
  }

  /** formatEngSearch. */
  method FormatEngSearch(search: string) returns (r: string)
    ensures r == FormattedEng(search)
  {
    var stripped := RemoveDiacritics(search);
    var str := LowerString(stripped);
    var sb: string := [];
    var i := 0;
    while i < |str|
      invariant i <= |str| && sb == EngBuilt(str, i)
    {
      var ch := str[i];
      if ch as int >= 127 {
        i := i + 1;
        continue;
      }
      if IsWordChar(ch) {
        sb := sb + [ch];
      } else if ch == ' ' {
        if !(|sb| == 0 || sb[|sb| - 1] == ' ') {
          sb := sb + [' '];
        }
      }
      i := i + 1;
    }
    while |sb| > 0 && sb[|sb| - 1] == ' '
      invariant TrimEnd(sb) == TrimEnd(EngBuilt(str, |str|))
    {
      sb := sb[..|sb| - 1];
    }
    r := sb;
  }

  /** The builder holds letters, digits and spaces, does not start with a
    * space and never has two spaces in a row. */
  predicate Clean(sb: string) {
    && (forall k :: 0 <= k < |sb| ==> IsWordChar(sb[k]) || sb[k] == ' ')
    && (sb != [] ==> sb[0] != ' ')
    && (forall k :: 0 < k < |sb| && sb[k] == ' ' ==> sb[k - 1] != ' ')
  }

  /** The shape of a normalised English query: a clean string that does not
    * end with a space. */
  predicate EngNormal(r: string) {
    Clean(r) && (r != [] ==> r[|r| - 1] != ' ')
  }

  lemma {:induction false} EngBuiltClean(s: string, n: nat)
    requires n <= |s|
    ensures Clean(EngBuilt(s, n))
  {
    if n > 0 {
      EngBuiltClean(s, n - 1);
    }
  }

  lemma CleanPrefix(sb: string, n: nat)
    requires Clean(sb) && n <= |sb|
    ensures Clean(sb[..n])
  {
    var p := sb[..n];
    assert forall k :: 0 <= k < n ==> p[k] == sb[k];
  }

  /** formatEngSearch output holds only a-z, 0-9 and single spaces, with no
    * leading or trailing space. */
  lemma FormattedEngNormal(s: string)
    ensures EngNormal(FormattedEng(s))
  {
    var str := LowerString(Stripped(s));
    var sb := EngBuilt(str, |str|);
    EngBuiltClean(str, |str|);
    CleanPrefix(sb, |TrimEnd(sb)|);
  }

  lemma {:induction false} EngBuiltPrefix(r: string, n: nat)
    requires EngNormal(r) && n <= |r|
    ensures EngBuilt(r, n) == r[..n]
  {
    if n > 0 {
      EngBuiltPrefix(r, n - 1);
      assert r[..n] == r[..n - 1] + [r[n - 1]];
    }
  }

  lemma CleanLower(r: string)
    requires Clean(r)
    ensures forall i :: 0 <= i < |r| ==> r[i] as int <= 127
    ensures LowerString(r) == r
  {
    var l := LowerString(r);
    assert forall i :: 0 <= i < |r| ==> l[i] == r[i];
  }

  /** A query already in normal shape is left unchanged. */
  lemma EngNormalFixed(r: string)
    requires EngNormal(r)
    ensures FormattedEng(r) == r
  {
    CleanLower(r);
    StrippedAscii(r);
    EngBuiltPrefix(r, |r|);
    assert r[..|r|] == r;
    assert EngBuilt(r, |r|) == r;
    assert TrimEnd(r) == r;
  }

  /** Normalising twice is normalising once. */
  lemma FormattedEngIdempotent(s: string)
    ensures FormattedEng(FormattedEng(s)) == FormattedEng(s)
  {
    FormattedEngNormal(s);
    EngNormalFixed(FormattedEng(s));
  }

  // ---------------------------------------------------------------------
  // searchMatches: the scan of one definition

  /** A match inside one definition: whether it is full, and the begin and
    * end indexes of the highlighted span. */
  datatype Hit = Hit(full: bool, begin: int, end: int)

  /** The first position from `j` on holding a space or a full stop. */
  function NextBreak(def: string, j: nat): (r: Option<nat>)
    ensures r.Some? ==> j <= r.value < |def| && (def[r.value] == ' ' || def[r.value] == '.')
                        && forall k :: j <= k < r.value ==> def[k] != ' ' && def[k] != '.'
    ensures r.None? ==> forall k :: j <= k < |def| ==> def[k] != ' ' && def[k] != '.'
    decreases |def| - j
  {
    if j >= |def| then None
    else if def[j] == ' ' || def[j] == '.' then Some(j)
    else NextBreak(def, j + 1)
  }

  /** The end of a scan that has used up the query at definition position
    * `defI`. */
  function Finish(def: string, defI: nat, begin: int, prevIsBegin: bool): (h: Hit)
    ensures h.full <==> defI >= |def| || def[defI] == ' ' || def[defI] == '.'
    ensures h.end == defI - 1
  {
    var b := if prevIsBegin then begin + 1 else begin;
    if defI >= |def| then Hit(true, b, defI - 1)
    else Hit(def[defI] == ' ' || def[defI] == '.', b, defI - 1)
  }

  /** The scan of searchMatches over one definition, from definition
    * position `defI` and query position `searchI`. */
  function Scan(def: string, q: string, defI: nat, searchI: nat, begin: int, prevSpace: bool, prevIsBegin: bool): Option<Hit>
    decreases |def| - defI
  {
    if searchI >= |q| then Some(Finish(def, defI, begin, prevIsBegin))
    else if defI >= |def| then None
    else
      var d := def[defI];
      var c := q[searchI];
      if d == '.' then
        Scan(def, q, defI + 1, if c == ' ' then searchI + 1 else searchI,
             if prevIsBegin then begin + 1 else begin, prevSpace || c == ' ', prevIsBegin)
      else if prevSpace && d == ' ' then Scan(def, q, defI + 1, searchI, begin, prevSpace, prevIsBegin)
      else if d != c then
        match NextBreak(def, defI + 1)
        case None => None
        case Some(j) => Scan(def, q, j + 1, 0, j + 1, d == ' ', true)
      else Scan(def, q, defI + 1, searchI + 1, begin, d == ' ', false)
  }

  function DefMatch(def: string, q: string): Option<Hit> {
    Scan(def, q, 0, 0, 0, false, true)
  }

  // ---------------------------------------------------------------------
  // What a hit means: the highlighted span reads as the query

  /** One definition character read against the query at position `s`,
    * where `space` says the character before was a space (or a full stop
    * standing for one). A full stop stands for a space of the query or is
    * passed over; a space after a space is passed over; any other
    * character must be the next query character. */
  function ReadStep(d: char, q: string, s: nat, space: bool): Option<(nat, bool)> {
    if d == '.' then
      if s < |q| && q[s] == ' ' then Some((s + 1, true)) else Some((s, space))
    else if space && d == ' ' then Some((s, space))
    else if s < |q| && d == q[s] then Some((s + 1, d == ' '))
    else None
  }

  /** Reading `def[lo..hi]` from query position `s`: the query position
    * reached and whether the last character read was a space, or None
    * when a character does not fit. */
  function ReadFrom(def: string, lo: nat, hi: nat, q: string, s: nat, space: bool): Option<(nat, bool)>
    requires lo <= hi <= |def|
    decreases hi
  {
    if hi == lo then Some((s, space))
    else match ReadFrom(def, lo, hi - 1, q, s, space)
      case None => None
      case Some(r) => ReadStep(def[hi - 1], q, r.0, r.1)
  }

  /** `def[lo..hi]` reads as the whole query. */
  predicate Reads(def: string, lo: nat, hi: nat, q: string, space: bool)
    requires lo <= hi <= |def|
  {
    var r := ReadFrom(def, lo, hi, q, 0, space);
    r.Some? && r.value.0 == |q|
  }

  /** A character passed over before the first query character. */
  predicate Skip(d: char, space: bool) {
    d == '.' || (space && d == ' ')
  }

  /** What the hit of a definition promises: its span lies inside the
    * definition and starts a word, it reads as the query, and it is full
    * exactly when it ends at the end of a word. */
  predicate HitOk(def: string, q: string, h: Hit) {
    && 0 <= h.begin <= h.end < |def|
    && (h.begin == 0 || def[h.begin - 1] == ' ' || def[h.begin - 1] == '.')
    && (Reads(def, h.begin, h.end + 1, q, false) || Reads(def, h.begin, h.end + 1, q, true))
    && (h.full <==> h.end + 1 == |def| || def[h.end + 1] == ' ' || def[h.end + 1] == '.')
  }

  lemma {:induction false} SkipsRead(def: string, lo: nat, hi: nat, q: string, space: bool)
    requires q != [] && q[0] != ' ' && lo <= hi <= |def|
    requires forall k :: lo <= k < hi ==> Skip(def[k], space)
    ensures ReadFrom(def, lo, hi, q, 0, space) == Some((0, space))
    decreases hi
  {
    if hi > lo {
      SkipsRead(def, lo, hi - 1, q, space);
    }
  }

  lemma {:induction false} ReadPrefix(def: string, lo: nat, i: nat, hi: nat, q: string, s: nat, space: bool)
    requires lo <= i <= hi <= |def| && ReadFrom(def, lo, hi, q, s, space).Some?
    ensures ReadFrom(def, lo, i, q, s, space).Some?
    decreases hi
  {
    if i < hi {
      ReadPrefix(def, lo, i, hi - 1, q, s, space);
    }
  }

  /** Soundness of the scan from any of its states: `start` is how the
    * attempt in progress began, the span from `begin` to `defI` has read
    * the query up to `searchI`, and while no character has matched yet
    * the span holds only characters passed over. */
  lemma {:induction false} ScanSound(def: string, q: string, defI: nat, searchI: nat, begin: int,
                                     prevSpace: bool, prevIsBegin: bool, start: bool)
    requires q != [] && q[0] != ' '
    requires defI <= |def| && searchI <= |q| && 0 <= begin <= defI
    requires begin == 0 || def[begin - 1] == ' ' || def[begin - 1] == '.'
    requires prevIsBegin ==> searchI == 0 && prevSpace == start
                             && forall k :: begin <= k < defI ==> Skip(def[k], prevSpace)
    requires !prevIsBegin ==> ReadFrom(def, begin, defI, q, 0, start) == Some((searchI, prevSpace))
    ensures Scan(def, q, defI, searchI, begin, prevSpace, prevIsBegin).Some? ==>
              HitOk(def, q, Scan(def, q, defI, searchI, begin, prevSpace, prevIsBegin).value)
    decreases |def| - defI
  {
    if searchI >= |q| {
      assert !prevIsBegin;
      assert Reads(def, begin, defI, q, start);
    } else if defI < |def| {
      var d, c := def[defI], q[searchI];
      if d == '.' {
        if prevIsBegin {
          ScanSound(def, q, defI + 1, searchI, begin + 1, prevSpace, prevIsBegin, start);
        } else {
          ScanSound(def, q, defI + 1, if c == ' ' then searchI + 1 else searchI, begin,
                    prevSpace || c == ' ', prevIsBegin, start);
        }
      } else if prevSpace && d == ' ' {
        ScanSound(def, q, defI + 1, searchI, begin, prevSpace, prevIsBegin, start);
      } else if d != c {
        match NextBreak(def, defI + 1)
        case None =>
        case Some(j) => ScanSound(def, q, j + 1, 0, j + 1, d == ' ', true, d == ' ');
      } else {
        if prevIsBegin {
          SkipsRead(def, begin, defI, q, prevSpace);
        }
        ScanSound(def, q, defI + 1, searchI + 1, begin, d == ' ', false, start);
      }
    }
  }

  /** Completeness of the scan from any of its states: if the attempt in
    * progress can go on reading the query to its end, the scan finds a
    * hit. */
  lemma {:induction false} ScanComplete(def: string, q: string, lo: nat, k: nat, defI: nat, searchI: nat,
                                        begin: int, prevSpace: bool, prevIsBegin: bool, start: bool)
    requires lo <= defI <= k <= |def|
    requires ReadFrom(def, lo, defI, q, 0, start) == Some((searchI, prevSpace))
    requires Reads(def, lo, k, q, start)
    ensures Scan(def, q, defI, searchI, begin, prevSpace, prevIsBegin).Some?
    decreases |def| - defI
  {
    if searchI < |q| {
      if defI == k {
        assert false;
      }
      ReadPrefix(def, lo, defI + 1, k, q, 0, start);
      var d, c := def[defI], q[searchI];
      if d == '.' {
        ScanComplete(def, q, lo, k, defI + 1, if c == ' ' then searchI + 1 else searchI,
                     if prevIsBegin then begin + 1 else begin, prevSpace || c == ' ', prevIsBegin, start);
      } else if prevSpace && d == ' ' {
        ScanComplete(def, q, lo, k, defI + 1, searchI, begin, prevSpace, prevIsBegin, start);
      } else {
        ScanComplete(def, q, lo, k, defI + 1, searchI + 1, begin, d == ' ', false, start);
      }
    }
  }

  /** Every hit of a definition is a span that starts a word, reads as the
    * query and is full exactly at the end of a word (a formatted query
    * never starts with a space). */
  lemma DefMatchSound(def: string, q: string)
    requires q != [] && q[0] != ' '
    ensures DefMatch(def, q).Some? ==> HitOk(def, q, DefMatch(def, q).value)
  {
    ScanSound(def, q, 0, 0, 0, false, true, false);
  }

  /** A definition whose beginning reads as the query always has a hit;
    * so a definition without a hit has no beginning that reads as the
    * query. */
  lemma DefMatchComplete(def: string, q: string)
    ensures (exists k :: 0 <= k <= |def| && Reads(def, 0, k, q, false)) ==> DefMatch(def, q).Some?
    ensures DefMatch(def, q).None? ==> forall k :: 0 <= k <= |def| ==> !Reads(def, 0, k, q, false)
  {
    if k :| 0 <= k <= |def| && Reads(def, 0, k, q, false) {
      ScanComplete(def, q, 0, k, 0, 0, 0, false, true, false);
    }
  }

  /** After a mismatch the scan restarts after the next break that follows
    * the mismatch, not after the word where the attempt began: "ab c" is
    * not found in "ab ab c", although it occurs there at a word start. */
  lemma RestartSkipsOverlap()
    ensures DefMatch("ab ab c", "ab c").None?
  {
    var d, q := "ab ab c", "ab c";
    assert NextBreak(d, 4) == Some(5);
    assert NextBreak(d, 7) == None;
    assert Scan(d, q, 6, 0, 6, false, true).None?;
    assert Scan(d, q, 3, 3, 0, true, false).None?;
  }

  /** A full stop in the definition is skipped and stands for a space of
    * the query. */
  lemma StopMatchesSpace()
    ensures DefMatch("to.be", "to be") == Some(Hit(true, 0, 4))
  {
    var d, q := "to.be", "to be";
    assert Scan(d, q, 3, 3, 0, true, false) == Some(Hit(true, 0, 4));
  }

  /** After a mismatch the query is matched again from the next word; the
    * span begins at that word. */
  lemma LaterWordMatches()
    ensures DefMatch("to be", "be") == Some(Hit(true, 3, 4))
  {
    var d, q := "to be", "be";
    assert NextBreak(d, 1) == Some(2);
    assert Scan(d, q, 3, 0, 3, false, true) == Some(Hit(true, 3, 4));
  }

  /** The scan loop of searchMatches for one definition. */
  method MatchDefinition(def: string, search: string) returns (h: Option<Hit>)
    ensures h == DefMatch(def, search)
    ensures search != [] && search[0] != ' ' && h.Some? ==> HitOk(def, search, h.value)
  {
    var defLen, defI, searchLen, searchI, beginIndex := |def|, 0, |search|, 0, 0;
    var prevCharIsSpace, prevIsBegin := false, true;
    while true
      invariant Scan(def, search, defI, searchI, beginIndex, prevCharIsSpace, prevIsBegin) == DefMatch(def, search)
      decreases defLen - defI
    {
      if searchI >= searchLen {
        break;
      }
      if defI >= defLen {
        return None;
      }
      var defC := def[defI];
      var searchC := search[searchI];
      if defC == '.' {
        if searchC == ' ' {
          prevCharIsSpace := true;
          searchI := searchI + 1;
        }
        if prevIsBegin {
          beginIndex := beginIndex + 1;
        }
        defI := defI + 1;
        continue;
      }
      if prevCharIsSpace && defC == ' ' {
        defI := defI + 1;
        continue;
      }
      prevCharIsSpace := defC == ' ';
      if defC != searchC {
        var j := defI + 1;
        while j < defLen && def[j] != ' ' && def[j] != '.'
          invariant j <= defLen || j == defI + 1
          invariant NextBreak(def, j) == NextBreak(def, defI + 1)
        {
          j := j + 1;
        }
        if j >= defLen {
          return None;
        }
        defI, searchI, beginIndex, prevIsBegin := j + 1, 0, j + 1, true;
        continue;
      }
      prevIsBegin := false;
      defI, searchI := defI + 1, searchI + 1;
    }
    if prevIsBegin {
      beginIndex := beginIndex + 1;
    }
    var fullMatch := false;
    if defI >= defLen {
      fullMatch := true;
    } else {
      var lastChar := def[defI];
      if lastChar == ' ' || lastChar == '.' {
        fullMatch := true;
      }
    }
    h := Some(Hit(fullMatch, beginIndex, defI - 1));
    if search != [] && search[0] != ' ' {
      DefMatchSound(def, search);
    }
  }

  // ---------------------------------------------------------------------
  // searchMatches: over the definitions

  function HitResult(e: Entry, i: nat, h: Hit): (r: SearchResult)
    ensures r.entry == e && r.kind == EnglishSearch && r.isFullMatch == h.full && !r.isFirstOfSplitGroup
    ensures r.definition == i && r.beginIndex == h.begin && r.endIndex == h.end
  {
    SearchResult(e, EnglishSearch, h.full, false, i, h.begin, h.end)
  }

  /** The definitions from `i` on, with `found` the last partial match
    * before `i`: the first full match wins, otherwise the last partial
    * one. */
  function MatchFrom(e: Entry, q: string, i: nat, found: Option<SearchResult>): Option<SearchResult>
    decreases |e.normalizedDefinitions| - i
  {
    if i >= |e.normalizedDefinitions| then found
    else
      match DefMatch(e.normalizedDefinitions[i], q)
      case None => MatchFrom(e, q, i + 1, found)
      case Some(h) =>
        if h.full then Some(HitResult(e, i, h)) else MatchFrom(e, q, i + 1, Some(HitResult(e, i, h)))
  }

  function EnglishMatch(e: Entry, q: string): Option<SearchResult> {
    MatchFrom(e, q, 0, None)
  }

  /** searchMatches. */
  method SearchMatches(entry: Entry, search: string) returns (r: Option<SearchResult>)
    ensures r == EnglishMatch(entry, search)
  {
    var result: Option<SearchResult> := None;
    var defs := entry.normalizedDefinitions;
    var i := 0;
    while i < |defs|
      invariant i <= |defs|
      invariant MatchFrom(entry, search, i, result) == EnglishMatch(entry, search)
    {
      var h := MatchDefinition(defs[i], search);
      if h.Some? {
        result := Some(HitResult(entry, i, h.value));
        if h.value.full {
          return result;
        }
      }
      i := i + 1;
    }
    r := result;
  }

  function EnglishMatcher(q: string): Entry -> Option<SearchResult> {
    e => EnglishMatch(e, q)
  }

  /** search: the query is normalised, then the bucket of its first word is
    * searched. */
  function Searched(idx: Index<string>, q: string): Option<seq<SearchResult>>
    requires idx.Valid()
  {
    var f := FormattedEng(q);
    match BucketOf(idx, f)
    case None => None
    case Some(bucket) => Collected(bucket, EnglishMatcher(f))
  }

  method Search(idx: Index<string>, search: string) returns (r: Option<seq<SearchResult>>)
    requires idx.Valid()
    ensures r == Searched(idx, search)
  {
    var f := FormatEngSearch(search);
    var ind := BucketOf(idx, f);
    if ind.None? {
      return None;
    }
    r := Collect(ind.value, EnglishMatcher(f));
  }

  // ---------------------------------------------------------------------
  // Properties of the scan

  predicate IsFullHit(h: Option<Hit>) {
    h.Some? && h.value.full
  }

  /** What the result invariant of the definition loop says about
    * `found` at definition `i`. */
  predicate FoundBefore(e: Entry, q: string, i: nat, found: Option<SearchResult>)
    requires i <= |e.normalizedDefinitions|
  {
    var defs := e.normalizedDefinitions;
    && (forall k :: 0 <= k < i ==> !IsFullHit(DefMatch(defs[k], q)))
    && (found.None? <==> forall k :: 0 <= k < i ==> DefMatch(defs[k], q).None?)
    && (found.Some? ==>
          && 0 <= found.value.definition < i
          && DefMatch(defs[found.value.definition], q).Some?
          && found.value == HitResult(e, found.value.definition, DefMatch(defs[found.value.definition], q).value)
          && forall k :: found.value.definition < k < i ==> DefMatch(defs[k], q).None?)
  }

  /** The outcome over all definitions, as the source promises it. */
  predicate ChoiceOk(e: Entry, q: string, r: Option<SearchResult>) {
    var defs := e.normalizedDefinitions;
    && (r.None? <==> forall k :: 0 <= k < |defs| ==> DefMatch(defs[k], q).None?)
    && (r.Some? ==>
          && 0 <= r.value.definition < |defs|
          && DefMatch(defs[r.value.definition], q).Some?
          && r.value == HitResult(e, r.value.definition, DefMatch(defs[r.value.definition], q).value)
          && (forall k :: 0 <= k < r.value.definition ==> !IsFullHit(DefMatch(defs[k], q)))
          && (!r.value.isFullMatch ==>
                (forall k :: 0 <= k < |defs| ==> !IsFullHit(DefMatch(defs[k], q)))
                && forall k :: r.value.definition < k < |defs| ==> DefMatch(defs[k], q).None?))
  }

  lemma {:induction false} MatchFromChoice(e: Entry, q: string, i: nat, found: Option<SearchResult>)
    requires i <= |e.normalizedDefinitions| && FoundBefore(e, q, i, found)
    ensures ChoiceOk(e, q, MatchFrom(e, q, i, found))
    decreases |e.normalizedDefinitions| - i
  {
    var defs := e.normalizedDefinitions;
    if i < |defs| {
      var h := DefMatch(defs[i], q);
      if h.None? {
        MatchFromChoice(e, q, i + 1, found);
      } else if !h.value.full {
        MatchFromChoice(e, q, i + 1, Some(HitResult(e, i, h.value)));
      }
    }
  }

  /** The first definition with a full match gives the result; with none,
    * the last definition with a partial match does; with no match at all
    * the entry yields null. The result carries that definition's index and
    * span. */
  lemma EnglishMatchChoice(e: Entry, q: string)
    ensures ChoiceOk(e, q, EnglishMatch(e, q))
  {
    MatchFromChoice(e, q, 0, None);
  }

  lemma {:induction false} ExactScan(q: string, i: nat)
    requires EngNormal(q) && q != [] && i <= |q|
    ensures Scan(q, q, i, i, 0, i > 0 && q[i - 1] == ' ', i == 0) == Some(Hit(true, 0, |q| - 1))
    decreases |q| - i
  {
    if i < |q| {
      assert q[i] != '.';
      ExactScan(q, i + 1);
    }
  }

  /** A definition that is exactly the normalised query is a full match
    * spanning the whole definition. */
  lemma ExactDefinition(q: string)
    requires EngNormal(q) && q != []
    ensures DefMatch(q, q) == Some(Hit(true, 0, |q| - 1))
  {
    ExactScan(q, 0);
  }
}
