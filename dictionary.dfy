/** The dictionary facade (Dictionary.java): loading a .bleco file into the
  * entry table and the three search indexes, and the public searches that
  * try the indexes in a fixed order.
  *
  * The state of a dictionary is a value (State); loading and searching are
  * pure functions of it (Reload, Query, EnglishQuery, WordQuery), and the
  * class Dictionary updates its fields in place and is proved to follow
  * those functions. */
module Dictionaries {
  import opened Wrappers
  import opened Text
  import opened Entries
  import opened SearchResults
  import opened Searching
  import opened Utf8
  import opened BlecoInput
  import ChineseSearching
  import PinyinSearching
  import EnglishSearching
  import SentenceHelper
  import BlecoFormat

  /** What makes a call fail instead of answering: the dictionary is not
    * loaded (the source throws NullPointerException), the English searcher
    * was never created (the same exception, from a null field), the
    * sentence split met a Chinese character that has no bucket (again a
    * null dereference in the source), or the word position lies outside
    * the sentence (StringIndexOutOfBoundsException). */
  datatype Fault = NotLoaded | NoSearcher | MissingBucket(at: nat) | BadIndex

  /** The fields of a dictionary. A searcher that was never created is None;
    * the arrays the source leaves null before the first load are empty. */
  datatype State = State(
    loaded: bool,
    sentences: seq<ExampleSentence>,
    entries: seq<Entry>,
    chinese: Option<Index<int>>,
    english: Option<Index<string>>,
    pinyin: Option<Index<string>>)

  /** Every searcher refers only to entries of its own table, and a loaded
    * dictionary has all three searchers, built on its entry table. */
  predicate Consistent(st: State) {
    && (st.chinese.Some? ==> st.chinese.value.Valid())
    && (st.english.Some? ==> st.english.value.Valid())
    && (st.pinyin.Some? ==> st.pinyin.value.Valid())
    && (st.loaded ==>
          && st.chinese.Some? && st.english.Some? && st.pinyin.Some?
          && st.chinese.value.entries == st.entries
          && st.english.value.entries == st.entries
          && st.pinyin.value.entries == st.entries)
  }

  /** The dictionary before any load. */
  const Empty: State := State(false, [], [], None, None, None)

  // ---------------------------------------------------------------------
  // load

  /** The state after a load and whether the load succeeded. */
  datatype Loading = Loading(state: State, outcome: Result<(), LoadError>)

  /** load: the dictionary is marked not loaded, then the sentence table,
    * the entry table and the Chinese, English and pinyin indexes are read
    * in that order, each field assigned as soon as its part is read. A
    * failure stops the load there: the fields read so far hold the new
    * values, the rest keep the old ones, and the dictionary stays not
    * loaded. */
  function Reload(st: State, d: seq<byte>): Loading {
    var s0 := st.(loaded := false);
    match ReadSentenceTable(d, 0)
    case Failure(e) => Loading(s0, Failure(e))
    case Success(sp) => LoadEntries(s0.(sentences := sp.value), d, sp.next)
  }

  /** The rest of a load once the sentence table is in place at `p`. */
  function LoadEntries(s: State, d: seq<byte>, p: nat): Loading {
    match ReadEntryTable(d, p, s.sentences)
    case Failure(e) => Loading(s, Failure(e))
    case Success(ep) => LoadIndexes(s.(entries := ep.value), d, ep.next)
  }

  /** The rest of a load once the entry table is in place: the Chinese,
    * English and pinyin indexes, each over that table. */
  function LoadIndexes(s: State, d: seq<byte>, p: nat): Loading {
    var n := |s.entries|;
    match ReadChineseIndex(d, p, n)
    case Failure(e) => Loading(s, Failure(e))
    case Success(cp) =>
      var s3 := s.(chinese := Some(Index(s.entries, cp.value)));
      match ReadStringIndex(d, cp.next, n)
      case Failure(e) => Loading(s3, Failure(e))
      case Success(np) =>
        var s4 := s3.(english := Some(Index(s.entries, np.value)));
        match ReadStringIndex(d, np.next, n)
        case Failure(e) => Loading(s4, Failure(e))
        case Success(pp) =>
          Loading(s4.(pinyin := Some(Index(s.entries, pp.value)), loaded := true), Success(()))
  }

  /** A load keeps the dictionary consistent whether it succeeds or not,
    * and leaves it loaded exactly when it succeeds. */
  lemma ReloadConsistent(st: State, d: seq<byte>)
    requires Consistent(st)
    ensures Consistent(Reload(st, d).state)
    ensures Reload(st, d).state.loaded <==> Reload(st, d).outcome.Success?
  {
    var sp := ReadSentenceTable(d, 0);
    if sp.Success? {
      var ep := ReadEntryTable(d, sp.value.next, sp.value.value);
      if ep.Success? {
        var n := |ep.value.value|;
        var cp := ReadChineseIndex(d, ep.value.next, n);
        if cp.Success? {
          ChineseIndexInRange(d, ep.value.next, n);
          var np := ReadStringIndex(d, cp.value.next, n);
          if np.Success? {
            StringIndexInRange(d, cp.value.next, n);
            var pp := ReadStringIndex(d, np.value.next, n);
            if pp.Success? {
              StringIndexInRange(d, np.value.next, n);
            }
          }
        }
      }
    }
  }

  /** After a load, each searcher is either the one the dictionary had
    * before or one built on the entry table the load read. After a load
    * that fails part way, a searcher may therefore still refer to the
    * previous entry table. */
  lemma ReloadSearchers(st: State, d: seq<byte>)
    ensures var s := Reload(st, d).state;
            && (s.chinese == st.chinese || (s.chinese.Some? && s.chinese.value.entries == s.entries))
            && (s.english == st.english || (s.english.Some? && s.english.value.entries == s.entries))
            && (s.pinyin == st.pinyin || (s.pinyin.Some? && s.pinyin.value.entries == s.entries))
  {
  }

  /** A successful load replaces the whole state: what the dictionary held
    * before makes no difference. */
  lemma ReloadReplaces(st: State, other: State, d: seq<byte>)
    requires Reload(st, d).outcome.Success?
    ensures Reload(st, d) == Reload(other, d)
  {
  }

  /** Loading the same file twice is the same as loading it once, whether
    * or not the load succeeds. */
  lemma ReloadIdempotent(st: State, d: seq<byte>)
    ensures Reload(Reload(st, d).state, d) == Reload(st, d)
  {
  }

  /** Loading a file the writer produced succeeds and leaves the dictionary
    * holding exactly what was stored: its sentences and entries, and the
    * three indexes over those entries, whatever it held before. */
  lemma LoadStoredFile(st: State, d: seq<byte>, f: BlecoFormat.StoredFile, q: nat)
    requires BlecoFormat.FileFits(f)
    requires q <= |d| && d[..q] == BlecoFormat.EncodeFile(f)
    ensures Reload(st, d).outcome == Success(())
    ensures Reload(st, d).state
            == State(true, f.sentences, f.entries,
                     Some(Index(f.entries, ToMap(f.chinese))),
                     Some(Index(f.entries, ToMap(f.english))),
                     Some(Index(f.entries, ToMap(f.pinyin))))
  {
    var m1, m2, m3, m4 := BlecoFormat.FileRoundTrip(d, f, q);
  }

  // ---------------------------------------------------------------------
  // search

  predicate HasCjk(s: string) {
    exists k :: 0 <= k < |s| && IsCjk(s[k])
  }

  /** A character other than the wildcard that is Chinese. */
  predicate HasCjkBesideWildcard(s: string) {
    exists k :: 0 <= k < |s| && s[k] != '*' && IsCjk(s[k])
  }

  /** wildcardSearch: the Chinese index can only serve a wildcard search
    * that holds at least one Chinese character. */
  function Wildcard(chinese: Index<int>, f: string): Option<seq<SearchResult>>
    requires chinese.Valid()
  {
    if HasCjkBesideWildcard(f) then ChineseSearching.Searched(chinese, f) else None
  }

  /** sentenceSplitSearch: only a search holding a Chinese character is
    * split. */
  function SplitQuery(chinese: Index<int>, search: string): Result<Option<seq<SearchResult>>, Fault>
    requires chinese.Valid()
  {
    if !HasCjk(search) then Success(None)
    else
      match SentenceHelper.SplitSentence(chinese, search)
      case Failure(i) => Failure(MissingBucket(i))
      case Success(rs) => Success(rs)
  }

  /** search: refused when not loaded; nothing for an empty search or one
    * that formats to nothing; a formatted search with a wildcard goes to
    * the wildcard search; otherwise the pinyin, Chinese and English
    * searches and then the sentence split are tried in order, and the
    * first one that finds something answers. The pinyin and Chinese
    * searches get the formatted search, the English search and the split
    * the search as given. */
  ghost function Query(st: State, search: string): Result<Option<seq<SearchResult>>, Fault>
    requires Consistent(st)
  {
    if !st.loaded then Failure(NotLoaded)
    else if search == [] then Success(None)
    else
      var f := Formatted(search);
      if f == [] then Success(None)
      else if '*' in f then Success(Wildcard(st.chinese.value, f))
      else
        var p := PinyinSearching.Searched(st.pinyin.value, f);
        if p.Some? then Success(p)
        else
          var c := ChineseSearching.Searched(st.chinese.value, f);
          if c.Some? then Success(c)
          else
            var e := EnglishSearching.Searched(st.english.value, search);
            if e.Some? then Success(e)
            else SplitQuery(st.chinese.value, search)
  }

  /** englishSearch: asks the English searcher whatever the loaded flag
    * says, and answers nothing for an empty list. */
  function EnglishQuery(st: State, search: string): Result<Option<seq<SearchResult>>, Fault>
    requires Consistent(st)
  {
    if st.english.None? then Failure(NoSearcher)
    else
      var r := EnglishSearching.Searched(st.english.value, search);
      if r.None? || r.value == [] then Success(None) else Success(r)
  }

  /** findChineseWord: refused when not loaded; a position outside the
    * sentence fails; otherwise the word the sentence helper identifies. */
  function WordQuery(st: State, sentence: string, index: int): Result<Option<Match>, Fault>
    requires Consistent(st)
  {
    if !st.loaded then Failure(NotLoaded)
    else if !(0 <= index < |sentence|) then Failure(BadIndex)
    else Success(SentenceHelper.FindWord(st.chinese.value, sentence, index))
  }

  // ---------------------------------------------------------------------
  // What the searches answer

  /** Every result of a list comes from the same kind of search. */
  predicate OfKind(rs: seq<SearchResult>, kind: ResultType) {
    forall k :: 0 <= k < |rs| ==> rs[k].kind == kind
  }

  /** A list collected from a bucket carries the kind every match carries. */
  lemma CollectedKind(bucket: seq<Entry>, f: Entry -> Option<SearchResult>, kind: ResultType)
    requires forall k :: 0 <= k < |bucket| && f(bucket[k]).Some? ==> f(bucket[k]).value.kind == kind
    ensures Collected(bucket, f).Some? ==> OfKind(Collected(bucket, f).value, kind)
  {
    if Collected(bucket, f).Some? {
      var rs := Collected(bucket, f).value;
      CollectedPermutation(bucket, f);
      forall j | 0 <= j < |rs| ensures rs[j].kind == kind {
        var x := rs[j];
        assert x in multiset(rs);
        assert x in Found(bucket, f);
        FoundFromBucket(bucket, f, x);
      }
    }
  }

  lemma ChineseKind(idx: Index<int>, q: string)
    requires idx.Valid() && ChineseSearching.Searched(idx, q).Some?
    ensures OfKind(ChineseSearching.Searched(idx, q).value, ChineseSearch)
  {
    var bucket := ChineseSearching.ChooseBucket(idx, q).value;
    CollectedKind(bucket, ChineseSearching.ChineseMatcher(q), ChineseSearch);
  }

  lemma PinyinKind(idx: Index<string>, q: string)
    requires idx.Valid() && |q| >= 1 && PinyinSearching.Searched(idx, q).Some?
    ensures OfKind(PinyinSearching.Searched(idx, q).value, PinyinSearch)
  {
    var rs := PinyinSearching.Searched(idx, q).value;
    if |q| == 1 {
      forall j | 0 <= j < |rs| ensures rs[j].kind == PinyinSearch {
        PinyinSearching.SingleLetterShape(idx, q[0], rs[j]);
      }
    } else {
      var bucket := idx.Bucket(PinyinSearching.Key(q)).value;
      CollectedKind(bucket, PinyinSearching.PinyinMatcher(q), PinyinSearch);
    }
  }

  lemma EnglishKind(idx: Index<string>, q: string)
    requires idx.Valid() && EnglishSearching.Searched(idx, q).Some?
    ensures OfKind(EnglishSearching.Searched(idx, q).value, EnglishSearch)
  {
    var f := EnglishSearching.FormattedEng(q);
    var bucket := EnglishSearching.BucketOf(idx, f).value;
    forall k | 0 <= k < |bucket| && EnglishSearching.EnglishMatcher(f)(bucket[k]).Some?
      ensures EnglishSearching.EnglishMatcher(f)(bucket[k]).value.kind == EnglishSearch
    {
      EnglishSearching.EnglishMatchChoice(bucket[k], f);
    }
    CollectedKind(bucket, EnglishSearching.EnglishMatcher(f), EnglishSearch);
  }

  /** A search answers with the results of exactly one searcher: a list of
    * one kind. Sentence-split results come only for a search holding a
    * Chinese character, and a wildcard search answers only with Chinese
    * results, and only when it holds a Chinese character. */
  lemma QueryKinds(st: State, search: string)
    requires Consistent(st) && Query(st, search).Success? && Query(st, search).value.Some?
    ensures var rs := Query(st, search).value.value;
            && (OfKind(rs, PinyinSearch) || OfKind(rs, ChineseSearch) || OfKind(rs, EnglishSearch)
                || (OfKind(rs, SentenceSplit) && HasCjk(search)))
    ensures '*' in Formatted(search) ==>
              && OfKind(Query(st, search).value.value, ChineseSearch)
              && HasCjkBesideWildcard(Formatted(search))
  {
    var f := Formatted(search);
    if '*' in f {
      ChineseKind(st.chinese.value, f);
    } else if PinyinSearching.Searched(st.pinyin.value, f).Some? {
      PinyinKind(st.pinyin.value, f);
    } else if ChineseSearching.Searched(st.chinese.value, f).Some? {
      ChineseKind(st.chinese.value, f);
    } else if EnglishSearching.Searched(st.english.value, search).Some? {
      EnglishKind(st.english.value, search);
    } else {
      SentenceHelper.SplitSentenceWords(st.chinese.value, search);
    }
  }

  /** After a load that fails, the dictionary refuses search and
    * findChineseWord until a load succeeds. */
  lemma FailedLoadRefuses(st: State, d: seq<byte>, search: string, sentence: string, index: int)
    requires Consistent(st) && Reload(st, d).outcome.Failure?
    ensures Consistent(Reload(st, d).state)
    ensures Query(Reload(st, d).state, search) == Failure(NotLoaded)
    ensures WordQuery(Reload(st, d).state, sentence, index) == Failure(NotLoaded)
  {
    ReloadConsistent(st, d);
  }

  /** englishSearch never answers with an empty list, and its results are
    * English results. */
  lemma EnglishQueryResults(st: State, search: string)
    requires Consistent(st) && EnglishQuery(st, search).Success? && EnglishQuery(st, search).value.Some?
    ensures |EnglishQuery(st, search).value.value| > 0
    ensures OfKind(EnglishQuery(st, search).value.value, EnglishSearch)
  {
    EnglishKind(st.english.value, search);
  }

  /** The word findChineseWord identifies covers the given position, lies
    * inside the sentence, and is the simplified or traditional spelling of
    * an entry of the loaded table. */
  lemma WordQueryFound(st: State, sentence: string, index: int)
    requires Consistent(st) && WordQuery(st, sentence, index).Success?
    requires WordQuery(st, sentence, index).value.Some?
    ensures var w := WordQuery(st, sentence, index).value.value;
            && 0 <= w.index <= index < w.index + |w.str| <= |sentence|
            && w.entry in st.entries
            && (w.str == w.entry.simplified || w.str == w.entry.traditional)
  {
    SentenceHelper.FindWordFound(st.chinese.value, sentence, index);
  }

  // ---------------------------------------------------------------------
  // The dictionary object

  class Dictionary {
    var loaded: bool
    var sentences: seq<ExampleSentence>
    var entries: seq<Entry>
    var chinese: Option<Index<int>>
    var english: Option<Index<string>>
    var pinyin: Option<Index<string>>

    function Snapshot(): State
      reads this
    {
      State(loaded, sentences, entries, chinese, english, pinyin)
    }

    ghost predicate Valid()
      reads this
    {
      Consistent(Snapshot())
    }

    /** An empty dictionary that is not loaded. */
    constructor ()
      ensures Snapshot() == Empty && Valid()
    {
      loaded := false;
      sentences := [];
      entries := [];
      chinese := None;
      english := None;
      pinyin := None;
    }

    /** load, from the whole file content. */
    method Load(data: seq<byte>) returns (r: Result<(), LoadError>)
      requires Valid()
      modifies this
      ensures Valid()
      ensures Snapshot() == Reload(old(Snapshot()), data).state
      ensures r == Reload(old(Snapshot()), data).outcome
    {
      ghost var before := Snapshot();
      loaded := false;
      var input := new BlecoInputStream(data);
      r := Failure(Truncated);
      var rs := input.ReadExampleSentences();
      if rs.Failure? {
        r := Failure(rs.error);
      } else {
        sentences := rs.value;
        assert Reload(before, data) == LoadEntries(Snapshot(), data, input.pos);
        var re := input.ReadEntries(sentences);
        if re.Failure? {
          r := Failure(re.error);
        } else {
          entries := re.value;
          assert Reload(before, data) == LoadIndexes(Snapshot(), data, input.pos);
          r := ReadIndexes(input);
        }
      }
      ReloadConsistent(before, data);
    }

    /** The three index reads at the end of load. */
    method ReadIndexes(input: BlecoInputStream) returns (r: Result<(), LoadError>)
      modifies this, input
      ensures Snapshot() == LoadIndexes(old(Snapshot()), input.data, old(input.pos)).state
      ensures r == LoadIndexes(old(Snapshot()), input.data, old(input.pos)).outcome
    {
      var rc := input.ReadChineseIndexMap(|entries|);
      if rc.Failure? {
        return Failure(rc.error);
      }
      chinese := Some(Index(entries, rc.value));
      var rn := input.ReadStringIndexMap(|entries|);
      if rn.Failure? {
        return Failure(rn.error);
      }
      english := Some(Index(entries, rn.value));
      var rp := input.ReadStringIndexMap(|entries|);
      if rp.Failure? {
        return Failure(rp.error);
      }
      pinyin := Some(Index(entries, rp.value));
      loaded := true;
      return Success(());
    }

    /** wildcardSearch. */
    method WildcardSearch(search: string) returns (r: Option<seq<SearchResult>>)
      requires Valid() && chinese.Some?
      ensures r == Wildcard(chinese.value, search)
    {
      var i := 0;
      while i < |search|
        invariant 0 <= i <= |search|
        invariant forall k :: 0 <= k < i ==> !(search[k] != '*' && IsCjk(search[k]))
      {
        if search[i] != '*' && IsCjk(search[i]) {
          r := ChineseSearching.Search(chinese.value, search);
          return;
        }
        i := i + 1;
      }
      return None;
    }

    /** sentenceSplitSearch. */
    method SentenceSplitSearch(search: string) returns (r: Result<Option<seq<SearchResult>>, Fault>)
      requires Valid() && chinese.Some?
      ensures r == SplitQuery(chinese.value, search)
    {
      var i := 0;
      while i < |search|
        invariant 0 <= i <= |search|
        invariant forall k :: 0 <= k < i ==> !IsCjk(search[k])
      {
        if IsCjk(search[i]) {
          var split := SentenceHelper.SplitChineseSentence(chinese.value, search);
          if split.Failure? {
            return Failure(MissingBucket(split.error));
          }
          return Success(split.value);
        }
        i := i + 1;
      }
      return Success(None);
    }

    /** search. */
    method Search(search: string) returns (r: Result<Option<seq<SearchResult>>, Fault>)
      requires Valid()
      ensures r == Query(Snapshot(), search)
    {
      if !loaded {
        return Failure(NotLoaded);
      }
      if search == [] {
        return Success(None);
      }
      var formatted := FormatSearch(search);
      if formatted == [] {
        return Success(None);
      }
      if '*' in formatted {
        var w := WildcardSearch(formatted);
        return Success(w);
      }
      var p := PinyinSearching.Search(pinyin.value, formatted);
      if p.Some? {
        return Success(p);
      }
      var c := ChineseSearching.Search(chinese.value, formatted);
      if c.Some? {
        return Success(c);
      }
      var e := EnglishSearching.Search(english.value, search);
      if e.Some? {
        return Success(e);
      }
      r := SentenceSplitSearch(search);
    }

    /** englishSearch. */
    method EnglishSearch(search: string) returns (r: Result<Option<seq<SearchResult>>, Fault>)
      requires Valid()
      ensures r == EnglishQuery(Snapshot(), search)
    {
      if english.None? {
        return Failure(NoSearcher);
      }
      var found := EnglishSearching.Search(english.value, search);
      if found.None? || found.value == [] {
        return Success(None);
      }
      return Success(found);
    }

    /** findChineseWord. */
    method FindChineseWord(sentence: string, index: int) returns (r: Result<Option<Match>, Fault>)
      requires Valid()
      ensures r == WordQuery(Snapshot(), sentence, index)
    {
      if !loaded {
        return Failure(NotLoaded);
      }
      if !(0 <= index < |sentence|) {
        return Failure(BadIndex);
      }
      var w := SentenceHelper.FindChineseWord(chinese.value, sentence, index);
      return Success(w);
    }
  }
}
