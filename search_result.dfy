/** Search results and word matches (SearchResult.java, Match.java). */
module SearchResults {
  import opened Wrappers
  import opened Entries

  /** The origin of a result; the source stores it as an int constant. */
  datatype ResultType = NoType | ChineseSearch | EnglishSearch | PinyinSearch | SentenceSplit {
    /** The int value of the corresponding constant of SearchResult. */
    function Code(): (c: int)
      ensures 0 <= c <= 4
    {
      match this
      case NoType => 0
      case ChineseSearch => 1
      case EnglishSearch => 2
      case PinyinSearch => 3
      case SentenceSplit => 4
    }
  }

  /** The seven-argument constructor of the source stores every argument in
    * its field; the datatype constructor does exactly that. `definition`,
    * `beginIndex` and `endIndex` are only meaningful for English results and
    * are -1 elsewhere. */
  datatype SearchResult = SearchResult(
    entry: Entry,
    kind: ResultType,
    isFullMatch: bool,
    isFirstOfSplitGroup: bool,
    definition: int,
    beginIndex: int,
    endIndex: int)

  /** A word identified in a sentence: the matched spelling, its entry and
    * the index at which it was found. */
  datatype Match = Match(str: string, entry: Entry, index: int)

  /** The one-argument constructor SearchResult(Entry). */
  function FromEntry(e: Entry): (r: SearchResult)
    ensures r.entry == e && r.kind == NoType && r.kind.Code() == 0
    ensures !r.isFullMatch && !r.isFirstOfSplitGroup
    ensures r.definition == -1 && r.beginIndex == -1 && r.endIndex == -1
  {
    SearchResult(e, NoType, false, false, -1, -1, -1)
  }

  /** A result tagged with a search type and no English highlight, as the
    * Chinese, pinyin and sentence-split searches build them. */
  function Tagged(e: Entry, kind: ResultType, full: bool, firstOfGroup: bool): (r: SearchResult)
    ensures r.entry == e && r.kind == kind && r.isFullMatch == full && r.isFirstOfSplitGroup == firstOfGroup
    ensures r.definition == -1 && r.beginIndex == -1 && r.endIndex == -1
  {
    SearchResult(e, kind, full, firstOfGroup, -1, -1, -1)
  }

  /** The five type constants are the distinct values 0 to 4. */
  lemma TypeCodesDistinct(a: ResultType, b: ResultType)
    ensures a.Code() == b.Code() <==> a == b
    ensures NoType.Code() == 0 && ChineseSearch.Code() == 1 && EnglishSearch.Code() == 2
    ensures PinyinSearch.Code() == 3 && SentenceSplit.Code() == 4
  {
  }

  /** toString of a result is its entry's toString for the current character type. */
  function ToString(r: SearchResult, characterType: int): (s: Option<string>)
    ensures s == EntryString(r.entry, characterType)
  {
    EntryString(r.entry, characterType)
  }
}
