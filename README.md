# Bleco dictionary engine in Dafny

This project models the search engine of the Bleco Chinese–English dictionary
(package `sahlaysta.bleco.dict`) and proves properties of it.

- **Loader.** The `.bleco` file holds a table of example sentences, a table of
  entries, and three index maps: Chinese, English and pinyin. They are read front
  to back: big-endian integers, and strings stored as a 16-bit byte count
  followed by UTF-8 bytes.
- **Searches.** Each index answers with the bucket its key selects. Every entry
  of that bucket is then run through a matcher specific to the search.
  - Chinese: the smallest bucket among the query's characters; a walk that also
    accepts the pinyin of a stored character in its place; `*` is a wildcard.
  - Pinyin: a two-cursor walk in which tones and the spaces between syllables
    are optional; a one-letter query lists single-syllable entries.
  - English: the query is normalised, then each normalised definition is
    scanned from the start of each word.
- **Dictionary facade.** `search` normalises the query and tries the pinyin,
  Chinese and English searches, then splits the query as a Chinese sentence;
  the first that finds something answers. `englishSearch` and `findChineseWord`
  are separate entry points. `load` replaces the dictionary's fields one part
  at a time.
- **Sentence helper.** Splits a Chinese sentence into words (greedy, longest
  first) and identifies the word around a position.
- **Entry display.** Formatting of definitions for simplified or traditional
  display: `trad|simp` split markers, and `[...]` pronunciation notes that are
  never shown.

One module per source file:

| module | file | source |
|---|---|---|
| `Wrappers` | wrappers.dfy | `Option` and `Result` |
| `Text` | text.dfy | case folding and tone digits |
| `Utf8` | utf8.dfy | the string decoding the reader relies on |
| `Entries` | entry.dfy | `Entry.java` |
| `SearchResults` | search_result.dfy | `SearchResult.java` and `Match.java` |
| `BlecoInput` | bleco_input_stream.dfy | `BlecoInputStream.java` |
| `BlecoFormat` | bleco_format.dfy | the writing side of the file format, used only to state round trips |
| `Searching` | abstract_search.dfy | `DictionaryAbstractSearch.java` |
| `ChineseSearching` | chinese_search.dfy | `DictionaryChineseSearch.java` |
| `PinyinSearching` | pinyin_search.dfy | `DictionaryPinyinSearch.java` |
| `EnglishSearching` | english_search.dfy | `DictionaryEnglishSearch.java` |
| `SentenceHelper` | sentence_helper.dfy | `DictionarySentenceHelper.java` |
| `Dictionaries` | dictionary.dfy | `Dictionary.java` |

How the model is built:

- **Loops become methods.** Each source method that works by a loop is a Dafny
  `method` with the same loop. It is proved equal to a pure function, and the
  properties are lemmas about that function.
- **Mutable objects become classes.** The file reader (`BlecoInputStream`), the
  dictionary (`Dictionary`) and the global character-type setting are classes
  whose methods update fields, with `modifies` clauses.
- **Identity.** An entry is identified by its position in the entry table, since
  the source compares entries by reference. An index maps each key to positions
  in that table.
- **Errors.** Where the source throws, the model returns an explicit error value
  (`Result`, `Option`, `LoadError`, `Fault`).
- **Strings.** Strings are sequences of characters of the Basic Multilingual
  Plane, so a character index is also a code point index.
- **Split marker.** In traditional mode a definition keeps the text before
  `|` (Entry.java:234-245), and in simplified mode the text after it
  (Entry.java:264-275); `Entries.SplitMarkerExample` shows both.
- **The `ü` case.** The `case` label next to `'v'` in `formatSearch` holds the
  replacement character U+FFFD (DictionaryAbstractSearch.java:58), and the
  model uses that character (`Searching.UmlautU`).

## Model

| member | source | states |
|---|---|---|
| Text.Lower | blecodesktop/src/sahlaysta/bleco/dict/DictionaryAbstractSearch.java:51 | An upper-case ASCII letter maps to its lower-case letter; every other character is unchanged; the result is never an upper-case letter. |
| Text.LowerString | blecodesktop/src/sahlaysta/bleco/dict/DictionarySentenceHelper.java:18 | Lower-casing a string keeps its length and lower-cases each character in place. |
| Utf8.DecodeEncode | blecodesktop/src/sahlaysta/bleco/dict/BlecoInputStream.java:27 | Decoding the UTF-8 bytes of any BMP string gives back that string. |
| Utf8.Decode | blecodesktop/src/sahlaysta/bleco/dict/BlecoInputStream.java:27 | Decoding never fails, yields BMP characters only, and gives no more characters than there are bytes. |
| Utf8.DecodeOneEncodeChar | blecodesktop/src/sahlaysta/bleco/dict/BlecoInputStream.java:27 | The encoding of one character decodes to that character and consumes exactly its own bytes, whatever follows. |
| Utf8.DecodeHead | blecodesktop/src/sahlaysta/bleco/dict/BlecoInputStream.java:27 | Decoding the bytes of a non-empty string gives its first character followed by the decoding of the bytes of the rest. |
| Entries.GetName | blecodesktop/src/sahlaysta/bleco/dict/Entry.java:391-396 | The simplified spelling for SIMPLIFIED_CHINESE; the traditional spelling for every other value. |
| Entries.CharacterTypeSetting.SetCharacterType | blecodesktop/src/sahlaysta/bleco/dict/Entry.java:104-110 | A value is accepted exactly when it is 0 or 1. An accepted value becomes the setting; a refused one leaves the setting as it was. The setting stays 0 or 1. |
| Entries.CharacterTypeSetting.constructor | blecodesktop/src/sahlaysta/bleco/dict/Entry.java:104-110 | The setting starts at SIMPLIFIED_CHINESE. |
| Entries.AppendTraditional | blecodesktop/src/sahlaysta/bleco/dict/Entry.java:227-256 | The builder loop appends exactly the traditional-mode rendering of the definition. |
| Entries.AppendSimplified | blecodesktop/src/sahlaysta/bleco/dict/Entry.java:257-287 | The builder loop, including its cut-back on the split marker, yields the simplified-mode rendering. It gives None exactly where the cut-back would pass the start of the builder. |
| Entries.FormattedDefinitions | blecodesktop/src/sahlaysta/bleco/dict/Entry.java:328-352 | Succeeds exactly when every definition can be formatted. The result has one formatted string per definition, in order: traditional rules for TRADITIONAL_CHINESE, simplified rules for any other value. |
| Entries.ToString | blecodesktop/src/sahlaysta/bleco/dict/Entry.java:173-218 | The header and every definition are appended to one shared builder, with definitions separated by " / ". The result agrees with the specification of toString(int). |
| Entries.NextLookahead | blecodesktop/src/sahlaysta/bleco/dict/Entry.java:227-256 | The first lookahead character at or after a position, or None exactly when there is none. |
| Entries.ClosingBracket | blecodesktop/src/sahlaysta/bleco/dict/Entry.java:227-256 | The first `]` at or after a position, or None exactly when there is none. |
| Entries.PrevLookbehind | blecodesktop/src/sahlaysta/bleco/dict/Entry.java:257-287 | The last lookbehind character before a position, or -1 exactly when there is none. |
| Entries.PlainDefinitionUnchanged | blecodesktop/src/sahlaysta/bleco/dict/Entry.java:227-287 | A definition without the split marker or `[` is displayed unchanged in both modes. |
| Entries.BracketRule | blecodesktop/src/sahlaysta/bleco/dict/Entry.java:227-287 | A `[` with a later `]` removes the bracketed span, brackets included, in both modes. A `[` with no closing `]` is kept as text. |
| Entries.TraditionalSplit | blecodesktop/src/sahlaysta/bleco/dict/Entry.java:227-256 | In traditional mode the text after the split marker is dropped up to the next lookahead character, or to the end when there is none. The text before the split marker is kept. |
| Entries.SimplifiedSplit | blecodesktop/src/sahlaysta/bleco/dict/Entry.java:257-287 | In simplified mode the phrase before the split marker is cut back to just after the nearest preceding lookbehind character, and output continues after the marker. |
| Entries.SplitMarkerExample | blecodesktop/src/sahlaysta/bleco/dict/Entry.java:227-287 | For "for 廣州" and "广州" joined by the split marker, the traditional rendering keeps 廣州 and the simplified rendering keeps 广州. |
| Entries.SimplifiedCutPastBuilder | blecodesktop/src/sahlaysta/bleco/dict/Entry.java:257-287 | For "[x]a", split marker, "b", the simplified cut-back is longer than the builder, so formatting fails. |
| Entries.TraditionalAll | blecodesktop/src/sahlaysta/bleco/dict/Entry.java:333-342 | One traditional rendering per definition, in order. |
| Entries.TraditionalToString | blecodesktop/src/sahlaysta/bleco/dict/Entry.java:179-188 | Traditional toString never fails. It is the traditional name, " - ", the formatted pinyin, " - ", then the traditional renderings joined by " / ". |
| Entries.UnknownTypeDisagrees | blecodesktop/src/sahlaysta/bleco/dict/Entry.java:173-178 | For a character type other than 0 or 1, getName gives the traditional spelling. toString and formattedDefinitions use the simplified rules for that same value. |
| SearchResults.FromEntry | blecodesktop/src/sahlaysta/bleco/dict/SearchResult.java:56-64 | A result of type NO_TYPE (code 0) for the entry: not full, not the first of a group, and definition, begin and end all -1. |
| SearchResults.Tagged | blecodesktop/src/sahlaysta/bleco/dict/SearchResult.java:91-106 | A result holding the given entry, type and flags, with no English highlight (-1 indexes). |
| SearchResults.ResultType.Code | blecodesktop/src/sahlaysta/bleco/dict/SearchResult.java:127-151 | Every result type has an int code between 0 and 4. |
| SearchResults.TypeCodesDistinct | blecodesktop/src/sahlaysta/bleco/dict/SearchResult.java:127-151 | The five type constants are 0 to 4, and two types have the same code exactly when they are the same type. |
| SearchResults.ToString | blecodesktop/src/sahlaysta/bleco/dict/SearchResult.java:114-117 | A result prints as its entry's toString for the character type. |
| BlecoInput.ReadU16 | blecodesktop/src/sahlaysta/bleco/dict/BlecoInputStream.java:25 | readChar succeeds exactly when two bytes remain. It gives the big-endian unsigned value below 65536 and advances by 2. |
| BlecoInput.ReadI32 | blecodesktop/src/sahlaysta/bleco/dict/BlecoInputStream.java:35 | readInt succeeds exactly when four bytes remain. It gives a signed 32-bit value and advances by 4. |
| BlecoInput.ReadI8 | blecodesktop/src/sahlaysta/bleco/dict/BlecoInputStream.java:95 | readByte succeeds exactly when a byte remains, and gives a value in [-128, 128). |
| BlecoInput.ReadU8 | blecodesktop/src/sahlaysta/bleco/dict/BlecoInputStream.java:50 | read() succeeds exactly when a byte remains, and gives that byte unsigned. |
| BlecoInput.ReadBytesAt | blecodesktop/src/sahlaysta/bleco/dict/BlecoInputStream.java:24-26 | Succeeds exactly when the 16-bit count and that many bytes are present. It gives those bytes and advances past them. |
| BlecoInput.ReadStringAt | blecodesktop/src/sahlaysta/bleco/dict/BlecoInputStream.java:24-28 | readString succeeds exactly when the byte field is complete, and ends where the field ends. |
| BlecoInput.ReadRefs | blecodesktop/src/sahlaysta/bleco/dict/BlecoInputStream.java:72-73 | On success there are exactly n positions, each below the size of the table it indexes. |
| BlecoInput.ReadSentenceTable | blecodesktop/src/sahlaysta/bleco/dict/BlecoInputStream.java:34-39 | On success the count was non-negative and the table has exactly that many sentences. Which sentences are read is stated by BlecoFormat.SentenceTableRoundTrip. |
| BlecoInput.ReadDefinitionsAt | blecodesktop/src/sahlaysta/bleco/dict/BlecoInputStream.java:50-57 | There are as many normalized definitions as definitions, and fewer than 256. Which strings are read, the definitions first and then the normalized ones, is stated by BlecoFormat.DefinitionsRoundTrip. |
| BlecoInput.Resolve | blecodesktop/src/sahlaysta/bleco/dict/BlecoInputStream.java:70-73 | Each example reference is replaced by the sentence it points at, in reference order. |
| BlecoInput.ReadExamplesAt | blecodesktop/src/sahlaysta/bleco/dict/BlecoInputStream.java:60-81 | A list of examples, when present, is never empty: a count of 0 gives no list. |
| BlecoInput.ReadEntryAt | blecodesktop/src/sahlaysta/bleco/dict/BlecoInputStream.java:42-82 | A read entry has matching numbers of definitions and normalized definitions. The field order is stated by BlecoFormat.EntryRoundTrip. |
| BlecoInput.ReadEntryTable | blecodesktop/src/sahlaysta/bleco/dict/BlecoInputStream.java:83-88 | On success the count was non-negative and exactly that many entries were read. That they are the stored records in stream order is stated by BlecoFormat.EntryTableRoundTrip. |
| BlecoInput.ToMapLast | blecodesktop/src/sahlaysta/bleco/dict/BlecoInputStream.java:99 | A key maps to the value of its last put. |
| BlecoInput.ToMapKeys | blecodesktop/src/sahlaysta/bleco/dict/BlecoInputStream.java:99 | A key is in the map exactly when some put carries it. |
| BlecoInput.ChineseIndexInRange | blecodesktop/src/sahlaysta/bleco/dict/BlecoInputStream.java:91-102 | Every position stored in a Chinese index that loads is an index into the entry table it was read against. |
| BlecoInput.StringIndexInRange | blecodesktop/src/sahlaysta/bleco/dict/BlecoInputStream.java:105-130 | Every position stored in an English or pinyin index that loads is an index into the entry table it was read against. |
| BlecoInput.BlecoInputStream.constructor | blecodesktop/src/sahlaysta/bleco/dict/BlecoInputStream.java:15-17 | A stream over the data, with the cursor at 0. |
| BlecoInput.BlecoInputStream.ReadChar | blecodesktop/src/sahlaysta/bleco/dict/BlecoInputStream.java:25 | Returns what ReadU16 gives at the cursor, and moves the cursor past it on success. |
| BlecoInput.BlecoInputStream.ReadInt | blecodesktop/src/sahlaysta/bleco/dict/BlecoInputStream.java:35 | Returns what ReadI32 gives at the cursor, and moves the cursor past it on success. |
| BlecoInput.BlecoInputStream.ReadByte | blecodesktop/src/sahlaysta/bleco/dict/BlecoInputStream.java:95 | Returns what ReadI8 gives at the cursor, and moves the cursor past it on success. |
| BlecoInput.BlecoInputStream.Read | blecodesktop/src/sahlaysta/bleco/dict/BlecoInputStream.java:50 | Returns what ReadU8 gives at the cursor, and moves the cursor past it on success. |
| BlecoInput.BlecoInputStream.ReadString | blecodesktop/src/sahlaysta/bleco/dict/BlecoInputStream.java:24-28 | Returns the decoded string field at the cursor and moves past it. |
| BlecoInput.BlecoInputStream.ReadExampleSentence | blecodesktop/src/sahlaysta/bleco/dict/BlecoInputStream.java:31-33 | Reads the Chinese sentence, then the English one. |
| BlecoInput.BlecoInputStream.ReadExampleSentences | blecodesktop/src/sahlaysta/bleco/dict/BlecoInputStream.java:34-39 | The loop agrees with ReadSentenceTable at the cursor. |
| BlecoInput.BlecoInputStream.ReadStringRun | blecodesktop/src/sahlaysta/bleco/dict/BlecoInputStream.java:51-57 | The definition loops agree with reading n strings in a row. |
| BlecoInput.BlecoInputStream.ReadPositions | blecodesktop/src/sahlaysta/bleco/dict/BlecoInputStream.java:72-73 | The reference loops agree with ReadRefs. A position outside the table fails as an out-of-bounds index. |
| BlecoInput.BlecoInputStream.ReadNames | blecodesktop/src/sahlaysta/bleco/dict/BlecoInputStream.java:44-47 | Reads the four names in file order. |
| BlecoInput.BlecoInputStream.ReadDefinitions | blecodesktop/src/sahlaysta/bleco/dict/BlecoInputStream.java:50-57 | Reads the definition count, the definitions and the normalized definitions. |
| BlecoInput.BlecoInputStream.ReadExamples | blecodesktop/src/sahlaysta/bleco/dict/BlecoInputStream.java:60-81 | A count of 0 gives no list; otherwise the referenced sentences, in order. |
| BlecoInput.BlecoInputStream.ReadEntry | blecodesktop/src/sahlaysta/bleco/dict/BlecoInputStream.java:42-82 | Agrees with ReadEntryAt at the cursor. |
| BlecoInput.BlecoInputStream.ReadEntries | blecodesktop/src/sahlaysta/bleco/dict/BlecoInputStream.java:83-88 | Agrees with ReadEntryTable at the cursor. |
| BlecoInput.BlecoInputStream.ReadChineseIndexMap | blecodesktop/src/sahlaysta/bleco/dict/BlecoInputStream.java:91-102 | The put loop builds the map of the (byte key, positions) groups, a later key replacing an earlier one. |
| BlecoInput.BlecoInputStream.ReadStringIndexMap | blecodesktop/src/sahlaysta/bleco/dict/BlecoInputStream.java:105-130 | The same for the string-keyed English and pinyin maps. |
| BlecoFormat.U16RoundTrip | blecodesktop/src/sahlaysta/bleco/dict/BlecoInputStream.java:25 | Any 16-bit value written big-endian is read back by readChar. |
| BlecoFormat.I32RoundTrip | blecodesktop/src/sahlaysta/bleco/dict/BlecoInputStream.java:35 | Any 32-bit value, negative ones included, written in two's complement is read back by readInt. |
| BlecoFormat.FieldRoundTrip | blecodesktop/src/sahlaysta/bleco/dict/BlecoInputStream.java:24-28 | A stored string field reads back as the decoding of its bytes, and reading ends exactly at the field's end. |
| BlecoFormat.StringRoundTrip | blecodesktop/src/sahlaysta/bleco/dict/BlecoInputStream.java:24-28 | A string written as its UTF-8 field reads back as itself. |
| BlecoFormat.FieldsRoundTrip | blecodesktop/src/sahlaysta/bleco/dict/BlecoInputStream.java:51-57 | A run of stored fields reads back, in order, as their decodings. |
| BlecoFormat.RefsRoundTrip | blecodesktop/src/sahlaysta/bleco/dict/BlecoInputStream.java:72-73 | Stored positions below the table size read back unchanged and in order, and reading ends exactly after the last one. |
| BlecoFormat.RefOutOfRange | blecodesktop/src/sahlaysta/bleco/dict/BlecoInputStream.java:73 | A stored position at or beyond the table size fails the load. |
| BlecoFormat.NegativeTableCount | blecodesktop/src/sahlaysta/bleco/dict/BlecoInputStream.java:35 | A negative count fails the sentence table, the entry table and the example list; it is never read as empty. |
| BlecoFormat.ZeroExamples | blecodesktop/src/sahlaysta/bleco/dict/BlecoInputStream.java:61-69 | An example count of 0 stores no list (null), not an empty one. |
| BlecoFormat.StringsRoundTrip | blecodesktop/src/sahlaysta/bleco/dict/BlecoInputStream.java:51-57 | A run of strings written one after another reads back as the same strings, in order, ending exactly after the last. |
| BlecoFormat.SentenceRoundTrip | blecodesktop/src/sahlaysta/bleco/dict/BlecoInputStream.java:31-33 | An example sentence written as its Chinese string and then its English string reads back as that sentence. |
| BlecoFormat.SentencesRoundTrip | blecodesktop/src/sahlaysta/bleco/dict/BlecoInputStream.java:36-37 | Sentences written one after another read back as the same sentences, in order. |
| BlecoFormat.SentenceTableRoundTrip | blecodesktop/src/sahlaysta/bleco/dict/BlecoInputStream.java:34-39 | A sentence table written as its 32-bit count followed by its sentences reads back as exactly those sentences, in file order. |
| BlecoFormat.NamesRoundTrip | blecodesktop/src/sahlaysta/bleco/dict/BlecoInputStream.java:44-47 | The four names written in the order simplified, traditional, pinyin, formatted pinyin read back in that order. |
| BlecoFormat.DefinitionsRoundTrip | blecodesktop/src/sahlaysta/bleco/dict/BlecoInputStream.java:50-57 | A one-byte definition count, the definitions and then as many normalized definitions read back as exactly those two lists. |
| BlecoFormat.ExamplesRoundTrip | blecodesktop/src/sahlaysta/bleco/dict/BlecoInputStream.java:60-81 | A 32-bit reference count and the references read back as no list when the count is 0, and otherwise as the referenced sentences, in reference order. |
| BlecoFormat.EntryRoundTrip | blecodesktop/src/sahlaysta/bleco/dict/BlecoInputStream.java:42-82 | An entry written as its names, definitions and example references reads back as that entry. |
| BlecoFormat.EntriesRoundTrip | blecodesktop/src/sahlaysta/bleco/dict/BlecoInputStream.java:85-86 | Entries written one after another read back as the same entries, in order, ending exactly after the last. |
| BlecoFormat.EntryTableRoundTrip | blecodesktop/src/sahlaysta/bleco/dict/BlecoInputStream.java:83-88 | An entry table written as its 32-bit count followed by its entries reads back as exactly those entries, in file order. |
| BlecoFormat.ChinesePairRoundTrip | blecodesktop/src/sahlaysta/bleco/dict/BlecoInputStream.java:95-98 | A byte key followed by a 16-bit count and positions below the table size reads back as that key and those positions. |
| BlecoFormat.StringPairRoundTrip | blecodesktop/src/sahlaysta/bleco/dict/BlecoInputStream.java:109-112 | A string key followed by a 16-bit count and positions below the table size reads back as that key and those positions. |
| BlecoFormat.ChinesePairsRoundTrip | blecodesktop/src/sahlaysta/bleco/dict/BlecoInputStream.java:94-100 | Groups written one after another read back as the same groups, in order. |
| BlecoFormat.StringPairsRoundTrip | blecodesktop/src/sahlaysta/bleco/dict/BlecoInputStream.java:108-114 | Groups written one after another read back as the same groups, in order. |
| BlecoFormat.ChineseIndexRoundTrip | blecodesktop/src/sahlaysta/bleco/dict/BlecoInputStream.java:91-102 | A Chinese index written as its 16-bit group count and its groups reads back as the map of those groups, a later key replacing an earlier one. |
| BlecoFormat.StringIndexRoundTrip | blecodesktop/src/sahlaysta/bleco/dict/BlecoInputStream.java:105-130 | An English or pinyin index written the same way reads back as the map of its groups. |
| BlecoFormat.FileRoundTrip | blecodesktop/src/sahlaysta/bleco/dict/BlecoInputStream.java:31-130 | A whole file written as sentence table, entry table and the Chinese, English and pinyin indexes reads back, part by part in that order, as what was written. |
| Searching.Index.Bucket | blecodesktop/src/sahlaysta/bleco/dict/DictionaryAbstractSearch.java:15 | A key has a bucket exactly when the map holds it. The bucket lists the entries at the stored positions, in order. |
| Searching.CharsEqualAsymmetric | blecodesktop/src/sahlaysta/bleco/dict/DictionaryAbstractSearch.java:108-112 | A lower-case query letter matches its upper-case stored form, but not the other way round. |
| Searching.Collect | blecodesktop/src/sahlaysta/bleco/dict/DictionaryAbstractSearch.java:24-43 | The loop that inserts full matches at the moving top and appends partial ones gives the specified list. |
| Searching.CollectedNone | blecodesktop/src/sahlaysta/bleco/dict/DictionaryAbstractSearch.java:42 | search yields null exactly when no entry of the bucket matches. |
| Searching.CollectedPermutation | blecodesktop/src/sahlaysta/bleco/dict/DictionaryAbstractSearch.java:32-40 | The results are exactly the matches of the bucket, as a multiset. |
| Searching.CollectedFullFirst | blecodesktop/src/sahlaysta/bleco/dict/DictionaryAbstractSearch.java:35-38 | Every full match comes before every partial match. |
| Searching.CollectedGroups | blecodesktop/src/sahlaysta/bleco/dict/DictionaryAbstractSearch.java:35-38 | Full matches keep bucket order among themselves, and so do partial matches. |
| Searching.FoundFromBucket | blecodesktop/src/sahlaysta/bleco/dict/DictionaryAbstractSearch.java:32-40 | A result is found exactly when it is the matcher's answer for some entry of the bucket. |
| Searching.FormatSearch | blecodesktop/src/sahlaysta/bleco/dict/DictionaryAbstractSearch.java:50-104 | The loop and the final trims compute the normalised query. |
| Searching.FormattedNormal | blecodesktop/src/sahlaysta/bleco/dict/DictionaryAbstractSearch.java:50-104 | The normalised query is lower case and has no `v` and no space. It never starts with an apostrophe or ends with one. An apostrophe never sits next to another, after a tone digit, or before one. |
| Searching.NormalFixed | blecodesktop/src/sahlaysta/bleco/dict/DictionaryAbstractSearch.java:50-104 | A query already in that normal shape is returned unchanged. |
| Searching.FormattedIdempotent | blecodesktop/src/sahlaysta/bleco/dict/DictionaryAbstractSearch.java:50-104 | Normalising twice is the same as normalising once. |
| ChineseSearching.Key | blecodesktop/src/sahlaysta/bleco/dict/DictionaryChineseSearch.java:22-26 | The key is a signed byte. |
| ChineseSearching.KeyOddEven | blecodesktop/src/sahlaysta/bleco/dict/DictionaryChineseSearch.java:23-24 | An odd code point has the same key as the even code point below it. |
| ChineseSearching.KeyLowByte | blecodesktop/src/sahlaysta/bleco/dict/DictionaryChineseSearch.java:25 | The key is the low byte of the even code point, read as a signed byte. |
| ChineseSearching.KeyEven | blecodesktop/src/sahlaysta/bleco/dict/DictionaryChineseSearch.java:22-26 | Every key is even. |
| ChineseSearching.KeyPeriodic | blecodesktop/src/sahlaysta/bleco/dict/DictionaryChineseSearch.java:22-26 | Code points 256 apart share a key. |
| ChineseSearching.GetFromIndexMap | blecodesktop/src/sahlaysta/bleco/dict/DictionaryChineseSearch.java:28-51 | The selection loop gives the specified bucket choice. |
| ChineseSearching.ChooseFound | blecodesktop/src/sahlaysta/bleco/dict/DictionaryChineseSearch.java:28-51 | The choice is null exactly when no character of the query has a bucket. Otherwise it is the bucket of some query character. |
| ChineseSearching.ChooseSmallest | blecodesktop/src/sahlaysta/bleco/dict/DictionaryChineseSearch.java:44-47 | When a Chinese character of the query has a bucket, the choice is the bucket of a Chinese character that no other Chinese character's bucket undercuts. Every later Chinese character's bucket is strictly larger, so a tie goes to the later character. |
| ChineseSearching.ChooseFirstOtherwise | blecodesktop/src/sahlaysta/bleco/dict/DictionaryChineseSearch.java:38-43 | With no Chinese bucket, the choice is the bucket of the first character that has one. |
| ChineseSearching.SyllableRange | blecodesktop/src/sahlaysta/bleco/dict/DictionaryChineseSearch.java:101-114 | The syllable window is a valid range of the pinyin. |
| ChineseSearching.SyllableRangeWord | blecodesktop/src/sahlaysta/bleco/dict/DictionaryChineseSearch.java:101-114 | With at least N spaces, the window is the syllable after the N-th space: it holds no space and ends at a space or at the end. |
| ChineseSearching.SyllableRangeBeyond | blecodesktop/src/sahlaysta/bleco/dict/DictionaryChineseSearch.java:101-102 | Past the last syllable, the window is the whole pinyin. |
| ChineseSearching.SyllableFrom | blecodesktop/src/sahlaysta/bleco/dict/DictionaryChineseSearch.java:117-161 | When the query can spell the syllable, it advances by at most the syllable's length. |
| ChineseSearching.SyllableCopy | blecodesktop/src/sahlaysta/bleco/dict/DictionaryChineseSearch.java:117-161 | A query that copies the syllable moves past all of it. |
| ChineseSearching.SyllableToneOptional | blecodesktop/src/sahlaysta/bleco/dict/DictionaryChineseSearch.java:145-155 | A query that copies the syllable but leaves out its final tone resumes right after the letters. |
| ChineseSearching.FindSyllable | blecodesktop/src/sahlaysta/bleco/dict/DictionaryChineseSearch.java:101-114 | The space-counting loop gives the specified syllable window. |
| ChineseSearching.MatchSyllable | blecodesktop/src/sahlaysta/bleco/dict/DictionaryChineseSearch.java:117-161 | The syllable comparison loop gives the specified outcome, with its early returns and its tone and `u:` rules. |
| ChineseSearching.ChineseMatch | blecodesktop/src/sahlaysta/bleco/dict/DictionaryChineseSearch.java:190-198 | A Chinese match is never full, never starts a group, and has no highlight. |
| ChineseSearching.SearchMatches | blecodesktop/src/sahlaysta/bleco/dict/DictionaryChineseSearch.java:57-199 | The walk over query and stored spellings gives the specified match. |
| ChineseSearching.Search | blecodesktop/src/sahlaysta/bleco/dict/DictionaryAbstractSearch.java:24-43 | Chinese search: the chosen bucket, then every entry of it the walk accepts, with full matches first. |
| ChineseSearching.PositionalMatch | blecodesktop/src/sahlaysta/bleco/dict/DictionaryChineseSearch.java:70-88 | A query of Chinese characters and wildcards matches exactly when neither spelling is shorter than the query and each Chinese character of the query equals the simplified or the traditional character at its position. |
| ChineseSearching.WalkPinyinSyllable | blecodesktop/src/sahlaysta/bleco/dict/DictionaryChineseSearch.java:92-165 | Where both stored characters are Chinese and the query copies that character's syllable, the walk continues after the syllable and the character. |
| PinyinSearching.Key | blecodesktop/src/sahlaysta/bleco/dict/DictionaryPinyinSearch.java:19-22 | The key has two characters: the query's first two, with an apostrophe read as a space. |
| PinyinSearching.SkipFrom | blecodesktop/src/sahlaysta/bleco/dict/DictionaryPinyinSearch.java:109-118 | The first pinyin position that is neither a space nor a tone. None exactly when only spaces and tones remain. |
| PinyinSearching.PinyinMatch | blecodesktop/src/sahlaysta/bleco/dict/DictionaryPinyinSearch.java:128-160 | A match is a pinyin result for the entry that does not start a group and has no highlight. |
| PinyinSearching.SearchMatches | blecodesktop/src/sahlaysta/bleco/dict/DictionaryPinyinSearch.java:60-161 | The two-cursor walk gives the specified match. |
| PinyinSearching.LongQueryFails | blecodesktop/src/sahlaysta/bleco/dict/DictionaryPinyinSearch.java:69-73 | A query longer than the pinyin never matches. |
| PinyinSearching.SpelledPrefixMatch | blecodesktop/src/sahlaysta/bleco/dict/DictionaryPinyinSearch.java:60-161 | A query spelling a prefix of the pinyin, with spaces as apostrophes, matches unless it stops on a `u` the pinyin writes `u:`. It is full exactly when it reaches the end or stops just before a final tone. |
| PinyinSearching.LessEqTotal | blecodesktop/src/sahlaysta/bleco/dict/DictionaryPinyinSearch.java:43 | String order is total. |
| PinyinSearching.LessEqAntisymmetric | blecodesktop/src/sahlaysta/bleco/dict/DictionaryPinyinSearch.java:43 | String order is antisymmetric. |
| PinyinSearching.LessEqTransitive | blecodesktop/src/sahlaysta/bleco/dict/DictionaryPinyinSearch.java:43 | String order is transitive. |
| PinyinSearching.SortKeys | blecodesktop/src/sahlaysta/bleco/dict/DictionaryPinyinSearch.java:43 | Collections.sort of the keys, as the specified ascending sequence. |
| PinyinSearching.SingleLetterPinyinSearch | blecodesktop/src/sahlaysta/bleco/dict/DictionaryPinyinSearch.java:36-58 | The key-gathering and bucket loops give the specified single-letter answer. |
| PinyinSearching.AddSingles | blecodesktop/src/sahlaysta/bleco/dict/DictionaryPinyinSearch.java:45-56 | The bucket loop appends the single-syllable entries as non-full pinyin results. |
| PinyinSearching.Singles | blecodesktop/src/sahlaysta/bleco/dict/DictionaryPinyinSearch.java:46-47 | A bucket yields at most one result per entry. |
| PinyinSearching.SingleLetterShape | blecodesktop/src/sahlaysta/bleco/dict/DictionaryPinyinSearch.java:36-58 | Every single-letter result is non-full, for a single-syllable entry stored under a key that starts with the letter. |
| PinyinSearching.SingleLetterComplete | blecodesktop/src/sahlaysta/bleco/dict/DictionaryPinyinSearch.java:36-58 | Every single-syllable entry stored under a key that starts with the letter is listed as a non-full pinyin result, and the search gives null exactly when no such entry exists. |
| PinyinSearching.SingleLetterOrder | blecodesktop/src/sahlaysta/bleco/dict/DictionaryPinyinSearch.java:37-43 | The keys are visited in ascending string order, and every key starting with the letter is visited. |
| PinyinSearching.Search | blecodesktop/src/sahlaysta/bleco/dict/DictionaryPinyinSearch.java:30-35 | A one-character query takes the single-letter path; a longer one takes the indexed search. |
| EnglishSearching.FirstWord | blecodesktop/src/sahlaysta/bleco/dict/DictionaryEnglishSearch.java:17-19 | The prefix of the query before its first space; it holds no space. |
| EnglishSearching.Key | blecodesktop/src/sahlaysta/bleco/dict/DictionaryEnglishSearch.java:16-26 | No key exactly when the first word is empty. Otherwise the first word cut to at most three characters. |
| EnglishSearching.BucketOf | blecodesktop/src/sahlaysta/bleco/dict/DictionaryEnglishSearch.java:16-26 | No bucket for an empty first word; otherwise the bucket of the key. |
| EnglishSearching.BaseLetter | blecodesktop/src/sahlaysta/bleco/dict/DictionaryEnglishSearch.java:95-106 | ASCII is kept. A character that changes becomes an ASCII letter. |
| EnglishSearching.StrippedAscii | blecodesktop/src/sahlaysta/bleco/dict/DictionaryEnglishSearch.java:95-98 | removeDiacritics leaves ASCII text unchanged. |
| EnglishSearching.RemoveDiacritics | blecodesktop/src/sahlaysta/bleco/dict/DictionaryEnglishSearch.java:73-111 | The loop replaces each character by its base letter. |
| EnglishSearching.TrimEnd | blecodesktop/src/sahlaysta/bleco/dict/DictionaryEnglishSearch.java:67-69 | The longest prefix that does not end in a space; only spaces are removed. |
| EnglishSearching.FormatEngSearch | blecodesktop/src/sahlaysta/bleco/dict/DictionaryEnglishSearch.java:34-72 | The loop computes the specified normalised English query. |
| EnglishSearching.FormattedEngNormal | blecodesktop/src/sahlaysta/bleco/dict/DictionaryEnglishSearch.java:34-72 | The normalised query holds only a-z, 0-9 and single spaces, with no leading or trailing space. |
| EnglishSearching.EngNormalFixed | blecodesktop/src/sahlaysta/bleco/dict/DictionaryEnglishSearch.java:34-72 | A query already in that shape is unchanged. |
| EnglishSearching.FormattedEngIdempotent | blecodesktop/src/sahlaysta/bleco/dict/DictionaryEnglishSearch.java:34-72 | Normalising twice is the same as normalising once. |
| EnglishSearching.NextBreak | blecodesktop/src/sahlaysta/bleco/dict/DictionaryEnglishSearch.java:164-173 | The first space or full stop at or after a position, or None exactly when there is none. |
| EnglishSearching.Finish | blecodesktop/src/sahlaysta/bleco/dict/DictionaryEnglishSearch.java:182-195 | The hit is full exactly when the definition ends there or a space or full stop follows. The span ends just before that point. |
| EnglishSearching.MatchDefinition | blecodesktop/src/sahlaysta/bleco/dict/DictionaryEnglishSearch.java:128-195 | The scan loop over one definition gives the specified hit. For a query not starting with a space, a hit satisfies HitOk: it starts a word, reads as the query, and is full exactly at the end of a word. |
| EnglishSearching.ScanSound | blecodesktop/src/sahlaysta/bleco/dict/DictionaryEnglishSearch.java:133-195 | From any state of the scan, a hit lies inside the definition, begins at the start or after a space or full stop, reads as the query under Reads (a full stop stands for a space or is passed over, a space after a space is passed over), and is full exactly when the definition ends after it or a space or full stop follows. |
| EnglishSearching.ScanComplete | blecodesktop/src/sahlaysta/bleco/dict/DictionaryEnglishSearch.java:133-180 | From any state of the scan, if the attempt in progress can go on to read the whole query, the scan finds a hit. |
| EnglishSearching.DefMatchSound | blecodesktop/src/sahlaysta/bleco/dict/DictionaryEnglishSearch.java:128-195 | Every hit of a definition for a query not starting with a space satisfies HitOk. |
| EnglishSearching.DefMatchComplete | blecodesktop/src/sahlaysta/bleco/dict/DictionaryEnglishSearch.java:128-180 | A definition whose beginning reads as the query always has a hit. A definition without a hit has no beginning that reads as the query. |
| EnglishSearching.HitResult | blecodesktop/src/sahlaysta/bleco/dict/DictionaryEnglishSearch.java:197-205 | An English result carries the definition index, the span and the full flag of the hit. |
| EnglishSearching.SearchMatches | blecodesktop/src/sahlaysta/bleco/dict/DictionaryEnglishSearch.java:116-210 | The definition loop gives the specified match. |
| EnglishSearching.Search | blecodesktop/src/sahlaysta/bleco/dict/DictionaryEnglishSearch.java:30-33 | English search: the normalised query is searched in the bucket of its first word. |
| EnglishSearching.EnglishMatchChoice | blecodesktop/src/sahlaysta/bleco/dict/DictionaryEnglishSearch.java:119-209 | The first definition with a full hit gives the result. With none, the last definition with a partial hit does. With no hit the entry yields null. The result carries that definition's index and span. |
| EnglishSearching.ExactDefinition | blecodesktop/src/sahlaysta/bleco/dict/DictionaryEnglishSearch.java:133-195 | A definition equal to the normalised query is a full hit spanning the whole definition. |
| EnglishSearching.RestartSkipsOverlap | blecodesktop/src/sahlaysta/bleco/dict/DictionaryEnglishSearch.java:162-175 | After a mismatch, scanning restarts after the break that follows the mismatch: "ab c" is not found in "ab ab c". |
| EnglishSearching.StopMatchesSpace | blecodesktop/src/sahlaysta/bleco/dict/DictionaryEnglishSearch.java:143-152 | A full stop in the definition stands for a space of the query. |
| EnglishSearching.LaterWordMatches | blecodesktop/src/sahlaysta/bleco/dict/DictionaryEnglishSearch.java:162-175 | A query is found at a later word, and the span begins at that word. |
| SentenceHelper.IndexOf | blecodesktop/src/sahlaysta/bleco/dict/DictionarySentenceHelper.java:149 | The first occurrence from a position, or None exactly when there is none. |
| SentenceHelper.OccurrencesExact | blecodesktop/src/sahlaysta/bleco/dict/DictionarySentenceHelper.java:144-156 | indexesOf lists every position of the character, each once, in ascending order. |
| SentenceHelper.IndexesOf | blecodesktop/src/sahlaysta/bleco/dict/DictionarySentenceHelper.java:144-156 | The indexOf loop gives the specified occurrences. |
| SentenceHelper.SameLetterSymmetric | blecodesktop/src/sahlaysta/bleco/dict/DictionarySentenceHelper.java:136-140 | Unlike the searches' test, this character test is symmetric and ignores ASCII case. |
| SentenceHelper.CandidateMatches | blecodesktop/src/sahlaysta/bleco/dict/DictionarySentenceHelper.java:120-134 | PossibleMatch.matches: the spelling sits in the sentence at its index, letter by letter up to case. |
| SentenceHelper.Placed | blecodesktop/src/sahlaysta/bleco/dict/DictionarySentenceHelper.java:37-50 | Every candidate is placed so that it covers the cursor, and starts at the cursor when lookbehind is excluded. |
| SentenceHelper.CandidatesOf | blecodesktop/src/sahlaysta/bleco/dict/DictionarySentenceHelper.java:36-51 | Every candidate is a non-empty spelling of an entry of the table, placed over the cursor. |
| SentenceHelper.CollectCandidates | blecodesktop/src/sahlaysta/bleco/dict/DictionarySentenceHelper.java:36-51 | The loops over the bucket and the occurrences give the specified candidates. |
| SentenceHelper.AddPlaced | blecodesktop/src/sahlaysta/bleco/dict/DictionarySentenceHelper.java:37-43 | The inner loop appends one spelling's candidates. |
| SentenceHelper.ByLengthLongestFirst | blecodesktop/src/sahlaysta/bleco/dict/DictionarySentenceHelper.java:53-56 | The sort puts longer spellings first and keeps every candidate (a permutation). |
| SentenceHelper.FindFirstMatch | blecodesktop/src/sahlaysta/bleco/dict/DictionarySentenceHelper.java:58-65 | The loop stops at the first candidate that fits. |
| SentenceHelper.FirstMatchFound | blecodesktop/src/sahlaysta/bleco/dict/DictionarySentenceHelper.java:58-65 | The candidate taken is in the list and fits the sentence. |
| SentenceHelper.LongestMatch | blecodesktop/src/sahlaysta/bleco/dict/DictionarySentenceHelper.java:53-65 | Nothing is taken exactly when no candidate fits. Otherwise the taken candidate fits and no fitting candidate is longer. |
| SentenceHelper.BucketOf | blecodesktop/src/sahlaysta/bleco/dict/DictionarySentenceHelper.java:33-34 | A bucket exists exactly when the Chinese index has the character's key; its positions are in the table. |
| SentenceHelper.AlternatesExact | blecodesktop/src/sahlaysta/bleco/dict/DictionarySentenceHelper.java:85-104 | The alternates are the other entries with the same spelling at the same place: each once, never the chosen word's entry, each tagged as a sentence-split result that does not start a group. |
| SentenceHelper.AddAlternates | blecodesktop/src/sahlaysta/bleco/dict/DictionarySentenceHelper.java:85-104 | The loop with its `added` list appends the specified alternates. |
| SentenceHelper.WordAt | blecodesktop/src/sahlaysta/bleco/dict/DictionarySentenceHelper.java:27-65 | Failure at the position when the bucket is missing. A taken word starts there, is non-empty, lies inside the sentence and belongs to the table. |
| SentenceHelper.StepMeaning | blecodesktop/src/sahlaysta/bleco/dict/DictionarySentenceHelper.java:27-104 | A pass stops exactly where the character has no bucket. It skips only where no candidate starting there fits. The word it takes fits, starts there, and is at least as long as every fitting candidate. |
| SentenceHelper.SplitStep | blecodesktop/src/sahlaysta/bleco/dict/DictionarySentenceHelper.java:27-104 | One pass of the split loop gives the specified step. |
| SentenceHelper.SplitChineseSentence | blecodesktop/src/sahlaysta/bleco/dict/DictionarySentenceHelper.java:17-108 | The split loop gives the specified result. |
| SentenceHelper.RunWords | blecodesktop/src/sahlaysta/bleco/dict/DictionarySentenceHelper.java:27-105 | The results and the taken words agree: they fail at the same place, every result is a sentence-split result, and the group starts are the words' entries in order. |
| SentenceHelper.WordsTaken | blecodesktop/src/sahlaysta/bleco/dict/DictionarySentenceHelper.java:68-83 | Each word is the one taken by the pass at its own start. |
| SentenceHelper.WordsOrdered | blecodesktop/src/sahlaysta/bleco/dict/DictionarySentenceHelper.java:83 | The words come in order, do not overlap, and lie inside the sentence. |
| SentenceHelper.WordsGaps | blecodesktop/src/sahlaysta/bleco/dict/DictionarySentenceHelper.java:68-71 | Every position no word covers is one where no word fits. |
| SentenceHelper.SplitSentenceWords | blecodesktop/src/sahlaysta/bleco/dict/DictionarySentenceHelper.java:17-108 | Over the lower-cased sentence, the group starts are the entries of the words taken, which tile the sentence in order, each the longest fit at its start. The result is None exactly when no word is taken, and Failure exactly when a bucket is missing. |
| SentenceHelper.FindChineseWord | blecodesktop/src/sahlaysta/bleco/dict/DictionarySentenceHelper.java:160-203 | The loops give the specified word. |
| SentenceHelper.FindWordNone | blecodesktop/src/sahlaysta/bleco/dict/DictionarySentenceHelper.java:166-202 | Nothing is found exactly when no candidate fits the sentence. |
| SentenceHelper.FindWordFound | blecodesktop/src/sahlaysta/bleco/dict/DictionarySentenceHelper.java:160-203 | The word found spans the index, lies inside the sentence, and is a spelling of a table entry that matches letter by letter up to case. No fitting candidate is longer. |
| Dictionaries.LoadStoredFile | blecodesktop/src/sahlaysta/bleco/dict/Dictionary.java:174-189 | Loading the bytes of a written file succeeds and holds exactly the written sentences and entries, and searchers built on the maps of the written index groups. |
| Dictionaries.ReloadConsistent | blecodesktop/src/sahlaysta/bleco/dict/Dictionary.java:174-189 | A load keeps every searcher within its own entry table, whether the load succeeds or fails. The dictionary is loaded exactly when the load succeeds. |
| Dictionaries.ReloadSearchers | blecodesktop/src/sahlaysta/bleco/dict/Dictionary.java:179-186 | After a load each searcher is either the previous one or one built on the new entry table. |
| Dictionaries.ReloadReplaces | blecodesktop/src/sahlaysta/bleco/dict/Dictionary.java:174-189 | After a successful load, what the dictionary held before makes no difference. |
| Dictionaries.ReloadIdempotent | blecodesktop/src/sahlaysta/bleco/dict/Dictionary.java:174-189 | Loading the same file twice is the same as loading it once. |
| Dictionaries.QueryKinds | blecodesktop/src/sahlaysta/bleco/dict/Dictionary.java:60-97 | A search answers with one searcher's results: a list all of one kind. Sentence-split results come only for a search holding a Chinese character. A wildcard search answers only with Chinese results, and only when it holds a Chinese character. |
| Dictionaries.FailedLoadRefuses | blecodesktop/src/sahlaysta/bleco/dict/Dictionary.java:61-62 | After a failed load, search and findChineseWord refuse as not loaded. |
| Dictionaries.EnglishQueryResults | blecodesktop/src/sahlaysta/bleco/dict/Dictionary.java:140-146 | englishSearch never answers with an empty list, and its results are English results. |
| Dictionaries.WordQueryFound | blecodesktop/src/sahlaysta/bleco/dict/Dictionary.java:161-165 | The word found covers the index, lies inside the sentence, and is the simplified or traditional spelling of an entry of the loaded table. |
| Dictionaries.CollectedKind | blecodesktop/src/sahlaysta/bleco/dict/DictionaryAbstractSearch.java:32-40 | A list collected from a bucket has the kind every match has. |
| Dictionaries.ChineseKind | blecodesktop/src/sahlaysta/bleco/dict/DictionaryChineseSearch.java:190-198 | Chinese search results are all Chinese results. |
| Dictionaries.PinyinKind | blecodesktop/src/sahlaysta/bleco/dict/DictionaryPinyinSearch.java:48-56 | Pinyin search results are all pinyin results. |
| Dictionaries.EnglishKind | blecodesktop/src/sahlaysta/bleco/dict/DictionaryEnglishSearch.java:197-205 | English search results are all English results. |
| Dictionaries.Dictionary.constructor | blecodesktop/src/sahlaysta/bleco/dict/Dictionary.java:174-175 | A new dictionary is empty and not loaded. |
| Dictionaries.Dictionary.Load | blecodesktop/src/sahlaysta/bleco/dict/Dictionary.java:174-189 | The fields are updated in place, and the new state is the one the load specification gives. The dictionary stays consistent, and the outcome is reported. |
| Dictionaries.Dictionary.ReadIndexes | blecodesktop/src/sahlaysta/bleco/dict/Dictionary.java:181-188 | The three index reads and searcher assignments give the specified state. |
| Dictionaries.Dictionary.WildcardSearch | blecodesktop/src/sahlaysta/bleco/dict/Dictionary.java:105-115 | The Chinese search runs only when some character other than `*` is Chinese. |
| Dictionaries.Dictionary.SentenceSplitSearch | blecodesktop/src/sahlaysta/bleco/dict/Dictionary.java:116-124 | The split runs only when the search holds a Chinese character. |
| Dictionaries.Dictionary.Search | blecodesktop/src/sahlaysta/bleco/dict/Dictionary.java:60-97 | The dispatch over the searchers gives the specified answer. |
| Dictionaries.Dictionary.EnglishSearch | blecodesktop/src/sahlaysta/bleco/dict/Dictionary.java:140-146 | Asks the English searcher whatever the loaded flag says; an empty list is no answer. |
| Dictionaries.Dictionary.FindChineseWord | blecodesktop/src/sahlaysta/bleco/dict/Dictionary.java:161-165 | Refuses when not loaded, and fails for an index outside the sentence. Otherwise it answers as the sentence helper does. |

## Left out

- I/O: `IOException`, the `BufferedInputStream` wrapper and `close()` are not modelled. `load` reads from the whole file content, given as a byte sequence.
- A short `read(byte[])`: the model reports a missing byte as `Truncated`. In the source, the tail of the buffer would stay zero and a later read would fail.
- `read()` returning -1 at the end of the stream is reported as `Truncated`. The source then fails allocating an array of size -1.
- Utf8.Decode: a malformed byte becomes one U+FFFD. Java's exact grouping of malformed sequences into replacement characters is not modelled. Characters outside the Basic Multilingual Plane (surrogate pairs) are not modelled anywhere.
- Text.Lower: case folding covers ASCII only. Java's `toLowerCase` of other scripts is not modelled.
- EnglishSearching.BaseLetter: the NFD decomposition covers ASCII and the letters of Latin-1. Other characters with a decomposition (for example the Kelvin sign) are kept and then dropped as symbols.
- ChineseSearching.ChineseMatch: a traditional spelling shorter than the simplified one makes the source throw an index exception. The model answers "no match" there.
- ChineseSearching.ChooseFound, ChineseSearching.ChooseSmallest and ChineseSearching.ChooseFirstOtherwise: these assume every bucket holds fewer than Integer.MAX_VALUE - 1 entries. The file stores bucket sizes in 16 bits, so this always holds.
- PinyinSearching.Search: requires a non-empty query. The source throws on an empty one in `substring(0, 2)`, and `search` only passes non-empty formatted queries.
- SentenceHelper.SplitChineseSentence: a character with no Chinese bucket makes the source dereference null. The model returns `Failure` with that position, and `search` reports it as `MissingBucket`.
- SentenceHelper.ByLength: Collections.sort (stable) is modelled as a stable insertion sort. Its stability is built in but not stated as a lemma.
- EnglishSearching.DefMatchSound: stated for a query that does not start with a space. Every normalised query is one (`FormattedEngNormal`). For a query made only of spaces, the span the source computes would begin after its end.
- EnglishSearching.DefMatchComplete: completeness is stated for the beginning of the definition, and in `ScanComplete` for the attempt in progress, not for every word start. After a mismatch the scan restarts at the break after the mismatch, so a later word start that reads as the query can be skipped (`RestartSkipsOverlap`).
- PinyinSearching.SingleLetterPinyinSearch: a key of the pinyin index that is the empty string is skipped (`PinyinSearching.KeysOf`). The source's `s.charAt(0)` (DictionaryPinyinSearch.java:39) would throw on it. An exception escaping a search is not modelled. The index is keyed by the first two letters of each pinyin (DictionaryPinyinSearch.java:14-17), so no key is expected to be empty.
- PinyinSearching.SortKeys: Collections.sort of the keys is modelled as repeated selection of the least remaining key. This gives the same sequence, because keys are distinct.
- Dictionaries.Query: a null search string and `Collections.unmodifiableList` are not modelled. The loop `for (i) switch (i)` is written as the same four tries in sequence.
- Dictionaries.WordQuery: an index outside the sentence fails with `BadIndex`, where the source throws `StringIndexOutOfBoundsException`.
- Dictionaries.Dictionary.ReadIndexes is a helper that holds the last three steps of `load`; it has no counterpart of its own in the source.
- On a failed read, the model does not say where the cursor of the stream ends up.
- The character type that `Entry` keeps in a global `AtomicLong` is modelled as a class with one field. The display functions take the type as a parameter.
- Dictionaries.EnglishQuery: `englishSearch` ignores the loaded flag. After a load that fails part way, the English searcher may still serve the previous entry table; `ReloadSearchers` states this.
- The GUI, preferences and handwriting input that call the engine are not part of this model.
