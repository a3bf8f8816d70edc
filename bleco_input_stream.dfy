/** The .bleco dictionary file reader (BlecoInputStream.java).
  *
  * The file is read front to back: integers are big-endian (Java's
  * DataInputStream), strings are an unsigned 16-bit byte count followed by
  * that many UTF-8 bytes. Each reading step is given twice: as a pure parser
  * over the byte sequence and a position, which the properties below are
  * stated about, and as a method of the stream class, which advances the
  * cursor and is proved to agree with the parser. */
module BlecoInput {
  import opened Wrappers
  import opened Text
  import opened Utf8
  import opened Entries

  /** Why a load fails: the stream ended early, a table count was negative
    * (NegativeArraySizeException in the source), or a stored position lies
    * outside the table it refers to (ArrayIndexOutOfBoundsException). */
  datatype LoadError = Truncated | NegativeCount | BadReference

  /** A value read from the stream and the position just after it. */
  datatype Parsed<T> = Parsed(value: T, next: nat)

  type ParseResult<T> = Result<Parsed<T>, LoadError>

  const TwoTo31: int := 0x8000_0000
  const TwoTo32: int := 0x1_0000_0000

  // ---------------------------------------------------------------------
  // Primitive fields

  /** readChar: an unsigned big-endian 16-bit value. */
  function ReadU16(d: seq<byte>, p: nat): (r: ParseResult<nat>)
    ensures r.Success? <==> p + 2 <= |d|
    ensures r.Success? ==> r.value.next == p + 2 && r.value.value == (d[p] as int) * 256 + d[p + 1] as int
    ensures r.Success? ==> r.value.value < 0x1_0000
  {
    if p + 2 > |d| then Failure(Truncated)
    else Success(Parsed(((d[p] as int) * 256 + d[p + 1] as int) as nat, p + 2))
  }

  /** readInt: a signed (two's complement) big-endian 32-bit value. */
  function ReadI32(d: seq<byte>, p: nat): (r: ParseResult<int>)
    ensures r.Success? <==> p + 4 <= |d|
    ensures r.Success? ==> r.value.next == p + 4 && -TwoTo31 <= r.value.value < TwoTo31
  {
    if p + 4 > |d| then Failure(Truncated)
    else
      var u := (((d[p] as int) * 256 + d[p + 1] as int) * 256 + d[p + 2]) * 256 + d[p + 3];
      Success(Parsed(if u >= TwoTo31 then u - TwoTo32 else u, p + 4))
  }

  /** readByte: a signed 8-bit value. */
  function ReadI8(d: seq<byte>, p: nat): (r: ParseResult<int>)
    ensures r.Success? <==> p + 1 <= |d|
    ensures r.Success? ==> r.value.next == p + 1 && -128 <= r.value.value < 128
  {
    if p + 1 > |d| then Failure(Truncated)
    else Success(Parsed(if d[p] >= 128 then d[p] as int - 256 else d[p] as int, p + 1))
  }

  /** read(): an unsigned 8-bit value. At the end of the stream the source
    * gets -1 and then fails allocating an array of that size. */
  function ReadU8(d: seq<byte>, p: nat): (r: ParseResult<nat>)
    ensures r.Success? <==> p + 1 <= |d|
    ensures r.Success? ==> r.value.next == p + 1 && r.value.value == d[p] as int
  {
    if p + 1 > |d| then Failure(Truncated)
    else Success(Parsed(d[p] as nat, p + 1))
  }

  /** The byte part of readString: a 16-bit byte count n, then n bytes. The
    * source reads them with a single read(b); a short read there would leave
    * the tail zero and make the next read of the load fail, so a missing
    * byte is reported here as Truncated. */
  function ReadBytesAt(d: seq<byte>, p: nat): (r: ParseResult<seq<byte>>)
    ensures r.Success? <==> p + 2 <= |d| && p + 2 + (d[p] as int) * 256 + d[p + 1] as int <= |d|
    ensures r.Success? ==> var n := (d[p] as int) * 256 + d[p + 1] as int;
      r.value.next == p + 2 + n && r.value.value == d[p + 2..p + 2 + n]
  {
    var n :- ReadU16(d, p);
    if n.next + n.value > |d| then Failure(Truncated)
    else Success(Parsed(d[n.next..n.next + n.value], n.next + n.value))
  }

  /** readString: the bytes decoded as UTF-8. */
  function ReadStringAt(d: seq<byte>, p: nat): (r: ParseResult<string>)
    ensures r.Success? <==> ReadBytesAt(d, p).Success?
    ensures r.Success? ==> r.value.next == ReadBytesAt(d, p).value.next
  {
    var raw :- ReadBytesAt(d, p);
    Success(Parsed(Decode(raw.value), raw.next))
  }

  // ---------------------------------------------------------------------
  // Counted tables (each read left to right, kept in stream order)

  /** `n` strings in a row. */
  function ReadStrings(d: seq<byte>, p: nat, n: nat): (r: ParseResult<seq<string>>)
    ensures r.Success? ==> |r.value.value| == n
  {
    if n == 0 then Success(Parsed([], p))
    else
      var prev :- ReadStrings(d, p, n - 1);
      var s :- ReadStringAt(d, prev.next);
      Success(Parsed(prev.value + [s.value], s.next))
  }

  /** `n` signed 32-bit positions, each of which must lie in [0, bound). */
  function ReadRefs(d: seq<byte>, p: nat, n: nat, bound: nat): (r: ParseResult<seq<nat>>)
    ensures r.Success? ==> |r.value.value| == n
    ensures r.Success? ==> forall k :: 0 <= k < n ==> r.value.value[k] < bound
  {
    if n == 0 then Success(Parsed([], p))
    else
      var prev :- ReadRefs(d, p, n - 1, bound);
      var x :- ReadI32(d, prev.next);
      if x.value < 0 || x.value >= bound then Failure(BadReference)
      else Success(Parsed(prev.value + [x.value as nat], x.next))
  }

  function ReadSentenceAt(d: seq<byte>, p: nat): ParseResult<ExampleSentence> {
    var chinese :- ReadStringAt(d, p);
    var english :- ReadStringAt(d, chinese.next);
    Success(Parsed(ExampleSentence(chinese.value, english.value), english.next))
  }

  function ReadSentences(d: seq<byte>, p: nat, n: nat): (r: ParseResult<seq<ExampleSentence>>)
    ensures r.Success? ==> |r.value.value| == n
  {
    if n == 0 then Success(Parsed([], p))
    else
      var prev :- ReadSentences(d, p, n - 1);
      var s :- ReadSentenceAt(d, prev.next);
      Success(Parsed(prev.value + [s.value], s.next))
  }

  /** readExampleSentences: a signed 32-bit count, then that many
    * (chinese, english) string pairs. */
  function ReadSentenceTable(d: seq<byte>, p: nat): (r: ParseResult<seq<ExampleSentence>>)
    ensures r.Success? ==>
              ReadI32(d, p).Success? && ReadI32(d, p).value.value >= 0
              && |r.value.value| == ReadI32(d, p).value.value
  {
    var count :- ReadI32(d, p);
    if count.value < 0 then Failure(NegativeCount)
    else ReadSentences(d, count.next, count.value)
  }

  /** The four names that open an entry: simplified, traditional, pinyin
    * and formatted pinyin. */
  function ReadNamesAt(d: seq<byte>, p: nat): ParseResult<(string, string, string, string)> {
    var simplified :- ReadStringAt(d, p);
    var traditional :- ReadStringAt(d, simplified.next);
    var pinyin :- ReadStringAt(d, traditional.next);
    var formattedPinyin :- ReadStringAt(d, pinyin.next);
    Success(Parsed((simplified.value, traditional.value, pinyin.value, formattedPinyin.value),
                   formattedPinyin.next))
  }

  /** An unsigned 8-bit count, that many definitions, then the same number
    * of normalized definitions. */
  function ReadDefinitionsAt(d: seq<byte>, p: nat): (r: ParseResult<(seq<string>, seq<string>)>)
    ensures r.Success? ==> |r.value.value.0| == |r.value.value.1| < 256
  {
    var count :- ReadU8(d, p);
    var definitions :- ReadStrings(d, count.next, count.value);
    var normalized :- ReadStrings(d, definitions.next, count.value);
    Success(Parsed((definitions.value, normalized.value), normalized.next))
  }

  /** The sentences the references point at, in reference order. */
  function Resolve(sentences: seq<ExampleSentence>, refs: seq<nat>): (r: seq<ExampleSentence>)
    requires forall k :: 0 <= k < |refs| ==> refs[k] < |sentences|
    ensures |r| == |refs| && forall k :: 0 <= k < |refs| ==> r[k] == sentences[refs[k]]
  {
    seq(|refs|, k requires 0 <= k < |refs| => sentences[refs[k]])
  }

  /** A signed 32-bit count of example references: 0 gives no list at all,
    * otherwise each reference is a position in the sentence table. */
  function ReadExamplesAt(d: seq<byte>, p: nat, sentences: seq<ExampleSentence>)
    : (r: ParseResult<Option<seq<ExampleSentence>>>)
    ensures r.Success? && r.value.value.Some? ==> |r.value.value.value| > 0
  {
    var refCount :- ReadI32(d, p);
    if refCount.value == 0 then Success(Parsed(None, refCount.next))
    else if refCount.value < 0 then Failure(NegativeCount)
    else
      var refs :- ReadRefs(d, refCount.next, refCount.value, |sentences|);
      Success(Parsed(Some(Resolve(sentences, refs.value)), refs.next))
  }

  /** readEntry: the names, the definitions and the example references. */
  function ReadEntryAt(d: seq<byte>, p: nat, sentences: seq<ExampleSentence>): (r: ParseResult<Entry>)
    ensures r.Success? ==> |r.value.value.normalizedDefinitions| == |r.value.value.definitions| < 256
  {
    var names :- ReadNamesAt(d, p);
    var defs :- ReadDefinitionsAt(d, names.next);
    var examples :- ReadExamplesAt(d, defs.next, sentences);
    var (simplified, traditional, pinyin, formattedPinyin) := names.value;
    Success(Parsed(Entry(simplified, traditional, pinyin, formattedPinyin,
                         defs.value.0, defs.value.1, examples.value), examples.next))
  }

  function ReadEntriesAt(d: seq<byte>, p: nat, n: nat, sentences: seq<ExampleSentence>): (r: ParseResult<seq<Entry>>)
    ensures r.Success? ==> |r.value.value| == n
  {
    if n == 0 then Success(Parsed([], p))
    else
      var prev :- ReadEntriesAt(d, p, n - 1, sentences);
      var e :- ReadEntryAt(d, prev.next, sentences);
      Success(Parsed(prev.value + [e.value], e.next))
  }

  /** readEntries: a signed 32-bit count, then exactly that many entries. */
  function ReadEntryTable(d: seq<byte>, p: nat, sentences: seq<ExampleSentence>): (r: ParseResult<seq<Entry>>)
    ensures r.Success? ==>
              ReadI32(d, p).Success? && ReadI32(d, p).value.value >= 0
              && |r.value.value| == ReadI32(d, p).value.value
  {
    var count :- ReadI32(d, p);
    if count.value < 0 then Failure(NegativeCount)
    else ReadEntriesAt(d, count.next, count.value, sentences)
  }

  // ---------------------------------------------------------------------
  // Index tables

  /** The map the source builds with successive HashMap.put calls: a later
    * pair replaces an earlier one with the same key. */
  function ToMap<K>(pairs: seq<(K, seq<nat>)>): map<K, seq<nat>> {
    if pairs == [] then map[]
    else ToMap(pairs[..|pairs| - 1])[pairs[|pairs| - 1].0 := pairs[|pairs| - 1].1]
  }

  /** A Chinese index key (one signed byte) and its positions. */
  function ReadChinesePairAt(d: seq<byte>, p: nat, bound: nat): (r: ParseResult<(int, seq<nat>)>)
    ensures r.Success? ==> forall j :: 0 <= j < |r.value.value.1| ==> r.value.value.1[j] < bound
  {
    var key :- ReadI8(d, p);
    var count :- ReadU16(d, key.next);
    var values :- ReadRefs(d, count.next, count.value, bound);
    Success(Parsed((key.value, values.value), values.next))
  }

  /** An English or pinyin index key (a string) and its positions. */
  function ReadStringPairAt(d: seq<byte>, p: nat, bound: nat): (r: ParseResult<(string, seq<nat>)>)
    ensures r.Success? ==> forall j :: 0 <= j < |r.value.value.1| ==> r.value.value.1[j] < bound
  {
    var key :- ReadStringAt(d, p);
    var count :- ReadU16(d, key.next);
    var values :- ReadRefs(d, count.next, count.value, bound);
    Success(Parsed((key.value, values.value), values.next))
  }

  function ReadChinesePairs(d: seq<byte>, p: nat, n: nat, bound: nat): (r: ParseResult<seq<(int, seq<nat>)>>)
    ensures r.Success? ==> |r.value.value| == n
  {
    if n == 0 then Success(Parsed([], p))
    else
      var prev :- ReadChinesePairs(d, p, n - 1, bound);
      var x :- ReadChinesePairAt(d, prev.next, bound);
      Success(Parsed(prev.value + [x.value], x.next))
  }

  function ReadStringPairs(d: seq<byte>, p: nat, n: nat, bound: nat): (r: ParseResult<seq<(string, seq<nat>)>>)
    ensures r.Success? ==> |r.value.value| == n
  {
    if n == 0 then Success(Parsed([], p))
    else
      var prev :- ReadStringPairs(d, p, n - 1, bound);
      var x :- ReadStringPairAt(d, prev.next, bound);
      Success(Parsed(prev.value + [x.value], x.next))
  }

  /** readChineseIndexMap: an unsigned 16-bit size, then that many
    * (byte key, 16-bit count, positions) groups. */
  function ReadChineseIndex(d: seq<byte>, p: nat, bound: nat): ParseResult<map<int, seq<nat>>> {
    var size :- ReadU16(d, p);
    var pairs :- ReadChinesePairs(d, size.next, size.value, bound);
    Success(Parsed(ToMap(pairs.value), pairs.next))
  }

  /** readEnglishIndexMap and readPinyinIndexMap: the same layout with string keys. */
  function ReadStringIndex(d: seq<byte>, p: nat, bound: nat): ParseResult<map<string, seq<nat>>> {
    var size :- ReadU16(d, p);
    var pairs :- ReadStringPairs(d, size.next, size.value, bound);
    Success(Parsed(ToMap(pairs.value), pairs.next))
  }

  /** Pairs put into a map one after another: a key is present exactly when
    * some pair carries it, and it maps to the value of the last such pair. */
  lemma {:induction false} ToMapLast<K>(pairs: seq<(K, seq<nat>)>, i: nat)
    requires i < |pairs|
    requires forall j :: i < j < |pairs| ==> pairs[j].0 != pairs[i].0
    ensures pairs[i].0 in ToMap(pairs) && ToMap(pairs)[pairs[i].0] == pairs[i].1
    decreases |pairs|
  {
    if i < |pairs| - 1 {
      ToMapLast(pairs[..|pairs| - 1], i);
    }
  }

  lemma {:induction false} ToMapKeys<K>(pairs: seq<(K, seq<nat>)>, k: K)
    ensures k in ToMap(pairs) <==> exists i :: 0 <= i < |pairs| && pairs[i].0 == k
    decreases |pairs|
  {
    if pairs != [] {
      var init := pairs[..|pairs| - 1];
      ToMapKeys(init, k);
      if k in ToMap(init) {
        var i :| 0 <= i < |init| && init[i].0 == k;
        assert pairs[i].0 == k;
      }
      if exists i :: 0 <= i < |pairs| && pairs[i].0 == k {
        var i :| 0 <= i < |pairs| && pairs[i].0 == k;
        if i < |init| {
          assert init[i].0 == k;
        }
      }
    }
  }

  /** Every position stored in an index map lies below `bound`, the number
    * of entries the positions refer to. */
  ghost predicate InRange<K>(m: map<K, seq<nat>>, bound: nat) {
    forall k :: k in m ==> forall j :: 0 <= j < |m[k]| ==> m[k][j] < bound
  }

  ghost predicate PairsInRange<K>(pairs: seq<(K, seq<nat>)>, bound: nat) {
    forall i, j :: 0 <= i < |pairs| && 0 <= j < |pairs[i].1| ==> pairs[i].1[j] < bound
  }

  lemma {:induction false} ToMapInRange<K>(pairs: seq<(K, seq<nat>)>, bound: nat)
    requires PairsInRange(pairs, bound)
    ensures InRange(ToMap(pairs), bound)
    decreases |pairs|
  {
    if pairs != [] {
      var init := pairs[..|pairs| - 1];
      assert PairsInRange(init, bound) by {
        forall i, j | 0 <= i < |init| && 0 <= j < |init[i].1| ensures init[i].1[j] < bound {
          assert init[i] == pairs[i];
        }
      }
      ToMapInRange(init, bound);
    }
  }

  lemma SnocInRange<K>(pairs: seq<(K, seq<nat>)>, x: (K, seq<nat>), bound: nat)
    requires PairsInRange(pairs, bound)
    requires forall j :: 0 <= j < |x.1| ==> x.1[j] < bound
    ensures PairsInRange(pairs + [x], bound)
  {
    var all := pairs + [x];
    forall i, j | 0 <= i < |all| && 0 <= j < |all[i].1| ensures all[i].1[j] < bound {
      if i < |pairs| {
        assert all[i] == pairs[i];
      }
    }
  }

  lemma {:induction false} ChinesePairsInRange(d: seq<byte>, p: nat, n: nat, bound: nat)
    requires ReadChinesePairs(d, p, n, bound).Success?
    ensures PairsInRange(ReadChinesePairs(d, p, n, bound).value.value, bound)
  {
    if n > 0 {
      var prev := ReadChinesePairs(d, p, n - 1, bound);
      ChinesePairsInRange(d, p, n - 1, bound);
      var x := ReadChinesePairAt(d, prev.value.next, bound);
      SnocInRange(prev.value.value, x.value.value, bound);
    }
  }

  lemma {:induction false} StringPairsInRange(d: seq<byte>, p: nat, n: nat, bound: nat)
    requires ReadStringPairs(d, p, n, bound).Success?
    ensures PairsInRange(ReadStringPairs(d, p, n, bound).value.value, bound)
  {
    if n > 0 {
      var prev := ReadStringPairs(d, p, n - 1, bound);
      StringPairsInRange(d, p, n - 1, bound);
      var x := ReadStringPairAt(d, prev.value.next, bound);
      SnocInRange(prev.value.value, x.value.value, bound);
    }
  }


  /** A Chinese index that loads refers only to entries of the table it was
    * loaded against: every stored position is below `bound`. */
  lemma ChineseIndexInRange(d: seq<byte>, p: nat, bound: nat)
    requires ReadChineseIndex(d, p, bound).Success?
    ensures InRange(ReadChineseIndex(d, p, bound).value.value, bound)
  {
    var size := ReadU16(d, p).value;
    ChinesePairsInRange(d, size.next, size.value, bound);
    ToMapInRange(ReadChinesePairs(d, size.next, size.value, bound).value.value, bound);
  }

  /** The same for the English and pinyin indexes. */
  lemma StringIndexInRange(d: seq<byte>, p: nat, bound: nat)
    requires ReadStringIndex(d, p, bound).Success?
    ensures InRange(ReadStringIndex(d, p, bound).value.value, bound)
  {
    var size := ReadU16(d, p).value;
    StringPairsInRange(d, size.next, size.value, bound);
    ToMapInRange(ReadStringPairs(d, size.next, size.value, bound).value.value, bound);
  }

  // ---------------------------------------------------------------------
  // A run that fails part way fails as a whole, with the same error

  lemma StringsFailed(d: seq<byte>, p: nat, m: nat, n: nat)
    requires m <= n && ReadStrings(d, p, m).Failure?
    ensures ReadStrings(d, p, n) == Failure(ReadStrings(d, p, m).error)
  {
  }

  lemma RefsFailed(d: seq<byte>, p: nat, m: nat, n: nat, bound: nat)
    requires m <= n && ReadRefs(d, p, m, bound).Failure?
    ensures ReadRefs(d, p, n, bound) == Failure(ReadRefs(d, p, m, bound).error)
  {
  }

  lemma SentencesFailed(d: seq<byte>, p: nat, m: nat, n: nat)
    requires m <= n && ReadSentences(d, p, m).Failure?
    ensures ReadSentences(d, p, n) == Failure(ReadSentences(d, p, m).error)
  {
  }

  lemma EntriesFailed(d: seq<byte>, p: nat, m: nat, n: nat, sentences: seq<ExampleSentence>)
    requires m <= n && ReadEntriesAt(d, p, m, sentences).Failure?
    ensures ReadEntriesAt(d, p, n, sentences) == Failure(ReadEntriesAt(d, p, m, sentences).error)
  {
  }

  lemma ChinesePairsFailed(d: seq<byte>, p: nat, m: nat, n: nat, bound: nat)
    requires m <= n && ReadChinesePairs(d, p, m, bound).Failure?
    ensures ReadChinesePairs(d, p, n, bound) == Failure(ReadChinesePairs(d, p, m, bound).error)
  {
  }

  lemma StringPairsFailed(d: seq<byte>, p: nat, m: nat, n: nat, bound: nat)
    requires m <= n && ReadStringPairs(d, p, m, bound).Failure?
    ensures ReadStringPairs(d, p, n, bound) == Failure(ReadStringPairs(d, p, m, bound).error)
  {
  }

  lemma SentencesStep(d: seq<byte>, p: nat, n: nat, acc: seq<ExampleSentence>, q: nat)
    requires ReadSentences(d, p, n) == Success(Parsed(acc, q))
    ensures var x := ReadSentenceAt(d, q);
      ReadSentences(d, p, n + 1)
      == if x.Success? then Success(Parsed(acc + [x.value.value], x.value.next)) else Failure(x.error)
  {
  }

  lemma StringsNext(d: seq<byte>, p: nat, n: nat, acc: seq<string>, q: nat)
    requires ReadStrings(d, p, n) == Success(Parsed(acc, q))
    ensures var x := ReadStringAt(d, q);
      ReadStrings(d, p, n + 1)
      == if x.Success? then Success(Parsed(acc + [x.value.value], x.value.next)) else Failure(x.error)
  {
  }

  lemma RefsNext(d: seq<byte>, p: nat, n: nat, bound: nat, acc: seq<nat>, q: nat)
    requires ReadRefs(d, p, n, bound) == Success(Parsed(acc, q))
    ensures var x := ReadI32(d, q);
      ReadRefs(d, p, n + 1, bound)
      == if x.Failure? then Failure(x.error)
         else if x.value.value < 0 || x.value.value >= bound then Failure(BadReference)
         else Success(Parsed(acc + [x.value.value as nat], x.value.next))
  {
  }

  lemma EntriesNext(d: seq<byte>, p: nat, n: nat, sentences: seq<ExampleSentence>, acc: seq<Entry>, q: nat)
    requires ReadEntriesAt(d, p, n, sentences) == Success(Parsed(acc, q))
    ensures var x := ReadEntryAt(d, q, sentences);
      ReadEntriesAt(d, p, n + 1, sentences)
      == if x.Success? then Success(Parsed(acc + [x.value.value], x.value.next)) else Failure(x.error)
  {
  }

  lemma ChinesePairsNext(d: seq<byte>, p: nat, n: nat, bound: nat, acc: seq<(int, seq<nat>)>, q: nat)
    requires ReadChinesePairs(d, p, n, bound) == Success(Parsed(acc, q))
    ensures var x := ReadChinesePairAt(d, q, bound);
      ReadChinesePairs(d, p, n + 1, bound)
      == if x.Success? then Success(Parsed(acc + [x.value.value], x.value.next)) else Failure(x.error)
  {
  }

  lemma StringPairsNext(d: seq<byte>, p: nat, n: nat, bound: nat, acc: seq<(string, seq<nat>)>, q: nat)
    requires ReadStringPairs(d, p, n, bound) == Success(Parsed(acc, q))
    ensures var x := ReadStringPairAt(d, q, bound);
      ReadStringPairs(d, p, n + 1, bound)
      == if x.Success? then Success(Parsed(acc + [x.value.value], x.value.next)) else Failure(x.error)
  {
  }

  // ---------------------------------------------------------------------
  // The stream

  function ValueOf<T>(r: ParseResult<T>): Result<T, LoadError> {
    if r.Success? then Success(r.value.value) else Failure(r.error)
  }

  /** A method's result agrees with the parser started at the cursor, and on
    * success the cursor has moved to just after what the parser consumed. */
  predicate Agrees<T(==)>(r: Result<T, LoadError>, spec: ParseResult<T>, pos: nat) {
    r == ValueOf(spec) && (spec.Success? ==> pos == spec.value.next)
  }

  /** The dictionary file with a read cursor. */
  class BlecoInputStream {
    const data: seq<byte>
    var pos: nat

    constructor (data: seq<byte>)
      ensures this.data == data && pos == 0
    {
      this.data := data;
      pos := 0;
    }

    method ReadChar() returns (r: Result<nat, LoadError>)
      modifies this
      ensures Agrees(r, ReadU16(data, old(pos)), pos)
    {
      if pos + 2 > |data| { return Failure(Truncated); }
      r := Success((data[pos] as int) * 256 + data[pos + 1] as int);
      pos := pos + 2;
    }

    method ReadInt() returns (r: Result<int, LoadError>)
      modifies this
      ensures Agrees(r, ReadI32(data, old(pos)), pos)
    {
      if pos + 4 > |data| { return Failure(Truncated); }
      var u := (((data[pos] as int) * 256 + data[pos + 1] as int) * 256 + data[pos + 2] as int) * 256
               + data[pos + 3] as int;
      r := Success(if u >= TwoTo31 then u - TwoTo32 else u);
      pos := pos + 4;
    }

    method ReadByte() returns (r: Result<int, LoadError>)
      modifies this
      ensures Agrees(r, ReadI8(data, old(pos)), pos)
    {
      if pos + 1 > |data| { return Failure(Truncated); }
      r := Success(if data[pos] >= 128 then data[pos] as int - 256 else data[pos] as int);
      pos := pos + 1;
    }

    method Read() returns (r: Result<nat, LoadError>)
      modifies this
      ensures Agrees(r, ReadU8(data, old(pos)), pos)
    {
      if pos + 1 > |data| { return Failure(Truncated); }
      r := Success(data[pos] as nat);
      pos := pos + 1;
    }

    method ReadString() returns (r: Result<string, LoadError>)
      modifies this
      ensures Agrees(r, ReadStringAt(data, old(pos)), pos)
    {
      var n :- ReadChar();
      if pos + n > |data| { return Failure(Truncated); }
      r := Success(Decode(data[pos..pos + n]));
      pos := pos + n;
    }

    method ReadExampleSentence() returns (r: Result<ExampleSentence, LoadError>)
      modifies this
      ensures Agrees(r, ReadSentenceAt(data, old(pos)), pos)
    {
      var chinese :- ReadString();
      var english :- ReadString();
      return Success(ExampleSentence(chinese, english));
    }

    method ReadExampleSentences() returns (r: Result<seq<ExampleSentence>, LoadError>)
      modifies this
      ensures Agrees(r, ReadSentenceTable(data, old(pos)), pos)
    {
      var count :- ReadInt();
      if count < 0 { return Failure(NegativeCount); }
      ghost var start := pos;
      var result: seq<ExampleSentence> := [];
      while |result| < count
        invariant |result| <= count
        invariant ReadSentences(data, start, |result|) == Success(Parsed(result, pos))
      {
        SentencesStep(data, start, |result|, result, pos);
        var s := ReadExampleSentence();
        if s.Failure? {
          SentencesFailed(data, start, |result| + 1, count);
          return Failure(s.error);
        }
        result := result + [s.value];
      }
      return Success(result);
    }

    /** The definition loops of readEntry: `n` strings in a row. */
    method ReadStringRun(n: nat) returns (r: Result<seq<string>, LoadError>)
      modifies this
      ensures Agrees(r, ReadStrings(data, old(pos), n), pos)
    {
      ghost var start := pos;
      var result: seq<string> := [];
      while |result| < n
        invariant |result| <= n
        invariant ReadStrings(data, start, |result|) == Success(Parsed(result, pos))
      {
        StringsNext(data, start, |result|, result, pos);
        var s := ReadString();
        if s.Failure? {
          StringsFailed(data, start, |result| + 1, n);
          return Failure(s.error);
        }
        result := result + [s.value];
      }
      return Success(result);
    }

    /** The position loops of readEntry and the index readers: `n` signed
      * 32-bit positions, each used to index a table of `bound` items. */
    method ReadPositions(n: nat, bound: nat) returns (r: Result<seq<nat>, LoadError>)
      modifies this
      ensures Agrees(r, ReadRefs(data, old(pos), n, bound), pos)
    {
      ghost var start := pos;
      var result: seq<nat> := [];
      while |result| < n
        invariant |result| <= n
        invariant ReadRefs(data, start, |result|, bound) == Success(Parsed(result, pos))
      {
        RefsNext(data, start, |result|, bound, result, pos);
        var x := ReadInt();
        if x.Failure? {
          RefsFailed(data, start, |result| + 1, n, bound);
          return Failure(x.error);
        }
        if x.value < 0 || x.value >= bound {
          RefsFailed(data, start, |result| + 1, n, bound);
          return Failure(BadReference);
        }
        result := result + [x.value as nat];
      }
      return Success(result);
    }

    method ReadNames() returns (r: Result<(string, string, string, string), LoadError>)
      modifies this
      ensures Agrees(r, ReadNamesAt(data, old(pos)), pos)
    {
      var simplified :- ReadString();
      var traditional :- ReadString();
      var pinyin :- ReadString();
      var formattedPinyin :- ReadString();
      return Success((simplified, traditional, pinyin, formattedPinyin));
    }

    method ReadDefinitions() returns (r: Result<(seq<string>, seq<string>), LoadError>)
      modifies this
      ensures Agrees(r, ReadDefinitionsAt(data, old(pos)), pos)
    {
      var count :- Read();
      var definitions :- ReadStringRun(count);
      var normalized :- ReadStringRun(count);
      return Success((definitions, normalized));
    }

    method ReadExamples(sentences: seq<ExampleSentence>) returns (r: Result<Option<seq<ExampleSentence>>, LoadError>)
      modifies this
      ensures Agrees(r, ReadExamplesAt(data, old(pos), sentences), pos)
    {
      var refCount :- ReadInt();
      if refCount == 0 { return Success(None); }
      if refCount < 0 { return Failure(NegativeCount); }
      var refs :- ReadPositions(refCount, |sentences|);
      return Success(Some(Resolve(sentences, refs)));
    }

    method ReadEntry(sentences: seq<ExampleSentence>) returns (r: Result<Entry, LoadError>)
      modifies this
      ensures Agrees(r, ReadEntryAt(data, old(pos), sentences), pos)
    {
      var names :- ReadNames();
      var defs :- ReadDefinitions();
      var examples :- ReadExamples(sentences);
      var (simplified, traditional, pinyin, formattedPinyin) := names;
      return Success(Entry(simplified, traditional, pinyin, formattedPinyin, defs.0, defs.1, examples));
    }

    method ReadEntries(sentences: seq<ExampleSentence>) returns (r: Result<seq<Entry>, LoadError>)
      modifies this
      ensures Agrees(r, ReadEntryTable(data, old(pos), sentences), pos)
    {
      var count :- ReadInt();
      if count < 0 { return Failure(NegativeCount); }
      ghost var start := pos;
      var result: seq<Entry> := [];
      while |result| < count
        invariant |result| <= count
        invariant ReadEntriesAt(data, start, |result|, sentences) == Success(Parsed(result, pos))
      {
        EntriesNext(data, start, |result|, sentences, result, pos);
        var e := ReadEntry(sentences);
        if e.Failure? {
          EntriesFailed(data, start, |result| + 1, count, sentences);
          return Failure(e.error);
        }
        result := result + [e.value];
      }
      return Success(result);
    }

    /** readChineseIndexMap over a table of `bound` entries. */
    method ReadChineseIndexMap(bound: nat) returns (r: Result<map<int, seq<nat>>, LoadError>)
      modifies this
      ensures Agrees(r, ReadChineseIndex(data, old(pos), bound), pos)
    {
      var size :- ReadChar();
      ghost var start := pos;
      ghost var pairs: seq<(int, seq<nat>)> := [];
      var result: map<int, seq<nat>> := map[];
      var i := 0;
      while i < size
        invariant i <= size && |pairs| == i
        invariant ReadChinesePairs(data, start, i, bound) == Success(Parsed(pairs, pos))
        invariant result == ToMap(pairs)
      {
        ChinesePairsNext(data, start, i, bound, pairs, pos);
        var key := ReadByte();
        if key.Failure? {
          ChinesePairsFailed(data, start, i + 1, size, bound);
          return Failure(key.error);
        }
        var count := ReadChar();
        if count.Failure? {
          ChinesePairsFailed(data, start, i + 1, size, bound);
          return Failure(count.error);
        }
        var value := ReadPositions(count.value, bound);
        if value.Failure? {
          ChinesePairsFailed(data, start, i + 1, size, bound);
          return Failure(value.error);
        }
        result := result[key.value := value.value];
        pairs := pairs + [(key.value, value.value)];
        i := i + 1;
      }
      return Success(result);
    }

    /** readEnglishIndexMap and readPinyinIndexMap, which read the same
      * layout, over a table of `bound` entries. */
    method ReadStringIndexMap(bound: nat) returns (r: Result<map<string, seq<nat>>, LoadError>)
      modifies this
      ensures Agrees(r, ReadStringIndex(data, old(pos), bound), pos)
    {
      var size :- ReadChar();
      ghost var start := pos;
      ghost var pairs: seq<(string, seq<nat>)> := [];
      var result: map<string, seq<nat>> := map[];
      var i := 0;
      while i < size
        invariant i <= size && |pairs| == i
        invariant ReadStringPairs(data, start, i, bound) == Success(Parsed(pairs, pos))
        invariant result == ToMap(pairs)
      {
        StringPairsNext(data, start, i, bound, pairs, pos);
        var key := ReadString();
        if key.Failure? {
          StringPairsFailed(data, start, i + 1, size, bound);
          return Failure(key.error);
        }
        var count := ReadChar();
        if count.Failure? {
          StringPairsFailed(data, start, i + 1, size, bound);
          return Failure(count.error);
        }
        var value := ReadPositions(count.value, bound);
        if value.Failure? {
          StringPairsFailed(data, start, i + 1, size, bound);
          return Failure(value.error);
        }
        result := result[key.value := value.value];
        pairs := pairs + [(key.value, value.value)];
        i := i + 1;
      }
      return Success(result);
    }
  }
}
