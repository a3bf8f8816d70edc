/** The writing side of the .bleco format, used to state what the reader
  * recovers. Layout lemmas are stated over the stored bytes of each string
  * field; the string-level round trip then follows from UTF-8 decoding
  * undoing encoding. */
module BlecoFormat {
  import opened Wrappers
  import opened Text
  import opened Utf8
  import opened Entries
  import opened BlecoInput

  // ---------------------------------------------------------------------
  // Sequence helpers

  lemma SliceSplit<T>(d: seq<T>, p: nat, a: seq<T>, b: seq<T>)
    requires p + |a| + |b| <= |d| && d[p..p + |a| + |b|] == a + b
    ensures d[p..p + |a|] == a && d[p + |a|..p + |a| + |b|] == b
  {
    assert d[p..p + |a|] == (a + b)[..|a|];
    assert d[p + |a|..p + |a| + |b|] == (a + b)[|a|..];
  }

  lemma Snoc<T>(s: seq<T>)
    requires s != []
    ensures s[..|s| - 1] + [s[|s| - 1]] == s
  {
  }

  // ---------------------------------------------------------------------
  // Integers

  function EncodeU16(n: nat): (r: seq<byte>)
    requires n < 0x1_0000
    ensures |r| == 2
  {
    [n / 256, n % 256]
  }

  function EncodeI32(x: int): (r: seq<byte>)
    requires -TwoTo31 <= x < TwoTo31
    ensures |r| == 4
  {
    var u := if x < 0 then x + TwoTo32 else x;
    [u / 0x100_0000, (u / 0x1_0000) % 256, (u / 256) % 256, u % 256]
  }

  /** readChar recovers any value written as two big-endian bytes. */
  lemma U16RoundTrip(d: seq<byte>, p: nat, n: nat)
    requires n < 0x1_0000
    requires p + 2 <= |d| && d[p..p + 2] == EncodeU16(n)
    ensures ReadU16(d, p) == Success(Parsed(n, p + 2))
  {
    assert d[p] == EncodeU16(n)[0] && d[p + 1] == EncodeU16(n)[1];
  }

  /** readInt recovers any 32-bit value, negative ones included. */
  lemma I32RoundTrip(d: seq<byte>, p: nat, x: int)
    requires -TwoTo31 <= x < TwoTo31
    requires p + 4 <= |d| && d[p..p + 4] == EncodeI32(x)
    ensures ReadI32(d, p) == Success(Parsed(x, p + 4))
  {
    var u := if x < 0 then x + TwoTo32 else x;
    assert d[p] == EncodeI32(x)[0] == u / 0x100_0000;
    assert d[p + 1] == EncodeI32(x)[1] == (u / 0x1_0000) % 256;
    assert d[p + 2] == EncodeI32(x)[2] == (u / 256) % 256;
    assert d[p + 3] == EncodeI32(x)[3] == u % 256;
    assert (d[p] as int) * 256 + d[p + 1] as int == u / 0x1_0000;
    assert ((d[p] as int) * 256 + d[p + 1] as int) * 256 + d[p + 2] as int == u / 256;
  }

  /** A stretch holding two parts one after the other, cut at the named
    * position between them. */
  lemma Split<T>(d: seq<T>, p: nat, a: seq<T>, b: seq<T>, m: nat, q: nat)
    requires m == p + |a| && p <= q <= |d| && d[p..q] == a + b
    ensures m <= q && d[p..m] == a && d[m..q] == b
  {
    SliceSplit(d, p, a, b);
  }

  lemma U8At(d: seq<byte>, p: nat, n: nat, q: nat)
    requires n < 256 && p <= q <= |d| && d[p..q] == [n]
    ensures ReadU8(d, p) == Success(Parsed(n, q))
  {
    assert d[p] == d[p..q][0];
  }

  lemma I32At(d: seq<byte>, p: nat, x: int, q: nat)
    requires -TwoTo31 <= x < TwoTo31 && p <= q <= |d| && d[p..q] == EncodeI32(x)
    ensures ReadI32(d, p) == Success(Parsed(x, q))
  {
    I32RoundTrip(d, p, x);
  }

  // ---------------------------------------------------------------------
  // String fields: a 16-bit byte count, then the bytes

  function EncodeField(raw: seq<byte>): (r: seq<byte>)
    requires |raw| < 0x1_0000
    ensures |r| == 2 + |raw|
  {
    EncodeU16(|raw|) + raw
  }

  /** The raw bytes of a field are read back exactly. */
  lemma BytesRoundTrip(d: seq<byte>, p: nat, raw: seq<byte>)
    requires |raw| < 0x1_0000
    requires p + 2 + |raw| <= |d| && d[p..p + 2 + |raw|] == EncodeField(raw)
    ensures ReadBytesAt(d, p) == Success(Parsed(raw, p + 2 + |raw|))
  {
    SliceSplit(d, p, EncodeU16(|raw|), raw);
    U16RoundTrip(d, p, |raw|);
    var n := (d[p] as int) * 256 + d[p + 1] as int;
    assert n == |raw|;
    assert d[p + 2..p + 2 + n] == raw;
  }

  /** readString returns the decoding of the stored bytes and consumes
    * exactly the field. */
  lemma FieldRoundTrip(d: seq<byte>, p: nat, raw: seq<byte>)
    requires |raw| < 0x1_0000
    requires p + 2 + |raw| <= |d| && d[p..p + 2 + |raw|] == EncodeField(raw)
    ensures ReadStringAt(d, p) == Success(Parsed(Decode(raw), p + 2 + |raw|))
  {
    BytesRoundTrip(d, p, raw);
    Decoded(d, p);
  }

  lemma Decoded(d: seq<byte>, p: nat)
    requires ReadBytesAt(d, p).Success?
    ensures var b := ReadBytesAt(d, p).value;
            ReadStringAt(d, p) == Success(Parsed(Decode(b.value), b.next))
  {
  }

  predicate Fit(raws: seq<seq<byte>>) {
    forall k :: 0 <= k < |raws| ==> |raws[k]| < 0x1_0000
  }

  function EncodeFields(raws: seq<seq<byte>>): seq<byte>
    requires Fit(raws)
  {
    if raws == [] then [] else EncodeFields(raws[..|raws| - 1]) + EncodeField(raws[|raws| - 1])
  }

  /** Each stored field decoded, in order. */
  function DecodeAll(raws: seq<seq<byte>>): (r: seq<string>)
    ensures |r| == |raws|
  {
    if raws == [] then [] else DecodeAll(raws[..|raws| - 1]) + [Decode(raws[|raws| - 1])]
  }

  /** The k-th string is the decoding of the k-th field. */
  lemma {:induction false} DecodeAllAt(raws: seq<seq<byte>>, k: nat)
    requires k < |raws|
    ensures DecodeAll(raws)[k] == Decode(raws[k])
    decreases |raws|
  {
    if k < |raws| - 1 {
      DecodeAllAt(raws[..|raws| - 1], k);
    }
  }

  lemma StringsSnoc(d: seq<byte>, p: nat, n: nat, acc: seq<string>, q: nat, s: string, q': nat)
    requires ReadStrings(d, p, n) == Success(Parsed(acc, q))
    requires ReadStringAt(d, q) == Success(Parsed(s, q'))
    ensures ReadStrings(d, p, n + 1) == Success(Parsed(acc + [s], q'))
  {
    StringsNext(d, p, n, acc, q);
  }

  /** A run of stored fields reads back as their decodings, in order. */
  lemma {:induction false} FieldsRoundTrip(d: seq<byte>, p: nat, raws: seq<seq<byte>>)
    requires Fit(raws)
    requires p + |EncodeFields(raws)| <= |d| && d[p..p + |EncodeFields(raws)|] == EncodeFields(raws)
    ensures ReadStrings(d, p, |raws|) == Success(Parsed(DecodeAll(raws), p + |EncodeFields(raws)|))
    decreases |raws|
  {
    if raws != [] {
      var init, last := raws[..|raws| - 1], raws[|raws| - 1];
      var a, b := EncodeFields(init), EncodeField(last);
      assert EncodeFields(raws) == a + b;
      SliceSplit(d, p, a, b);
      var q := p + |a|;
      FieldsRoundTrip(d, p, init);
      FieldRoundTrip(d, q, last);
      StringsSnoc(d, p, |init|, DecodeAll(init), q, Decode(last), q + |b|);
    }
  }

  /** A string written as the UTF-8 bytes of its characters reads back as
    * itself. */
  lemma StringRoundTrip(d: seq<byte>, p: nat, s: string)
    requires IsBmp(s) && |Encode(s)| < 0x1_0000
    requires p + 2 + |Encode(s)| <= |d| && d[p..p + 2 + |Encode(s)|] == EncodeField(Encode(s))
    ensures ReadStringAt(d, p) == Success(Parsed(s, p + 2 + |Encode(s)|))
  {
    FieldRoundTrip(d, p, Encode(s));
    DecodeEncode(s);
  }

  // ---------------------------------------------------------------------
  // Positions: signed 32-bit values

  predicate RefsFit(refs: seq<nat>) {
    forall k :: 0 <= k < |refs| ==> refs[k] < TwoTo31
  }

  function EncodeRefs(refs: seq<nat>): (r: seq<byte>)
    requires RefsFit(refs)
    ensures |r| == 4 * |refs|
  {
    if refs == [] then [] else EncodeRefs(refs[..|refs| - 1]) + EncodeI32(refs[|refs| - 1])
  }

  lemma RefsStep(d: seq<byte>, p: nat, refs: seq<nat>, bound: nat, m: nat, q: nat)
    requires refs != [] && RefsFit(refs) && refs[|refs| - 1] < bound
    requires ReadRefs(d, p, |refs| - 1, bound) == Success(Parsed(refs[..|refs| - 1], m))
    requires ReadI32(d, m) == Success(Parsed(refs[|refs| - 1], q))
    ensures ReadRefs(d, p, |refs|, bound) == Success(Parsed(refs, q))
  {
    RefsNext(d, p, |refs| - 1, bound, refs[..|refs| - 1], m);
    Snoc(refs);
  }

  /** Positions below the bound read back unchanged and in order. */
  lemma {:induction false} RefsRoundTrip(d: seq<byte>, p: nat, refs: seq<nat>, bound: nat, q: nat)
    requires RefsFit(refs) && forall k :: 0 <= k < |refs| ==> refs[k] < bound
    requires p <= q <= |d| && d[p..q] == EncodeRefs(refs)
    ensures ReadRefs(d, p, |refs|, bound) == Success(Parsed(refs, q))
    decreases |refs|
  {
    if refs != [] {
      var init := refs[..|refs| - 1];
      var a, b := EncodeRefs(init), EncodeI32(refs[|refs| - 1]);
      assert EncodeRefs(refs) == a + b;
      assert forall k :: 0 <= k < |init| ==> init[k] == refs[k];
      var m := p + |a|;
      Split(d, p, a, b, m, q);
      RefsRoundTrip(d, p, init, bound, m);
      I32At(d, m, refs[|refs| - 1], q);
      RefsStep(d, p, refs, bound, m, q);
    }
  }

  /** A stored position at or beyond the bound is refused, whatever follows. */
  lemma RefOutOfRange(d: seq<byte>, p: nat, x: nat, bound: nat)
    requires bound <= x < TwoTo31
    requires p + 4 <= |d| && d[p..p + 4] == EncodeI32(x)
    ensures ReadRefs(d, p, 1, bound) == Failure(BadReference)
  {
    I32RoundTrip(d, p, x);
    RefsNext(d, p, 0, bound, [], p);
  }

  /** A negative table count is refused rather than read as an empty table. */
  lemma NegativeTableCount(d: seq<byte>, p: nat, x: int, sentences: seq<ExampleSentence>)
    requires -TwoTo31 <= x < 0
    requires p + 4 <= |d| && d[p..p + 4] == EncodeI32(x)
    ensures ReadSentenceTable(d, p) == Failure(NegativeCount)
    ensures ReadEntryTable(d, p, sentences) == Failure(NegativeCount)
    ensures ReadExamplesAt(d, p, sentences) == Failure(NegativeCount)
  {
    I32RoundTrip(d, p, x);
  }

  /** A reference count of zero stores no example list at all (null in the
    * source), not an empty one. */
  lemma ZeroExamples(d: seq<byte>, p: nat, sentences: seq<ExampleSentence>)
    requires p + 4 <= |d| && d[p..p + 4] == EncodeI32(0)
    ensures ReadExamplesAt(d, p, sentences) == Success(Parsed(None, p + 4))
  {
    I32RoundTrip(d, p, 0);
  }

  // ---------------------------------------------------------------------
  // Records: the layout the loader expects, written out
  //
  // Each round trip below is stated for a stretch d[p..q] holding exactly
  // the encoding, and proved over named positions: the boundaries between
  // the parts of a record are local variables, never sums of lengths.

  /** A string that fits a string field: characters of the Basic
    * Multilingual Plane whose UTF-8 form is shorter than 64 KiB. */
  predicate Storable(s: string) {
    IsBmp(s) && |Encode(s)| < 0x1_0000
  }

  predicate AllStorable(ss: seq<string>) {
    forall k :: 0 <= k < |ss| ==> Storable(ss[k])
  }

  /** writeString: the 16-bit byte count, then the UTF-8 bytes. */
  function EncodeString(s: string): (r: seq<byte>)
    requires Storable(s)
    ensures |r| == 2 + |Encode(s)|
  {
    EncodeField(Encode(s))
  }

  lemma StringAt(d: seq<byte>, p: nat, s: string, q: nat)
    requires Storable(s) && p <= q <= |d| && d[p..q] == EncodeString(s)
    ensures ReadStringAt(d, p) == Success(Parsed(s, q))
  {
    StringRoundTrip(d, p, s);
  }

  function EncodeStrings(ss: seq<string>): seq<byte>
    requires AllStorable(ss)
  {
    if ss == [] then [] else EncodeStrings(ss[..|ss| - 1]) + EncodeString(ss[|ss| - 1])
  }

  /** Strings written one after another read back as the same strings, in
    * the same order. */
  lemma {:induction false} StringsRoundTrip(d: seq<byte>, p: nat, ss: seq<string>, q: nat)
    requires AllStorable(ss)
    requires p <= q <= |d| && d[p..q] == EncodeStrings(ss)
    ensures ReadStrings(d, p, |ss|) == Success(Parsed(ss, q))
    decreases |ss|
  {
    if ss != [] {
      var init, last := ss[..|ss| - 1], ss[|ss| - 1];
      var a, b := EncodeStrings(init), EncodeString(last);
      assert EncodeStrings(ss) == a + b;
      var m := p + |a|;
      Split(d, p, a, b, m, q);
      StringsRoundTrip(d, p, init, m);
      StringAt(d, m, last, q);
      StringsSnoc(d, p, |init|, init, m, last, q);
      Snoc(ss);
    }
  }

  // Example sentences

  predicate SentenceStorable(s: ExampleSentence) {
    Storable(s.chineseSentence) && Storable(s.englishSentence)
  }

  predicate AllSentencesStorable(ss: seq<ExampleSentence>) {
    forall k :: 0 <= k < |ss| ==> SentenceStorable(ss[k])
  }

  /** An example sentence: the Chinese text, then the English text. */
  function EncodeSentence(s: ExampleSentence): seq<byte>
    requires SentenceStorable(s)
  {
    EncodeString(s.chineseSentence) + EncodeString(s.englishSentence)
  }

  /** readExampleSentence reads the Chinese text first and the English text
    * second. */
  lemma SentenceRoundTrip(d: seq<byte>, p: nat, s: ExampleSentence, q: nat)
    requires SentenceStorable(s)
    requires p <= q <= |d| && d[p..q] == EncodeSentence(s)
    ensures ReadSentenceAt(d, p) == Success(Parsed(s, q))
  {
    var a, b := EncodeString(s.chineseSentence), EncodeString(s.englishSentence);
    var m := p + |a|;
    Split(d, p, a, b, m, q);
    StringAt(d, p, s.chineseSentence, m);
    StringAt(d, m, s.englishSentence, q);
  }

  function EncodeSentences(ss: seq<ExampleSentence>): seq<byte>
    requires AllSentencesStorable(ss)
  {
    if ss == [] then [] else EncodeSentences(ss[..|ss| - 1]) + EncodeSentence(ss[|ss| - 1])
  }

  lemma {:induction false} SentencesRoundTrip(d: seq<byte>, p: nat, ss: seq<ExampleSentence>, q: nat)
    requires AllSentencesStorable(ss)
    requires p <= q <= |d| && d[p..q] == EncodeSentences(ss)
    ensures ReadSentences(d, p, |ss|) == Success(Parsed(ss, q))
    decreases |ss|
  {
    if ss != [] {
      var init, last := ss[..|ss| - 1], ss[|ss| - 1];
      var a, b := EncodeSentences(init), EncodeSentence(last);
      assert EncodeSentences(ss) == a + b;
      var m := p + |a|;
      Split(d, p, a, b, m, q);
      SentencesRoundTrip(d, p, init, m);
      SentenceRoundTrip(d, m, last, q);
      SentencesStep(d, p, |init|, init, m);
      Snoc(ss);
    }
  }

  /** The sentence table: a signed 32-bit count, then the sentences. */
  function EncodeSentenceTable(ss: seq<ExampleSentence>): (r: seq<byte>)
    requires |ss| < TwoTo31 && AllSentencesStorable(ss)
    ensures |r| == 4 + |EncodeSentences(ss)|
  {
    EncodeI32(|ss|) + EncodeSentences(ss)
  }

  /** readExampleSentences recovers the stored sentences, in file order, and
    * stops right after the last one. */
  lemma SentenceTableRoundTrip(d: seq<byte>, p: nat, ss: seq<ExampleSentence>, q: nat)
    requires |ss| < TwoTo31 && AllSentencesStorable(ss)
    requires p <= q <= |d| && d[p..q] == EncodeSentenceTable(ss)
    ensures ReadSentenceTable(d, p) == Success(Parsed(ss, q))
  {
    var m := p + 4;
    Split(d, p, EncodeI32(|ss|), EncodeSentences(ss), m, q);
    I32At(d, p, |ss|, m);
    SentencesRoundTrip(d, m, ss, q);
  }

  // Entries

  /** An entry the writer can store with the example positions `refs`: every
    * string fits a field, there are fewer than 256 definitions and as many
    * normalized ones, and the positions fit signed 32-bit values. */
  predicate EntryFits(e: Entry, refs: seq<nat>) {
    && NamesStorable(e)
    && |e.definitions| < 256 && |e.normalizedDefinitions| == |e.definitions|
    && AllStorable(e.definitions) && AllStorable(e.normalizedDefinitions)
    && |refs| < TwoTo31 && RefsFit(refs)
  }

  /** The example list an entry gets from its stored positions: none at all
    * for no positions, otherwise the sentences at those positions. */
  predicate ExamplesFrom(e: Entry, refs: seq<nat>, sentences: seq<ExampleSentence>) {
    && (forall k :: 0 <= k < |refs| ==> refs[k] < |sentences|)
    && e.exampleSentences == (if refs == [] then None else Some(Resolve(sentences, refs)))
  }

  predicate NamesStorable(e: Entry) {
    Storable(e.simplified) && Storable(e.traditional) && Storable(e.pinyin) && Storable(e.formattedPinyin)
  }

  /** The four names: simplified, traditional, pinyin, formatted pinyin. */
  function EncodeNames(e: Entry): seq<byte>
    requires NamesStorable(e)
  {
    EncodeString(e.simplified) + EncodeString(e.traditional)
    + EncodeString(e.pinyin) + EncodeString(e.formattedPinyin)
  }

  /** The names are read in the order simplified, traditional, pinyin,
    * formatted pinyin. */
  lemma NamesRoundTrip(d: seq<byte>, p: nat, e: Entry, q: nat)
    requires NamesStorable(e)
    requires p <= q <= |d| && d[p..q] == EncodeNames(e)
    ensures ReadNamesAt(d, p) == Success(Parsed((e.simplified, e.traditional, e.pinyin, e.formattedPinyin), q))
  {
    var a, b := EncodeString(e.simplified), EncodeString(e.traditional);
    var c, f := EncodeString(e.pinyin), EncodeString(e.formattedPinyin);
    var m1 := p + |a|;
    var m2 := m1 + |b|;
    var m3 := m2 + |c|;
    Split(d, p, a + b + c, f, m3, q);
    Split(d, p, a + b, c, m2, m3);
    Split(d, p, a, b, m1, m2);
    StringAt(d, p, e.simplified, m1);
    StringAt(d, m1, e.traditional, m2);
    StringAt(d, m2, e.pinyin, m3);
    StringAt(d, m3, e.formattedPinyin, q);
  }

  /** One byte with the number of definitions, the definitions, then the
    * normalized definitions. */
  function EncodeDefinitions(defs: seq<string>, normalized: seq<string>): seq<byte>
    requires |defs| < 256 && AllStorable(defs) && AllStorable(normalized)
  {
    [|defs|] + EncodeStrings(defs) + EncodeStrings(normalized)
  }

  /** The definitions come first and the normalized definitions after all
    * of them, as many as there are definitions. */
  lemma DefinitionsRoundTrip(d: seq<byte>, p: nat, defs: seq<string>, normalized: seq<string>, q: nat)
    requires |defs| < 256 && |normalized| == |defs| && AllStorable(defs) && AllStorable(normalized)
    requires p <= q <= |d| && d[p..q] == EncodeDefinitions(defs, normalized)
    ensures ReadDefinitionsAt(d, p) == Success(Parsed((defs, normalized), q))
  {
    var a, b := EncodeStrings(defs), EncodeStrings(normalized);
    var m1 := p + 1;
    var m2 := m1 + |a|;
    Split(d, p, [|defs|] + a, b, m2, q);
    Split(d, p, [|defs|], a, m1, m2);
    U8At(d, p, |defs|, m1);
    StringsRoundTrip(d, m1, defs, m2);
    StringsRoundTrip(d, m2, normalized, q);
  }

  /** The example positions: a signed 32-bit count, then the positions. */
  function EncodeExampleRefs(refs: seq<nat>): (r: seq<byte>)
    requires |refs| < TwoTo31 && RefsFit(refs)
    ensures |r| == 4 + 4 * |refs|
  {
    EncodeI32(|refs|) + EncodeRefs(refs)
  }

  /** No positions read back as no example list; otherwise the positions
    * are resolved against the sentence table, in stored order. */
  lemma ExamplesRoundTrip(d: seq<byte>, p: nat, refs: seq<nat>, sentences: seq<ExampleSentence>, q: nat)
    requires |refs| < TwoTo31 && RefsFit(refs)
    requires forall k :: 0 <= k < |refs| ==> refs[k] < |sentences|
    requires p <= q <= |d| && d[p..q] == EncodeExampleRefs(refs)
    ensures ReadExamplesAt(d, p, sentences)
            == Success(Parsed(if refs == [] then None else Some(Resolve(sentences, refs)), q))
  {
    var m := p + 4;
    Split(d, p, EncodeI32(|refs|), EncodeRefs(refs), m, q);
    I32At(d, p, |refs|, m);
    if refs != [] {
      RefsRoundTrip(d, m, refs, |sentences|, q);
    }
  }

  /** readEntry: the names, the definitions, the example positions. */
  function EncodeEntry(e: Entry, refs: seq<nat>): seq<byte>
    requires EntryFits(e, refs)
  {
    EncodeNames(e) + EncodeDefinitions(e.definitions, e.normalizedDefinitions) + EncodeExampleRefs(refs)
  }

  /** readEntry recovers a stored entry field for field and stops right after
    * its last example position. */
  lemma EntryRoundTrip(d: seq<byte>, p: nat, e: Entry, refs: seq<nat>, sentences: seq<ExampleSentence>, q: nat)
    requires EntryFits(e, refs) && ExamplesFrom(e, refs, sentences)
    requires p <= q <= |d| && d[p..q] == EncodeEntry(e, refs)
    ensures ReadEntryAt(d, p, sentences) == Success(Parsed(e, q))
  {
    var a := EncodeNames(e);
    var b := EncodeDefinitions(e.definitions, e.normalizedDefinitions);
    var c := EncodeExampleRefs(refs);
    var m1 := p + |a|;
    var m2 := m1 + |b|;
    Split(d, p, a + b, c, m2, q);
    Split(d, p, a, b, m1, m2);
    NamesRoundTrip(d, p, e, m1);
    DefinitionsRoundTrip(d, m1, e.definitions, e.normalizedDefinitions, m2);
    ExamplesRoundTrip(d, m2, refs, sentences, q);
  }

  /** Entries with their example positions, as the writer stores them. */
  predicate EntriesFit(es: seq<Entry>, refss: seq<seq<nat>>) {
    |refss| == |es| && forall k :: 0 <= k < |es| ==> EntryFits(es[k], refss[k])
  }

  predicate AllExamplesFrom(es: seq<Entry>, refss: seq<seq<nat>>, sentences: seq<ExampleSentence>) {
    |refss| == |es| && forall k :: 0 <= k < |es| ==> ExamplesFrom(es[k], refss[k], sentences)
  }

  function EncodeEntries(es: seq<Entry>, refss: seq<seq<nat>>): seq<byte>
    requires EntriesFit(es, refss)
  {
    if es == [] then []
    else EncodeEntries(es[..|es| - 1], refss[..|es| - 1]) + EncodeEntry(es[|es| - 1], refss[|es| - 1])
  }

  /** d[lo..hi] holds exactly `chunk`. */
  predicate Holds(d: seq<byte>, lo: nat, hi: nat, chunk: seq<byte>) {
    lo <= hi <= |d| && d[lo..hi] == chunk
  }

  /** The stored entries, one stretch each, between consecutive positions. */
  predicate EntriesAt(d: seq<byte>, pos: seq<nat>, es: seq<Entry>, refss: seq<seq<nat>>)
    requires EntriesFit(es, refss) && |pos| == |es| + 1
  {
    forall k :: 0 <= k < |es| ==> Holds(d, pos[k], pos[k + 1], EncodeEntry(es[k], refss[k]))
  }

  lemma BoundsSnoc(d: seq<byte>, es: seq<Entry>, refss: seq<seq<nat>>, init: seq<nat>, q: nat)
    requires es != [] && EntriesFit(es, refss) && |init| == |es|
    requires EntriesFit(es[..|es| - 1], refss[..|es| - 1]) && EntriesAt(d, init, es[..|es| - 1], refss[..|es| - 1])
    requires Holds(d, init[|es| - 1], q, EncodeEntry(es[|es| - 1], refss[|es| - 1]))
    ensures EntriesAt(d, init + [q], es, refss)
  {
    var n := |es| - 1;
    forall k | 0 <= k < |es|
      ensures Holds(d, (init + [q])[k], (init + [q])[k + 1], EncodeEntry(es[k], refss[k]))
    {
      if k < n {
        assert es[..n][k] == es[k] && refss[..n][k] == refss[k];
      }
    }
  }

  /** Where each of the stored entries starts and ends. */
  lemma {:induction false} EntryBounds(d: seq<byte>, p: nat, es: seq<Entry>, refss: seq<seq<nat>>, q: nat)
    returns (pos: seq<nat>)
    requires EntriesFit(es, refss)
    requires p <= q <= |d| && d[p..q] == EncodeEntries(es, refss)
    ensures |pos| == |es| + 1 && pos[0] == p && pos[|es|] == q && EntriesAt(d, pos, es, refss)
    decreases |es|
  {
    if es == [] {
      pos := [p];
    } else {
      var n := |es| - 1;
      var m := EntriesInit(d, p, es, refss, q);
      var init := EntryBounds(d, p, es[..n], refss[..n], m);
      BoundsSnoc(d, es, refss, init, q);
      pos := init + [q];
    }
  }

  /** Cuts stored entries into all but the last and the last. */
  lemma EntriesInit(d: seq<byte>, p: nat, es: seq<Entry>, refss: seq<seq<nat>>, q: nat) returns (m: nat)
    requires es != [] && EntriesFit(es, refss)
    requires p <= q <= |d| && d[p..q] == EncodeEntries(es, refss)
    ensures EntriesFit(es[..|es| - 1], refss[..|es| - 1])
    ensures p <= m <= q && d[p..m] == EncodeEntries(es[..|es| - 1], refss[..|es| - 1])
    ensures Holds(d, m, q, EncodeEntry(es[|es| - 1], refss[|es| - 1]))
  {
    var n := |es| - 1;
    assert forall k :: 0 <= k < n ==> es[..n][k] == es[k] && refss[..n][k] == refss[k];
    var a, b := EncodeEntries(es[..n], refss[..n]), EncodeEntry(es[n], refss[n]);
    m := p + |a|;
    Split(d, p, a, b, m, q);
  }

  /** Entries that each read back where the next one starts read back as a
    * run, in order. */
  lemma {:induction false} EntriesFrom(d: seq<byte>, p: nat, es: seq<Entry>, sentences: seq<ExampleSentence>,
                                        pos: seq<nat>)
    requires |pos| == |es| + 1 && pos[0] == p
    requires forall k :: 0 <= k < |es| ==> ReadEntryAt(d, pos[k], sentences) == Success(Parsed(es[k], pos[k + 1]))
    ensures ReadEntriesAt(d, p, |es|, sentences) == Success(Parsed(es, pos[|es|]))
    decreases |es|
  {
    if es != [] {
      var n := |es| - 1;
      EntriesFrom(d, p, es[..n], sentences, pos[..n + 1]);
      EntriesNext(d, p, n, sentences, es[..n], pos[n]);
      Snoc(es);
    }
  }

  /** Stored entries read back as the same entries, in stream order. */
  lemma EntriesRoundTrip(d: seq<byte>, p: nat, es: seq<Entry>, refss: seq<seq<nat>>,
                         sentences: seq<ExampleSentence>, q: nat)
    requires EntriesFit(es, refss) && AllExamplesFrom(es, refss, sentences)
    requires p <= q <= |d| && d[p..q] == EncodeEntries(es, refss)
    ensures ReadEntriesAt(d, p, |es|, sentences) == Success(Parsed(es, q))
  {
    var pos := EntryBounds(d, p, es, refss, q);
    forall k | 0 <= k < |es|
      ensures ReadEntryAt(d, pos[k], sentences) == Success(Parsed(es[k], pos[k + 1]))
    {
      assert Holds(d, pos[k], pos[k + 1], EncodeEntry(es[k], refss[k]));
      EntryRoundTrip(d, pos[k], es[k], refss[k], sentences, pos[k + 1]);
    }
    EntriesFrom(d, p, es, sentences, pos);
  }

  /** The entry table: a signed 32-bit count, then the entries. */
  function EncodeEntryTable(es: seq<Entry>, refss: seq<seq<nat>>): (r: seq<byte>)
    requires |es| < TwoTo31 && EntriesFit(es, refss)
    ensures |r| == 4 + |EncodeEntries(es, refss)|
  {
    EncodeI32(|es|) + EncodeEntries(es, refss)
  }

  /** readEntries recovers the stored entries in stream order, each with the
    * example sentences its positions name, and stops right after the last. */
  lemma EntryTableRoundTrip(d: seq<byte>, p: nat, es: seq<Entry>, refss: seq<seq<nat>>,
                            sentences: seq<ExampleSentence>, q: nat)
    requires |es| < TwoTo31 && EntriesFit(es, refss) && AllExamplesFrom(es, refss, sentences)
    requires p <= q <= |d| && d[p..q] == EncodeEntryTable(es, refss)
    ensures ReadEntryTable(d, p, sentences) == Success(Parsed(es, q))
  {
    var m := p + 4;
    Split(d, p, EncodeI32(|es|), EncodeEntries(es, refss), m, q);
    I32At(d, p, |es|, m);
    EntriesRoundTrip(d, m, es, refss, sentences, q);
  }

  // Index tables

  lemma U16At(d: seq<byte>, p: nat, n: nat, q: nat)
    requires n < 0x1_0000 && p <= q <= |d| && d[p..q] == EncodeU16(n)
    ensures ReadU16(d, p) == Success(Parsed(n, q))
  {
    U16RoundTrip(d, p, n);
  }

  /** A signed byte in two's complement. */
  function EncodeI8(x: int): (r: seq<byte>)
    requires -128 <= x < 128
    ensures |r| == 1
  {
    [if x < 0 then x + 256 else x]
  }

  lemma I8At(d: seq<byte>, p: nat, x: int, q: nat)
    requires -128 <= x < 128 && p <= q <= |d| && d[p..q] == EncodeI8(x)
    ensures ReadI8(d, p) == Success(Parsed(x, q))
  {
    assert d[p] == d[p..q][0];
  }

  /** The positions under one key: a 16-bit count, then the positions. */
  function EncodePositions(refs: seq<nat>): (r: seq<byte>)
    requires |refs| < 0x1_0000 && RefsFit(refs)
    ensures |r| == 2 + 4 * |refs|
  {
    EncodeU16(|refs|) + EncodeRefs(refs)
  }

  predicate PositionsFit(refs: seq<nat>, bound: nat) {
    |refs| < 0x1_0000 && RefsFit(refs) && forall k :: 0 <= k < |refs| ==> refs[k] < bound
  }

  /** A Chinese index group: the one-byte key, then its positions. */
  function EncodeChinesePair(x: (int, seq<nat>)): seq<byte>
    requires -128 <= x.0 < 128 && |x.1| < 0x1_0000 && RefsFit(x.1)
  {
    EncodeI8(x.0) + EncodePositions(x.1)
  }

  lemma ChinesePairRoundTrip(d: seq<byte>, p: nat, x: (int, seq<nat>), bound: nat, q: nat)
    requires -128 <= x.0 < 128 && PositionsFit(x.1, bound)
    requires p <= q <= |d| && d[p..q] == EncodeChinesePair(x)
    ensures ReadChinesePairAt(d, p, bound) == Success(Parsed(x, q))
  {
    var a, b, c := EncodeI8(x.0), EncodeU16(|x.1|), EncodeRefs(x.1);
    var m1 := p + 1;
    var m2 := m1 + 2;
    Split(d, p, a + b, c, m2, q);
    Split(d, p, a, b, m1, m2);
    I8At(d, p, x.0, m1);
    U16At(d, m1, |x.1|, m2);
    RefsRoundTrip(d, m2, x.1, bound, q);
  }

  /** An English or pinyin index group: the key as a string field, then its
    * positions. */
  function EncodeStringPair(x: (string, seq<nat>)): seq<byte>
    requires Storable(x.0) && |x.1| < 0x1_0000 && RefsFit(x.1)
  {
    EncodeString(x.0) + EncodePositions(x.1)
  }

  lemma StringPairRoundTrip(d: seq<byte>, p: nat, x: (string, seq<nat>), bound: nat, q: nat)
    requires Storable(x.0) && PositionsFit(x.1, bound)
    requires p <= q <= |d| && d[p..q] == EncodeStringPair(x)
    ensures ReadStringPairAt(d, p, bound) == Success(Parsed(x, q))
  {
    var a, b, c := EncodeString(x.0), EncodeU16(|x.1|), EncodeRefs(x.1);
    var m1 := p + |a|;
    var m2 := m1 + 2;
    Split(d, p, a + b, c, m2, q);
    Split(d, p, a, b, m1, m2);
    StringAt(d, p, x.0, m1);
    U16At(d, m1, |x.1|, m2);
    RefsRoundTrip(d, m2, x.1, bound, q);
  }

  predicate ChinesePairsFit(pairs: seq<(int, seq<nat>)>, bound: nat) {
    forall i :: 0 <= i < |pairs| ==> -128 <= pairs[i].0 < 128 && PositionsFit(pairs[i].1, bound)
  }

  predicate StringPairsFit(pairs: seq<(string, seq<nat>)>, bound: nat) {
    forall i :: 0 <= i < |pairs| ==> Storable(pairs[i].0) && PositionsFit(pairs[i].1, bound)
  }

  function EncodeChinesePairs(pairs: seq<(int, seq<nat>)>, bound: nat): seq<byte>
    requires ChinesePairsFit(pairs, bound)
  {
    if pairs == [] then []
    else EncodeChinesePairs(pairs[..|pairs| - 1], bound) + EncodeChinesePair(pairs[|pairs| - 1])
  }

  function EncodeStringPairs(pairs: seq<(string, seq<nat>)>, bound: nat): seq<byte>
    requires StringPairsFit(pairs, bound)
  {
    if pairs == [] then []
    else EncodeStringPairs(pairs[..|pairs| - 1], bound) + EncodeStringPair(pairs[|pairs| - 1])
  }

  lemma {:induction false} ChinesePairsRoundTrip(d: seq<byte>, p: nat, pairs: seq<(int, seq<nat>)>, bound: nat, q: nat)
    requires ChinesePairsFit(pairs, bound)
    requires p <= q <= |d| && d[p..q] == EncodeChinesePairs(pairs, bound)
    ensures ReadChinesePairs(d, p, |pairs|, bound) == Success(Parsed(pairs, q))
    decreases |pairs|
  {
    if pairs != [] {
      var n := |pairs| - 1;
      var init, last := pairs[..n], pairs[n];
      assert forall i :: 0 <= i < n ==> init[i] == pairs[i];
      var a, b := EncodeChinesePairs(init, bound), EncodeChinesePair(last);
      assert EncodeChinesePairs(pairs, bound) == a + b;
      var m := p + |a|;
      Split(d, p, a, b, m, q);
      ChinesePairsRoundTrip(d, p, init, bound, m);
      ChinesePairRoundTrip(d, m, last, bound, q);
      ChinesePairsNext(d, p, n, bound, init, m);
      Snoc(pairs);
    }
  }

  lemma {:induction false} StringPairsRoundTrip(d: seq<byte>, p: nat, pairs: seq<(string, seq<nat>)>, bound: nat, q: nat)
    requires StringPairsFit(pairs, bound)
    requires p <= q <= |d| && d[p..q] == EncodeStringPairs(pairs, bound)
    ensures ReadStringPairs(d, p, |pairs|, bound) == Success(Parsed(pairs, q))
    decreases |pairs|
  {
    if pairs != [] {
      var n := |pairs| - 1;
      var init, last := pairs[..n], pairs[n];
      assert forall i :: 0 <= i < n ==> init[i] == pairs[i];
      var a, b := EncodeStringPairs(init, bound), EncodeStringPair(last);
      assert EncodeStringPairs(pairs, bound) == a + b;
      var m := p + |a|;
      Split(d, p, a, b, m, q);
      StringPairsRoundTrip(d, p, init, bound, m);
      StringPairRoundTrip(d, m, last, bound, q);
      StringPairsNext(d, p, n, bound, init, m);
      Snoc(pairs);
    }
  }

  /** The Chinese index: a 16-bit group count, then the groups. */
  function EncodeChineseIndex(pairs: seq<(int, seq<nat>)>, bound: nat): seq<byte>
    requires |pairs| < 0x1_0000 && ChinesePairsFit(pairs, bound)
  {
    EncodeU16(|pairs|) + EncodeChinesePairs(pairs, bound)
  }

  /** readChineseIndexMap recovers the map the stored groups build, later
    * groups replacing earlier ones with the same key. */
  lemma ChineseIndexRoundTrip(d: seq<byte>, p: nat, pairs: seq<(int, seq<nat>)>, bound: nat, q: nat)
    requires |pairs| < 0x1_0000 && ChinesePairsFit(pairs, bound)
    requires p <= q <= |d| && d[p..q] == EncodeChineseIndex(pairs, bound)
    ensures ReadChineseIndex(d, p, bound) == Success(Parsed(ToMap(pairs), q))
  {
    var m := p + 2;
    Split(d, p, EncodeU16(|pairs|), EncodeChinesePairs(pairs, bound), m, q);
    U16At(d, p, |pairs|, m);
    ChinesePairsRoundTrip(d, m, pairs, bound, q);
  }

  /** The English and pinyin indexes: a 16-bit group count, then the groups. */
  function EncodeStringIndex(pairs: seq<(string, seq<nat>)>, bound: nat): seq<byte>
    requires |pairs| < 0x1_0000 && StringPairsFit(pairs, bound)
  {
    EncodeU16(|pairs|) + EncodeStringPairs(pairs, bound)
  }

  /** readEnglishIndexMap and readPinyinIndexMap recover the map the stored
    * groups build. */
  lemma StringIndexRoundTrip(d: seq<byte>, p: nat, pairs: seq<(string, seq<nat>)>, bound: nat, q: nat)
    requires |pairs| < 0x1_0000 && StringPairsFit(pairs, bound)
    requires p <= q <= |d| && d[p..q] == EncodeStringIndex(pairs, bound)
    ensures ReadStringIndex(d, p, bound) == Success(Parsed(ToMap(pairs), q))
  {
    var m := p + 2;
    Split(d, p, EncodeU16(|pairs|), EncodeStringPairs(pairs, bound), m, q);
    U16At(d, p, |pairs|, m);
    StringPairsRoundTrip(d, m, pairs, bound, q);
  }

  // The whole file

  /** What a dictionary file holds: the sentence table, the entries with
    * the example positions each stores, and the groups of the Chinese,
    * English and pinyin indexes in stored order. */
  datatype StoredFile = StoredFile(
    sentences: seq<ExampleSentence>,
    entries: seq<Entry>,
    refss: seq<seq<nat>>,
    chinese: seq<(int, seq<nat>)>,
    english: seq<(string, seq<nat>)>,
    pinyin: seq<(string, seq<nat>)>)

  /** A file the writer can produce: every part fits its fields, and every
    * stored position lies inside the table it refers to. */
  predicate FileFits(f: StoredFile) {
    && |f.sentences| < TwoTo31 && AllSentencesStorable(f.sentences)
    && |f.entries| < TwoTo31 && EntriesFit(f.entries, f.refss)
    && AllExamplesFrom(f.entries, f.refss, f.sentences)
    && |f.chinese| < 0x1_0000 && ChinesePairsFit(f.chinese, |f.entries|)
    && |f.english| < 0x1_0000 && StringPairsFit(f.english, |f.entries|)
    && |f.pinyin| < 0x1_0000 && StringPairsFit(f.pinyin, |f.entries|)
  }

  /** The file in the order load reads it. */
  function EncodeFile(f: StoredFile): seq<byte>
    requires FileFits(f)
  {
    EncodeSentenceTable(f.sentences) + EncodeEntryTable(f.entries, f.refss)
    + EncodeChineseIndex(f.chinese, |f.entries|)
    + EncodeStringIndex(f.english, |f.entries|) + EncodeStringIndex(f.pinyin, |f.entries|)
  }

  /** Each part of a stored file reads back where the previous one ends. */
  lemma FileRoundTrip(d: seq<byte>, f: StoredFile, q: nat) returns (m1: nat, m2: nat, m3: nat, m4: nat)
    requires FileFits(f)
    requires q <= |d| && d[..q] == EncodeFile(f)
    ensures ReadSentenceTable(d, 0) == Success(Parsed(f.sentences, m1))
    ensures ReadEntryTable(d, m1, f.sentences) == Success(Parsed(f.entries, m2))
    ensures ReadChineseIndex(d, m2, |f.entries|) == Success(Parsed(ToMap(f.chinese), m3))
    ensures ReadStringIndex(d, m3, |f.entries|) == Success(Parsed(ToMap(f.english), m4))
    ensures ReadStringIndex(d, m4, |f.entries|) == Success(Parsed(ToMap(f.pinyin), q))
  {
    var n := |f.entries|;
    var a, b := EncodeSentenceTable(f.sentences), EncodeEntryTable(f.entries, f.refss);
    var c, e, g := EncodeChineseIndex(f.chinese, n), EncodeStringIndex(f.english, n), EncodeStringIndex(f.pinyin, n);
    m1 := |a|;
    m2 := m1 + |b|;
    m3 := m2 + |c|;
    m4 := m3 + |e|;
    assert d[0..q] == a + b + c + e + g;
    Split(d, 0, a + b + c + e, g, m4, q);
    Split(d, 0, a + b + c, e, m3, m4);
    Split(d, 0, a + b, c, m2, m3);
    Split(d, 0, a, b, m1, m2);
    SentenceTableRoundTrip(d, 0, f.sentences, m1);
    EntryTableRoundTrip(d, m1, f.entries, f.refss, f.sentences, m2);
    ChineseIndexRoundTrip(d, m2, f.chinese, n, m3);
    StringIndexRoundTrip(d, m3, f.english, n, m4);
    StringIndexRoundTrip(d, m4, f.pinyin, n, q);
  }
}
