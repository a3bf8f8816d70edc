/** UTF-8 as used by the dictionary file's string fields, for characters of
  * the Basic Multilingual Plane. Decoding never fails: a byte that does not
  * start a well-formed one-, two- or three-byte sequence becomes U+FFFD. */
module Utf8 {
  import opened Text

  type byte = b: int | 0 <= b < 256

  const Replacement: char := 0xFFFD as char

  predicate IsContinuation(b: byte) { 0x80 <= b < 0xC0 }

  /** The encoding of one character of the Basic Multilingual Plane. */
  function EncodeChar(c: char): (r: seq<byte>)
    requires c as int < 0x1_0000
    ensures 1 <= |r| <= 3
    ensures |r| == 1 <==> c as int < 0x80
  {
    var v := c as int;
    if v < 0x80 then [v]
    else if v < 0x800 then [0xC0 + v / 64, 0x80 + v % 64]
    else [0xE0 + v / 4096, 0x80 + (v / 64) % 64, 0x80 + v % 64]
  }

  function Encode(s: string): (r: seq<byte>)
    requires IsBmp(s)
    ensures |r| >= |s|
  {
    if s == [] then [] else EncodeChar(s[0]) + Encode(s[1..])
  }

  /** The character at the start of b and the number of bytes it takes. */
  function DecodeOne(b: seq<byte>): (r: (char, nat))
    requires |b| > 0
    ensures 1 <= r.1 <= |b| && r.1 <= 3
    ensures r.0 as int < 0x1_0000
  {
    var b0 := b[0] as int;
    if b0 < 0x80 then (b0 as char, 1)
    else if 0xC2 <= b0 < 0xE0 && |b| >= 2 && IsContinuation(b[1]) then
      (((b0 - 0xC0) * 64 + (b[1] as int - 0x80)) as char, 2)
    else if 0xE0 <= b0 < 0xF0 && |b| >= 3 && IsContinuation(b[1]) && IsContinuation(b[2]) then
      var v := (b0 - 0xE0) * 4096 + (b[1] as int - 0x80) * 64 + (b[2] as int - 0x80);
      if 0x800 <= v && !(0xD800 <= v < 0xE000) then (v as char, 3) else (Replacement, 1)
    else (Replacement, 1)
  }

  /** The decoding of b: one character at a time from the front. */
  function DecodeBytes(b: seq<byte>): (s: string)
    ensures IsBmp(s)
    ensures |s| <= |b|
    decreases |b|
  {
    if b == [] then []
    else
      var (c, n) := DecodeOne(b);
      [c] + DecodeBytes(b[n..])
  }

  /** new String(bytes, UTF_8). */
  function Decode(b: seq<byte>): (s: string)
    ensures IsBmp(s)
    ensures |s| <= |b|
  {
    DecodeBytes(b)
  }

  lemma DecodeOneEncodeChar(c: char, rest: seq<byte>)
    requires c as int < 0x1_0000
    ensures DecodeOne(EncodeChar(c) + rest) == (c, |EncodeChar(c)|)
  {
    var v := c as int;
    var b := EncodeChar(c) + rest;
    if v < 0x80 {
    } else if v < 0x800 {
      assert b[0] == 0xC0 + v / 64 && b[1] == 0x80 + v % 64;
      assert (b[0] as int - 0xC0) * 64 + (b[1] as int - 0x80) == v;
    } else {
      assert b[0] == 0xE0 + v / 4096 && b[1] == 0x80 + (v / 64) % 64 && b[2] == 0x80 + v % 64;
      assert (b[0] as int - 0xE0) * 4096 + (b[1] as int - 0x80) * 64 + (b[2] as int - 0x80) == v;
    }
  }

  /** Decoding the bytes of a non-empty string yields its first character and
    * continues with the bytes of the rest. */
  lemma DecodeHead(s: string)
    requires IsBmp(s) && s != []
    ensures IsBmp(s[1..])
    ensures DecodeBytes(Encode(s)) == [s[0]] + DecodeBytes(Encode(s[1..]))
  {
    var e, tail := EncodeChar(s[0]), Encode(s[1..]);
    assert Encode(s) == e + tail;
    DecodeOneEncodeChar(s[0], tail);
    assert (e + tail)[|e|..] == tail;
  }

  /** Decoding undoes encoding: a string read back from its UTF-8 bytes is the
    * string that was written. */
  lemma {:induction false} DecodeEncode(s: string)
    requires IsBmp(s)
    ensures Decode(Encode(s)) == s
    decreases |s|
  {
    if s != [] {
      DecodeHead(s);
      DecodeEncode(s[1..]);
      assert [s[0]] + s[1..] == s;
    }
  }
}
