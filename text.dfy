/** Character helpers shared by the dictionary modules: ASCII case folding and
  * tone digits. Strings are sequences of Basic Multilingual Plane characters,
  * so a char index is also a code point index. */
module Text {

  /** Java's Character.toLowerCase restricted to ASCII: 'A'..'Z' map to
    * 'a'..'z'; every other character is returned unchanged. */
  function Lower(c: char): (r: char)
    ensures 'A' <= c <= 'Z' ==> r as int == c as int + 32
    ensures !('A' <= c <= 'Z') ==> r == c
    ensures !('A' <= r <= 'Z')
  {
    if 'A' <= c <= 'Z' then (c as int + 32) as char else c
  }

  /** String.toLowerCase, character by character (ASCII case folding only). */
  function LowerString(s: string): (r: string)
    ensures |r| == |s|
    ensures forall i :: 0 <= i < |s| ==> r[i] == Lower(s[i])
  {
    if s == [] then [] else [Lower(s[0])] + LowerString(s[1..])
  }

  /** The pinyin tone digits '1' to '5'. */
  predicate IsTone(c: char) {
    '1' <= c <= '5'
  }

  /** Characters that occur only in the Basic Multilingual Plane. */
  predicate IsBmp(s: string) {
    forall i :: 0 <= i < |s| ==> s[i] as int < 0x1_0000
  }
}
