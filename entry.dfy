/** Dictionary entries and the display formatting of their definitions
  * (Entry.java). A definition taken from CC-CEDICT may hold a split marker
  * '|' between a traditional-only and a simplified-only spelling, and
  * bracketed pronunciation notes "[...]" that are never displayed. */
module Entries {
  import opened Wrappers

  datatype ExampleSentence = ExampleSentence(chineseSentence: string, englishSentence: string)

  /** One dictionary record. `exampleSentences` is None where the source
    * stores null (an entry without example references). */
  datatype Entry = Entry(
    simplified: string,
    traditional: string,
    pinyin: string,
    formattedPinyin: string,
    definitions: seq<string>,
    normalizedDefinitions: seq<string>,
    exampleSentences: Option<seq<ExampleSentence>>)

  /** Character type values (Entry.SIMPLIFIED_CHINESE, Entry.TRADITIONAL_CHINESE). */
  const SimplifiedChinese: int := 0
  const TraditionalChinese: int := 1

  /** getName(int): the simplified spelling for SIMPLIFIED_CHINESE, the
    * traditional spelling for every other value. */
  function GetName(e: Entry, characterType: int): (r: string)
    ensures characterType == SimplifiedChinese ==> r == e.simplified
    ensures characterType != SimplifiedChinese ==> r == e.traditional
  {
    if characterType == SimplifiedChinese then e.simplified else e.traditional
  }

  /** The global character type setting; only 0 and 1 are accepted. */
  class CharacterTypeSetting {
    var value: int

    ghost predicate Valid()
      reads this
    {
      value == SimplifiedChinese || value == TraditionalChinese
    }

    constructor ()
      ensures Valid() && value == SimplifiedChinese
    {
      value := SimplifiedChinese;
    }

    /** setCharacterType: a value other than 0 or 1 is refused (the source
      * throws IllegalArgumentException) and the setting is left as it was. */
    method SetCharacterType(characterType: int) returns (accepted: bool)
      requires Valid()
      modifies this
      ensures Valid()
      ensures accepted <==> characterType == SimplifiedChinese || characterType == TraditionalChinese
      ensures value == if accepted then characterType else old(value)
    {
      accepted := characterType == SimplifiedChinese || characterType == TraditionalChinese;
      if accepted {
        value := characterType;
      }
    }
  }

  // ---------------------------------------------------------------------
  // Definition formatting

  /** Characters that end the simplified-only phrase after '|' in traditional mode. */
  predicate IsLookahead(c: char) {
    c == '[' || c == ' ' || c == ',' || c == ':' || c == ';' || c == ')' || c == '<'
  }

  /** Characters that end the traditional-only phrase before '|' in simplified mode. */
  predicate IsLookbehind(c: char) {
    c == ':' || c == ' ' || c == ',' || c == '(' || c == '>'
  }

  /** Text with neither a split marker nor an opening bracket. */
  predicate Plain(s: string) {
    forall k :: 0 <= k < |s| ==> s[k] != '|' && s[k] != '['
  }

  /** The characters of `d` from `i` to `j` (exclusive) are plain text. */
  predicate PlainBetween(d: string, i: nat, j: nat) {
    forall k :: i <= k < j && k < |d| ==> d[k] != '|' && d[k] != '['
  }

  /** The first lookahead character at or after `from`. */
  function NextLookahead(d: string, from: nat): (r: Option<nat>)
    ensures r.Some? ==> from <= r.value < |d| && IsLookahead(d[r.value])
    ensures r.Some? ==> forall k :: from <= k < r.value ==> !IsLookahead(d[k])
    ensures r.None? ==> forall k :: from <= k < |d| ==> !IsLookahead(d[k])
    decreases |d| - from
  {
    if from >= |d| then None
    else if IsLookahead(d[from]) then Some(from)
    else NextLookahead(d, from + 1)
  }

  /** The first ']' at or after `from`. */
  function ClosingBracket(d: string, from: nat): (r: Option<nat>)
    ensures r.Some? ==> from <= r.value < |d| && d[r.value] == ']'
    ensures r.Some? ==> forall k :: from <= k < r.value ==> d[k] != ']'
    ensures r.None? ==> forall k :: from <= k < |d| ==> d[k] != ']'
    decreases |d| - from
  {
    if from >= |d| then None
    else if d[from] == ']' then Some(from)
    else ClosingBracket(d, from + 1)
  }

  /** The last lookbehind character strictly before `i`, or -1 if there is none. */
  function PrevLookbehind(d: string, i: nat): (r: int)
    requires i <= |d|
    ensures -1 <= r < i
    ensures r >= 0 ==> IsLookbehind(d[r])
    ensures forall k :: r < k < i ==> !IsLookbehind(d[k])
  {
    if i == 0 then -1
    else if IsLookbehind(d[i - 1]) then i - 1
    else PrevLookbehind(d, i - 1)
  }

  /** Traditional-mode output for the part of `d` from index `i` on. */
  function TraditionalFrom(d: string, i: nat): string
    decreases |d| - i
  {
    if i >= |d| then []
    else if d[i] == '|' then
      match NextLookahead(d, i + 1)
      case None => []
      case Some(j) => TraditionalFrom(d, j)
    else if d[i] == '[' && ClosingBracket(d, i + 1).Some? then
      TraditionalFrom(d, ClosingBracket(d, i + 1).value + 1)
    else [d[i]] + TraditionalFrom(d, i + 1)
  }

  function Traditional(d: string): string {
    TraditionalFrom(d, 0)
  }

  /** Simplified-mode output for the part of `d` from index `i` on, appended
    * to the builder contents `sb`. On '|' the builder is cut back by as many
    * characters as lie between the nearest preceding lookbehind character of
    * `d` and the marker; a cut longer than the builder is the source's
    * StringIndexOutOfBoundsException and gives None. */
  function SimplifiedFrom(sb: string, d: string, i: nat): Option<string>
    decreases |d| - i
  {
    if i >= |d| then Some(sb)
    else if d[i] == '|' then
      var cut := i - PrevLookbehind(d, i) - 1;
      if cut > |sb| then None else SimplifiedFrom(sb[..|sb| - cut], d, i + 1)
    else if d[i] == '[' && ClosingBracket(d, i + 1).Some? then
      SimplifiedFrom(sb, d, ClosingBracket(d, i + 1).value + 1)
    else SimplifiedFrom(sb + [d[i]], d, i + 1)
  }

  /** One definition formatted for a character type, as formattedDefinitions(int)
    * does: TRADITIONAL_CHINESE selects the traditional rule, any other value
    * the simplified one. */
  function FormatDefinition(d: string, characterType: int): Option<string> {
    if characterType == TraditionalChinese then Some(Traditional(d))
    else SimplifiedFrom([], d, 0)
  }

  /** appendTraditionalFormattedDefinitionToStringBuilder. */
  method AppendTraditional(sb: string, d: string) returns (r: string)
    ensures r == sb + Traditional(d)
  {
    r := sb;
    var i := 0;
    while i < |d|
      invariant 0 <= i <= |d|
      invariant r + TraditionalFrom(d, i) == sb + Traditional(d)
    {
      var ch := d[i];
      if ch == '|' {
        var ii := i + 1;
        while ii < |d| && !IsLookahead(d[ii])
          invariant i + 1 <= ii <= |d|
          invariant NextLookahead(d, ii) == NextLookahead(d, i + 1)
        {
          ii := ii + 1;
        }
        TraditionalAtMarker(d, i, ii);
        if ii == |d| {
          assert r + [] == r;
          return;
        }
        i := ii;
      } else {
        var closed := false;
        if ch == '[' {
          var ii := i + 1;
          while ii < |d| && d[ii] != ']'
            invariant i + 1 <= ii <= |d|
            invariant ClosingBracket(d, ii) == ClosingBracket(d, i + 1)
          {
            ii := ii + 1;
          }
          if ii < |d| {
            TraditionalAtBracket(d, i, ii);
            i := ii + 1;
            closed := true;
          }
        }
        if !closed {
          TraditionalAtPlain(d, i, r);
          r := r + [ch];
          i := i + 1;
        }
      }
    }
    assert r + [] == r;
  }

  lemma TraditionalAtMarker(d: string, i: nat, ii: nat)
    requires i < |d| && d[i] == '|' && i + 1 <= ii <= |d|
    requires ii < |d| ==> IsLookahead(d[ii])
    requires NextLookahead(d, ii) == NextLookahead(d, i + 1)
    ensures TraditionalFrom(d, i) == if ii == |d| then [] else TraditionalFrom(d, ii)
  {
  }

  lemma TraditionalAtBracket(d: string, i: nat, ii: nat)
    requires i < |d| && d[i] == '[' && i + 1 <= ii < |d| && d[ii] == ']'
    requires ClosingBracket(d, ii) == ClosingBracket(d, i + 1)
    ensures TraditionalFrom(d, i) == TraditionalFrom(d, ii + 1)
  {
  }

  lemma TraditionalAtPlain(d: string, i: nat, r: string)
    requires i < |d| && d[i] != '|' && (d[i] == '[' ==> ClosingBracket(d, i + 1).None?)
    ensures r + TraditionalFrom(d, i) == (r + [d[i]]) + TraditionalFrom(d, i + 1)
  {
    assert TraditionalFrom(d, i) == [d[i]] + TraditionalFrom(d, i + 1);
  }

  /** appendSimplifiedFormattedDefinitionToStringBuilder; None where the
    * source throws. */
  method AppendSimplified(sb: string, d: string) returns (r: Option<string>)
    ensures r == SimplifiedFrom(sb, d, 0)
  {
    var b := sb;
    var i := 0;
    while i < |d|
      invariant 0 <= i <= |d|
      invariant SimplifiedFrom(b, d, i) == SimplifiedFrom(sb, d, 0)
    {
      var ch := d[i];
      if ch == '|' {
        var ii := i - 1;
        while ii >= 0 && !IsLookbehind(d[ii])
          invariant -1 <= ii < i
          invariant forall k :: ii < k < i ==> !IsLookbehind(d[k])
        {
          ii := ii - 1;
        }
        assert ii == PrevLookbehind(d, i) by { PrevLookbehindIsLast(d, i, ii); }
        var cut := i - ii - 1;
        if cut > |b| {
          return None;
        }
        b := b[..|b| - cut];
        i := i + 1;
      } else {
        var closed := false;
        if ch == '[' {
          var ii := i + 1;
          while ii < |d| && d[ii] != ']'
            invariant i + 1 <= ii <= |d|
            invariant ClosingBracket(d, ii) == ClosingBracket(d, i + 1)
          {
            ii := ii + 1;
          }
          if ii < |d| {
            i := ii + 1;
            closed := true;
          }
        }
        if !closed {
          b := b + [ch];
          i := i + 1;
        }
      }
    }
    r := Some(b);
  }

  lemma {:induction false} PrevLookbehindIsLast(d: string, i: nat, ii: int)
    requires i <= |d| && -1 <= ii < i
    requires ii >= 0 ==> IsLookbehind(d[ii])
    requires forall k :: ii < k < i ==> !IsLookbehind(d[k])
    ensures PrevLookbehind(d, i) == ii
    decreases i
  {
    if i > 0 && ii < i - 1 {
      PrevLookbehindIsLast(d, i - 1, ii);
    }
  }

  // ---------------------------------------------------------------------
  // Whole-entry formatting

  /** formattedDefinitions(int): every definition formatted for the
    * character type; None when formatting one of them throws. */
  method FormattedDefinitions(e: Entry, characterType: int) returns (r: Option<seq<string>>)
    ensures r.Some? <==> forall i :: 0 <= i < |e.definitions| ==> FormatDefinition(e.definitions[i], characterType).Some?
    ensures r.Some? ==> |r.value| == |e.definitions|
    ensures r.Some? ==> forall i :: 0 <= i < |e.definitions| ==> FormatDefinition(e.definitions[i], characterType) == Some(r.value[i])
  {
    var result: seq<string> := [];
    var i := 0;
    while i < |e.definitions|
      invariant 0 <= i <= |e.definitions|
      invariant |result| == i
      invariant forall k :: 0 <= k < i ==> FormatDefinition(e.definitions[k], characterType) == Some(result[k])
    {
      var f: Option<string>;
      if characterType == TraditionalChinese {
        var t := AppendTraditional([], e.definitions[i]);
        assert t == Traditional(e.definitions[i]);
        f := Some(t);
      } else {
        f := AppendSimplified([], e.definitions[i]);
      }
      assert f == FormatDefinition(e.definitions[i], characterType);
      if f.None? {
        return None;
      }
      result := result + [f.value];
      i := i + 1;
    }
    r := Some(result);
  }

  /** One definition appended to a shared builder in the given mode. */
  function AppendFormatted(sb: string, d: string, characterType: int): Option<string> {
    if characterType == TraditionalChinese then Some(sb + Traditional(d))
    else SimplifiedFrom(sb, d, 0)
  }

  /** The definitions from index `i` on appended to `sb`, separated by " / ". */
  function JoinFrom(sb: string, defs: seq<string>, characterType: int, i: nat): Option<string>
    decreases |defs| - i
  {
    if i >= |defs| then Some(sb)
    else
      var sb1 :- AppendFormatted(sb, defs[i], characterType);
      JoinFrom(if i < |defs| - 1 then sb1 + " / " else sb1, defs, characterType, i + 1)
  }

  /** The header of toString(int): the name for the character type, then
    * " - ", the formatted pinyin and " - ". TRADITIONAL_CHINESE selects the
    * traditional name, any other value the simplified one. */
  function Header(e: Entry, characterType: int): string {
    (if characterType == TraditionalChinese then e.traditional else e.simplified)
      + " - " + e.formattedPinyin + " - "
  }

  function EntryString(e: Entry, characterType: int): Option<string> {
    JoinFrom(Header(e, characterType), e.definitions, characterType, 0)
  }

  /** toString(int), with one StringBuilder shared by the header and every
    * definition; None where the source throws. */
  method ToString(e: Entry, characterType: int) returns (r: Option<string>)
    ensures r == EntryString(e, characterType)
  {
    var sb := Header(e, characterType);
    var defs := e.definitions;
    var i := 0;
    while i < |defs|
      invariant 0 <= i <= |defs|
      invariant JoinFrom(sb, defs, characterType, i) == EntryString(e, characterType)
    {
      var next: Option<string>;
      if characterType == TraditionalChinese {
        var t := AppendTraditional(sb, defs[i]);
        next := Some(t);
      } else {
        next := AppendSimplified(sb, defs[i]);
      }
      if next.None? {
        return None;
      }
      sb := next.value;
      if i < |defs| - 1 {
        sb := sb + " / ";
      }
      i := i + 1;
    }
    r := Some(sb);
  }

  /** Joining already formatted definitions with " / ". */
  function JoinSlash(parts: seq<string>): string {
    if parts == [] then []
    else if |parts| == 1 then parts[0]
    else parts[0] + " / " + JoinSlash(parts[1..])
  }

  // ---------------------------------------------------------------------
  // Properties

  /** Plain text passes through traditional formatting unchanged. */
  lemma {:induction false} TraditionalKeepsPlain(d: string, i: nat, j: nat)
    requires i <= j <= |d| && PlainBetween(d, i, j)
    ensures TraditionalFrom(d, i) == d[i..j] + TraditionalFrom(d, j)
    decreases j - i
  {
    if i < j {
      TraditionalPlainStep(d, i);
      TraditionalKeepsPlain(d, i + 1, j);
      assert d[i..j] == [d[i]] + d[i + 1..j];
    }
  }

  lemma TraditionalPlainStep(d: string, i: nat)
    requires i < |d| && d[i] != '|' && d[i] != '['
    ensures TraditionalFrom(d, i) == [d[i]] + TraditionalFrom(d, i + 1)
  {
  }

  /** Plain text is appended unchanged by simplified formatting. */
  lemma {:induction false} SimplifiedKeepsPlain(sb: string, d: string, i: nat, j: nat)
    requires i <= j <= |d| && PlainBetween(d, i, j)
    ensures SimplifiedFrom(sb, d, i) == SimplifiedFrom(sb + d[i..j], d, j)
    decreases j - i
  {
    if i < j {
      SimplifiedPlainStep(sb, d, i);
      SimplifiedKeepsPlain(sb + [d[i]], d, i + 1, j);
      assert d[i..j] == [d[i]] + d[i + 1..j];
      assert sb + [d[i]] + d[i + 1..j] == sb + d[i..j];
    } else {
      assert sb + d[i..j] == sb;
    }
  }

  lemma SimplifiedPlainStep(sb: string, d: string, i: nat)
    requires i < |d| && d[i] != '|' && d[i] != '['
    ensures SimplifiedFrom(sb, d, i) == SimplifiedFrom(sb + [d[i]], d, i + 1)
  {
  }

  /** A definition holding neither '|' nor '[' is displayed unchanged in both modes. */
  lemma PlainDefinitionUnchanged(d: string, characterType: int)
    requires Plain(d)
    ensures FormatDefinition(d, characterType) == Some(d)
  {
    assert d[0..|d|] == d;
    TraditionalKeepsPlain(d, 0, |d|);
    SimplifiedKeepsPlain([], d, 0, |d|);
    assert [] + d == d;
    assert d + [] == d;
  }

  /** A '[' with a later ']' drops the bracketed span, brackets included; a
    * '[' without a closing ']' is kept as a literal. Both modes. */
  lemma BracketRule(sb: string, d: string, i: nat)
    requires i < |d| && d[i] == '['
    ensures ClosingBracket(d, i + 1).Some? ==>
      var j := ClosingBracket(d, i + 1).value;
      d[j] == ']' && (forall k :: i < k < j ==> d[k] != ']') &&
      TraditionalFrom(d, i) == TraditionalFrom(d, j + 1) &&
      SimplifiedFrom(sb, d, i) == SimplifiedFrom(sb, d, j + 1)
    ensures ClosingBracket(d, i + 1).None? ==>
      (forall k :: i < k < |d| ==> d[k] != ']') &&
      TraditionalFrom(d, i) == ['['] + TraditionalFrom(d, i + 1) &&
      SimplifiedFrom(sb, d, i) == SimplifiedFrom(sb + ['['], d, i + 1)
  {
  }

  /** Traditional mode on a split marker: the text after '|' is dropped up to
    * (not including) the next lookahead character, where output resumes; with
    * no lookahead character the rest of the definition is dropped. */
  lemma TraditionalSplit(d: string, i: nat)
    requires i < |d| && d[i] == '|' && Plain(d[..i])
    ensures NextLookahead(d, i + 1).None? ==> Traditional(d) == d[..i]
    ensures NextLookahead(d, i + 1).Some? ==>
      var j := NextLookahead(d, i + 1).value;
      IsLookahead(d[j]) && (forall k :: i < k < j ==> !IsLookahead(d[k])) &&
      Traditional(d) == d[..i] + TraditionalFrom(d, j)
  {
    assert d[0..i] == d[..i];
    assert PlainBetween(d, 0, i) by { assert forall k :: 0 <= k < i ==> d[k] == d[..i][k]; }
    TraditionalKeepsPlain(d, 0, i);
  }

  /** Simplified mode on a split marker after plain text: the output keeps the
    * text up to and including the nearest lookbehind character before '|',
    * drops the rest of that phrase and the marker, and continues after it. */
  lemma SimplifiedSplit(sb: string, d: string, i: nat)
    requires i < |d| && d[i] == '|' && Plain(d[..i])
    ensures var p := PrevLookbehind(d, i);
      (p >= 0 ==> IsLookbehind(d[p])) && (forall k :: p < k < i ==> !IsLookbehind(d[k])) &&
      SimplifiedFrom(sb, d, 0) == SimplifiedFrom(sb + d[..p + 1], d, i + 1)
  {
    assert d[0..i] == d[..i];
    assert PlainBetween(d, 0, i) by { assert forall k :: 0 <= k < i ==> d[k] == d[..i][k]; }
    SimplifiedKeepsPlain(sb, d, 0, i);
    var p := PrevLookbehind(d, i);
    var b := sb + d[..i];
    var cut := i - p - 1;
    assert b[..|b| - cut] == sb + d[..p + 1];
  }

  /** The CC-CEDICT "traditional|simplified" pair: each mode keeps its own spelling. */
  lemma SplitMarkerExample()
    ensures Traditional("for 廣州|广州") == "for 廣州"
    ensures SimplifiedFrom([], "for 廣州|广州", 0) == Some("for 广州")
  {
    var d := "for 廣州|广州";
    assert d[6] == '|';
    assert Plain(d[..6]);
    TraditionalSplit(d, 6);
    assert NextLookahead(d, 7).None?;
    assert d[..6] == "for 廣州";
    SimplifiedSplit([], d, 6);
    assert PrevLookbehind(d, 6) == 3;
    assert [] + d[..4] == "for ";
    assert |d| == 9 && d[7] == '广' && d[8] == '州';
    assert "for " + ['广'] == "for 广";
    assert "for 广" + ['州'] == "for 广州";
    assert SimplifiedFrom("for ", d, 7) == SimplifiedFrom("for 广", d, 8);
    assert SimplifiedFrom("for 广", d, 8) == SimplifiedFrom("for 广州", d, 9);
  }

  /** A bracketed span before the marker shortens the builder without
    * shortening the look-behind distance: for "[x]a|b" the cut (4) exceeds
    * the builder ("a"), which the source reports with an exception. */
  lemma SimplifiedCutPastBuilder()
    ensures SimplifiedFrom([], "[x]a|b", 0).None?
  {
    var d := "[x]a|b";
    assert ClosingBracket(d, 1) == Some(2);
    assert SimplifiedFrom([], d, 0) == SimplifiedFrom([], d, 3);
    assert SimplifiedFrom([], d, 3) == SimplifiedFrom("a", d, 4);
    assert PrevLookbehind(d, 4) == -1;
  }

  /** Every definition formatted in traditional mode. */
  function TraditionalAll(defs: seq<string>): (r: seq<string>)
    ensures |r| == |defs|
    ensures forall k :: 0 <= k < |defs| ==> r[k] == Traditional(defs[k])
  {
    seq(|defs|, k requires 0 <= k < |defs| => Traditional(defs[k]))
  }

  lemma {:induction false} TraditionalJoin(sb: string, defs: seq<string>, i: nat)
    requires i <= |defs|
    ensures JoinFrom(sb, defs, TraditionalChinese, i) == Some(sb + JoinSlash(TraditionalAll(defs[i..])))
    decreases |defs| - i
  {
    var parts := TraditionalAll(defs[i..]);
    if i < |defs| {
      var sb1 := sb + Traditional(defs[i]);
      var next := if i < |defs| - 1 then sb1 + " / " else sb1;
      TraditionalJoin(next, defs, i + 1);
      var rest := TraditionalAll(defs[i + 1..]);
      assert parts[1..] == rest;
      assert parts[0] == Traditional(defs[i]);
      assert AppendFormatted(sb, defs[i], TraditionalChinese) == Some(sb1);
      assert JoinFrom(sb, defs, TraditionalChinese, i) == JoinFrom(next, defs, TraditionalChinese, i + 1);
      if i < |defs| - 1 {
        assert JoinSlash(parts) == parts[0] + " / " + JoinSlash(rest);
        assert sb + JoinSlash(parts) == next + JoinSlash(rest);
      } else {
        assert rest == [];
      }
    } else {
      assert parts == [];
      assert sb + JoinSlash(parts) == sb;
    }
  }

  /** Traditional toString never fails and is the traditional name, " - ",
    * the formatted pinyin, " - " and the formatted definitions joined by " / ". */
  lemma TraditionalToString(e: Entry)
    ensures EntryString(e, TraditionalChinese) ==
      Some(e.traditional + " - " + e.formattedPinyin + " - " + JoinSlash(TraditionalAll(e.definitions)))
  {
    TraditionalJoin(Header(e, TraditionalChinese), e.definitions, 0);
    assert e.definitions[0..] == e.definitions;
  }

  /** getName and toString test the character type differently: for a value
    * that is neither constant, getName gives the traditional spelling while
    * toString and formattedDefinitions use the simplified rules. */
  lemma UnknownTypeDisagrees(e: Entry)
    ensures GetName(e, 2) == e.traditional
    ensures Header(e, 2) == e.simplified + " - " + e.formattedPinyin + " - "
    ensures forall d :: FormatDefinition(d, 2) == SimplifiedFrom([], d, 0)
  {
  }
}
