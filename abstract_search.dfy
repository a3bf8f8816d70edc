/** The parts shared by the three indexed searches (DictionaryAbstractSearch.java):
  * the index of entry positions, the bucket-then-match search with full
  * matches first, the query normaliser and the case-insensitive character
  * test. */
module Searching {
  import opened Wrappers
  import opened Text
  import opened Entries
  import opened SearchResults

  /** UNICODE_CHINESE_START_RANGE: code points above it count as Chinese. */
  const CjkStart: int := 127

  /** A character above UNICODE_CHINESE_START_RANGE. */
  predicate IsCjk(c: char) {
    c as int > CjkStart
  }

  /** An index table: every key maps to positions in the entry table the
    * searcher was built with. */
  datatype Index<K(==)> = Index(entries: seq<Entry>, buckets: map<K, seq<nat>>) {
    predicate Valid() {
      forall k :: k in buckets ==> forall j :: 0 <= j < |buckets[k]| ==> buckets[k][j] < |entries|
    }

    /** The entries stored under key `k`; None where the map has no such key. */
    function Bucket(k: K): (r: Option<seq<Entry>>)
      requires Valid()
      ensures r.Some? <==> k in buckets
      ensures r.Some? ==> |r.value| == |buckets[k]|
                          && forall j :: 0 <= j < |r.value| ==> r.value[j] == entries[buckets[k][j]]
    {
      if k in buckets then Some(Entries(buckets[k])) else None
    }

    function Entries(positions: seq<nat>): (r: seq<Entry>)
      requires forall j :: 0 <= j < |positions| ==> positions[j] < |entries|
      ensures |r| == |positions| && forall j :: 0 <= j < |r| ==> r[j] == entries[positions[j]]
    {
      seq(|positions|, j requires 0 <= j < |positions| => entries[positions[j]])
    }
  }

  // ---------------------------------------------------------------------
  // charsEqual

  /** The query character equals the stored one, or its lower-case form. */
  predicate CharsEqual(searchC: char, storedC: char) {
    searchC == storedC || searchC == Lower(storedC)
  }

  /** A lower-case query letter matches its upper-case stored form, but an
    * upper-case query letter does not match a lower-case stored one. */
  lemma CharsEqualAsymmetric(c: char)
    requires 'a' <= c <= 'z'
    ensures CharsEqual(c, (c as int - 32) as char)
    ensures !CharsEqual((c as int - 32) as char, c)
  {
  }

  // ---------------------------------------------------------------------
  // search: every match of the bucket, full matches first

  /** The non-null results of `f` over the bucket, in bucket order. */
  function Found(bucket: seq<Entry>, f: Entry -> Option<SearchResult>): seq<SearchResult> {
    if bucket == [] then []
    else
      var init := Found(bucket[..|bucket| - 1], f);
      var sr := f(bucket[|bucket| - 1]);
      if sr.Some? then init + [sr.value] else init
  }

  function Fulls(rs: seq<SearchResult>): seq<SearchResult> {
    if rs == [] then []
    else if rs[|rs| - 1].isFullMatch then Fulls(rs[..|rs| - 1]) + [rs[|rs| - 1]]
    else Fulls(rs[..|rs| - 1])
  }

  function Partials(rs: seq<SearchResult>): seq<SearchResult> {
    if rs == [] then []
    else if !rs[|rs| - 1].isFullMatch then Partials(rs[..|rs| - 1]) + [rs[|rs| - 1]]
    else Partials(rs[..|rs| - 1])
  }

  /** The list search returns for a bucket: the full matches in bucket order,
    * then the partial ones in bucket order; null (None) rather than an empty
    * list. */
  function Collected(bucket: seq<Entry>, f: Entry -> Option<SearchResult>): Option<seq<SearchResult>> {
    var found := Found(bucket, f);
    var rs := Fulls(found) + Partials(found);
    if rs == [] then None else Some(rs)
  }

  /** The loop of search: a full match is inserted at the moving `top`
    * index, a partial one appended. */
  method Collect(bucket: seq<Entry>, f: Entry -> Option<SearchResult>) returns (r: Option<seq<SearchResult>>)
    ensures r == Collected(bucket, f)
  {
    var result: seq<SearchResult> := [];
    var top := 0;
    var i := 0;
    while i < |bucket|
      invariant 0 <= i <= |bucket|
      invariant top == |Fulls(Found(bucket[..i], f))|
      invariant result == Fulls(Found(bucket[..i], f)) + Partials(Found(bucket[..i], f))
    {
      var sr := f(bucket[i]);
      assert bucket[..i + 1][..i] == bucket[..i];
      if sr.Some? {
        if sr.value.isFullMatch {
          result := result[..top] + [sr.value] + result[top..];
          top := top + 1;
        } else {
          result := result + [sr.value];
        }
      }
      i := i + 1;
    }
    assert bucket[..i] == bucket;
    r := if |result| == 0 then None else Some(result);
  }

  lemma {:induction false} SplitLength(rs: seq<SearchResult>)
    ensures |Fulls(rs)| + |Partials(rs)| == |rs|
    ensures multiset(Fulls(rs)) + multiset(Partials(rs)) == multiset(rs)
  {
    if rs != [] {
      SplitLength(rs[..|rs| - 1]);
      assert rs == rs[..|rs| - 1] + [rs[|rs| - 1]];
    }
  }

  lemma {:induction false} FullsAreFull(rs: seq<SearchResult>)
    ensures forall k :: 0 <= k < |Fulls(rs)| ==> Fulls(rs)[k].isFullMatch
    ensures forall k :: 0 <= k < |Partials(rs)| ==> !Partials(rs)[k].isFullMatch
  {
    if rs != [] {
      FullsAreFull(rs[..|rs| - 1]);
    }
  }

  lemma {:induction false} FilterConcat(a: seq<SearchResult>, b: seq<SearchResult>)
    ensures Fulls(a + b) == Fulls(a) + Fulls(b)
    ensures Partials(a + b) == Partials(a) + Partials(b)
    decreases |b|
  {
    if b == [] {
      assert a + b == a;
    } else {
      var init := b[..|b| - 1];
      assert (a + b)[..|a + b| - 1] == a + init;
      FilterConcat(a, init);
    }
  }

  lemma {:induction false} FilterOfFiltered(rs: seq<SearchResult>)
    ensures Fulls(Fulls(rs)) == Fulls(rs) && Partials(Fulls(rs)) == []
    ensures Fulls(Partials(rs)) == [] && Partials(Partials(rs)) == Partials(rs)
  {
    if rs != [] {
      var init := rs[..|rs| - 1];
      FilterOfFiltered(init);
      var last := [rs[|rs| - 1]];
      if rs[|rs| - 1].isFullMatch {
        FilterConcat(Fulls(init), last);
      } else {
        FilterConcat(Partials(init), last);
      }
    }
  }

  /** search yields null exactly when no entry of the bucket matches. */
  lemma {:induction false} CollectedNone(bucket: seq<Entry>, f: Entry -> Option<SearchResult>)
    ensures Collected(bucket, f).None? <==> forall k :: 0 <= k < |bucket| ==> f(bucket[k]).None?
  {
    SplitLength(Found(bucket, f));
    FoundEmpty(bucket, f);
  }

  lemma {:induction false} FoundEmpty(bucket: seq<Entry>, f: Entry -> Option<SearchResult>)
    ensures Found(bucket, f) == [] <==> forall k :: 0 <= k < |bucket| ==> f(bucket[k]).None?
  {
    if bucket != [] {
      var init := bucket[..|bucket| - 1];
      FoundEmpty(init, f);
      if forall k :: 0 <= k < |bucket| ==> f(bucket[k]).None? {
        assert forall k :: 0 <= k < |init| ==> init[k] == bucket[k];
      }
    }
  }

  /** The results are exactly the matches of the bucket, as a multiset. */
  lemma CollectedPermutation(bucket: seq<Entry>, f: Entry -> Option<SearchResult>)
    ensures Collected(bucket, f).Some? ==> multiset(Collected(bucket, f).value) == multiset(Found(bucket, f))
  {
    SplitLength(Found(bucket, f));
  }

  /** Every full match comes before every partial one. */
  lemma CollectedFullFirst(bucket: seq<Entry>, f: Entry -> Option<SearchResult>)
    ensures Collected(bucket, f).Some? ==>
      var rs := Collected(bucket, f).value;
      forall i, j :: 0 <= i < j < |rs| && rs[j].isFullMatch ==> rs[i].isFullMatch
  {
    var found := Found(bucket, f);
    FullsAreFull(found);
    var rs := Fulls(found) + Partials(found);
    forall i, j | 0 <= i < j < |rs| && rs[j].isFullMatch
      ensures rs[i].isFullMatch
    {
      assert j < |Fulls(found)|;
    }
  }

  /** Each of the two groups keeps bucket order. */
  lemma CollectedGroups(bucket: seq<Entry>, f: Entry -> Option<SearchResult>)
    ensures Collected(bucket, f).Some? ==>
      && Fulls(Collected(bucket, f).value) == Fulls(Found(bucket, f))
      && Partials(Collected(bucket, f).value) == Partials(Found(bucket, f))
  {
    var found := Found(bucket, f);
    FilterConcat(Fulls(found), Partials(found));
    FilterOfFiltered(found);
  }

  /** Every result is the match of some entry of the bucket, in which the
    * matcher found it. */
  lemma {:induction false} FoundFromBucket(bucket: seq<Entry>, f: Entry -> Option<SearchResult>, x: SearchResult)
    ensures x in Found(bucket, f) <==> exists k :: 0 <= k < |bucket| && f(bucket[k]) == Some(x)
  {
    if bucket != [] {
      var init := bucket[..|bucket| - 1];
      FoundFromBucket(init, f, x);
      if x in Found(init, f) {
        var k :| 0 <= k < |init| && f(init[k]) == Some(x);
        assert bucket[k] == init[k];
      }
      if exists k :: 0 <= k < |bucket| && f(bucket[k]) == Some(x) {
        var k :| 0 <= k < |bucket| && f(bucket[k]) == Some(x);
        if k < |init| {
          assert init[k] == bucket[k];
        }
      }
    }
  }

  // ---------------------------------------------------------------------
  // formatSearch

  /** The second character the source rewrites to "u:" beside 'v'. */
  const UmlautU: char := 0xFFFD as char

  predicate IsSeparator(c: char) {
    c == ' ' || c == '\''
  }

  /** The builder after the character at `i` of the lower-cased query has
    * been handled. */
  function Emit(sb: string, s: string, i: nat): string
    requires i < |s|
  {
    var ch := s[i];
    if ch == 'v' || ch == UmlautU then sb + "u:"
    else if IsSeparator(ch) then
      if i == 0 then sb + [ch]
      else if IsTone(s[i - 1]) || IsSeparator(s[i - 1]) then sb
      else sb + ['\'']
    else if IsTone(ch) && |sb| > 0 && sb[|sb| - 1] == '\'' then sb[..|sb| - 1] + [ch]
    else sb + [ch]
  }

  /** The builder after the first `n` characters. */
  function Built(s: string, n: nat): string
    requires n <= |s|
  {
    if n == 0 then [] else Emit(Built(s, n - 1), s, n - 1)
  }

  /** The final measures: one leading space or apostrophe and one trailing
    * apostrophe are removed. */
  function Trimmed(sb: string): string {
    if sb == [] then []
    else
      var a := if IsSeparator(sb[0]) then sb[1..] else sb;
      if |a| > 0 && a[|a| - 1] == '\'' then a[..|a| - 1] else a
  }

  /** The normalised query. */
  function Formatted(s: string): string {
    var low := LowerString(s);
    Trimmed(Built(low, |low|))
  }

  /** formatSearch. */
  method FormatSearch(search: string) returns (r: string)
    ensures r == Formatted(search)
  {
    var s := LowerString(search);
    var sb: string := [];
    var i := 0;
    while i < |s|
      invariant 0 <= i <= |s|
      invariant sb == Built(s, i)
    {
      var ch := s[i];
      if ch == 'v' || ch == UmlautU {
        sb := sb + "u:";
      } else if ch == '\'' || ch == ' ' {
        if i == 0 {
          sb := sb + [ch];
        } else if !(IsTone(s[i - 1]) || s[i - 1] == '\'' || s[i - 1] == ' ') {
          sb := sb + ['\''];
        }
      } else if IsTone(ch) && |sb| > 0 && sb[|sb| - 1] == '\'' {
        sb := sb[..|sb| - 1] + [ch];
      } else {
        sb := sb + [ch];
      }
      i := i + 1;
    }
    if |sb| == 0 {
      return [];
    }
    if sb[0] == ' ' || sb[0] == '\'' {
      sb := sb[1..];
    }
    if |sb| > 0 && sb[|sb| - 1] == '\'' {
      sb := sb[..|sb| - 1];
    }
    r := sb;
  }

  /** The shape of a normalised query: lower case, no 'v', no space, and an
    * apostrophe only between two characters that are neither separators nor
    * tone digits on its left and not a tone digit or apostrophe on its right. */
  predicate Normal(r: string) {
    && (forall k :: 0 <= k < |r| ==> r[k] != ' ' && r[k] != 'v' && r[k] != UmlautU && !('A' <= r[k] <= 'Z'))
    && (|r| > 0 ==> r[0] != '\'' && r[|r| - 1] != '\'')
    && (forall k :: 0 < k < |r| && r[k] == '\'' ==> !IsTone(r[k - 1]) && r[k - 1] != '\'')
    && (forall k :: 0 < k < |r| && IsTone(r[k]) ==> r[k - 1] != '\'')
  }

  /** The shape of the builder at any time: a space can only be its first
    * character, apostrophes are never adjacent, never follow a tone digit
    * and are never followed by one, and a leading separator is not followed
    * by an apostrophe. */
  predicate Tidy(sb: string) {
    && (forall k :: 0 < k < |sb| ==> sb[k] != ' ')
    && (forall k :: 0 <= k < |sb| - 1 && sb[k] == '\'' ==> sb[k + 1] != '\'' && !IsTone(sb[k + 1]))
    && (forall k :: 0 < k < |sb| && sb[k] == '\'' ==> !IsTone(sb[k - 1]))
    && (|sb| > 1 && IsSeparator(sb[0]) ==> sb[1] != '\'')
    && (forall k :: 0 <= k < |sb| ==> sb[k] != 'v' && sb[k] != UmlautU && !('A' <= sb[k] <= 'Z'))
  }

  /** How the builder ends after `n` characters: unless the last input
    * character was a separator it ends in a character that is not one, after
    * a tone digit it ends in that digit, and after any other character it
    * does not end in a tone digit. */
  predicate EndsRight(sb: string, s: string, n: nat)
    requires n <= |s|
  {
    && (n == 0 ==> sb == [])
    && (n > 0 && !IsSeparator(s[n - 1]) ==> |sb| > 0 && !IsSeparator(sb[|sb| - 1]))
    && (n > 0 && IsTone(s[n - 1]) ==> |sb| > 0 && sb[|sb| - 1] == s[n - 1])
    && (n > 0 && !IsSeparator(s[n - 1]) && !IsTone(s[n - 1]) ==> !IsTone(sb[|sb| - 1]))
  }

  lemma {:induction false} BuiltShape(s: string, n: nat)
    requires n <= |s|
    requires forall k :: 0 <= k < |s| ==> !('A' <= s[k] <= 'Z')
    ensures Tidy(Built(s, n)) && EndsRight(Built(s, n), s, n)
  {
    if n > 0 {
      BuiltShape(s, n - 1);
      EmitShape(Built(s, n - 1), s, n - 1);
    }
  }

  /** Handling one more character keeps the builder tidy and ending right. */
  lemma EmitShape(sb: string, s: string, i: nat)
    requires i < |s| && !('A' <= s[i] <= 'Z')
    requires Tidy(sb) && EndsRight(sb, s, i)
    ensures Tidy(Emit(sb, s, i)) && EndsRight(Emit(sb, s, i), s, i + 1)
  {
    var ch := s[i];
    if ch == 'v' || ch == UmlautU {
      AppendUColon(sb);
    } else if IsSeparator(ch) {
      if i == 0 {
        AppendTidy(sb, ch);
      } else if !(IsTone(s[i - 1]) || IsSeparator(s[i - 1])) {
        AppendTidy(sb, '\'');
      }
    } else if IsTone(ch) && |sb| > 0 && sb[|sb| - 1] == '\'' {
      ReplaceTidy(sb, ch);
    } else {
      AppendTidy(sb, ch);
    }
  }

  /** Appending one character keeps the builder tidy when the seam is tidy. */
  lemma AppendTidy(sb: string, c: char)
    requires Tidy(sb)
    requires c != 'v' && c != UmlautU && !('A' <= c <= 'Z')
    requires c == ' ' ==> sb == []
    requires c == '\'' ==> sb == [] || (!IsSeparator(sb[|sb| - 1]) && !IsTone(sb[|sb| - 1]))
    requires IsTone(c) && sb != [] ==> sb[|sb| - 1] != '\''
    requires |sb| == 1 && IsSeparator(sb[0]) ==> c != '\''
    ensures Tidy(sb + [c])
  {
  }

  /** Appending "u:" keeps the builder tidy. */
  lemma AppendUColon(sb: string)
    requires Tidy(sb)
    ensures Tidy(sb + "u:")
  {
    var t := sb + "u:";
    assert t[|sb|] == 'u' && t[|sb| + 1] == ':';
  }

  /** A tone digit replacing a trailing apostrophe keeps the builder tidy. */
  lemma ReplaceTidy(sb: string, ch: char)
    requires Tidy(sb) && |sb| > 0 && sb[|sb| - 1] == '\'' && IsTone(ch)
    ensures Tidy(sb[..|sb| - 1] + [ch])
  {
    var t := sb[..|sb| - 1];
    assert forall k :: 0 <= k < |t| ==> t[k] == sb[k];
  }

  /** A tidy builder without its leading separator. */
  predicate Inner(a: string) {
    && (forall k :: 0 <= k < |a| ==> a[k] != ' ' && a[k] != 'v' && a[k] != UmlautU && !('A' <= a[k] <= 'Z'))
    && (forall k :: 0 <= k < |a| - 1 && a[k] == '\'' ==> a[k + 1] != '\'' && !IsTone(a[k + 1]))
    && (forall k :: 0 < k < |a| && a[k] == '\'' ==> !IsTone(a[k - 1]))
    && (|a| > 0 ==> a[0] != '\'')
  }

  lemma DropLeading(sb: string)
    requires Tidy(sb) && sb != []
    ensures Inner(if IsSeparator(sb[0]) then sb[1..] else sb)
  {
    if IsSeparator(sb[0]) {
      var a := sb[1..];
      assert forall k :: 0 <= k < |a| ==> a[k] == sb[k + 1];
    }
  }

  lemma DropTrailing(a: string)
    requires Inner(a)
    ensures Normal(if |a| > 0 && a[|a| - 1] == '\'' then a[..|a| - 1] else a)
  {
    if |a| > 0 && a[|a| - 1] == '\'' {
      var b := a[..|a| - 1];
      assert forall k :: 0 <= k < |b| ==> b[k] == a[k];
    }
  }

  /** Trimming a tidy builder gives a query in normal shape. */
  lemma TrimmedNormal(sb: string)
    requires Tidy(sb)
    ensures Normal(Trimmed(sb))
  {
    if sb != [] {
      DropLeading(sb);
      DropTrailing(if IsSeparator(sb[0]) then sb[1..] else sb);
    }
  }

  /** formatSearch output never starts with a space or an apostrophe, never
    * ends with an apostrophe, and has the rest of the normal shape. */
  lemma FormattedNormal(s: string)
    ensures Normal(Formatted(s))
  {
    var low := LowerString(s);
    BuiltShape(low, |low|);
    TrimmedNormal(Built(low, |low|));
  }

  /** A query already in normal shape is left unchanged. */
  lemma NormalFixed(r: string)
    requires Normal(r)
    ensures Formatted(r) == r
  {
    NormalLower(r);
    BuiltPrefix(r, |r|);
    assert r[..|r|] == r;
    assert Built(r, |r|) == r;
    assert Trimmed(r) == r;
  }

  lemma NormalLower(r: string)
    requires Normal(r)
    ensures LowerString(r) == r
  {
    var l := LowerString(r);
    assert forall k :: 0 <= k < |r| ==> l[k] == r[k];
  }

  lemma {:induction false} BuiltPrefix(r: string, n: nat)
    requires Normal(r) && n <= |r|
    ensures Built(r, n) == r[..n]
  {
    if n > 0 {
      BuiltPrefix(r, n - 1);
      assert r[..n] == r[..n - 1] + [r[n - 1]];
    }
  }

  /** Normalising twice is normalising once. */
  lemma FormattedIdempotent(s: string)
    ensures Formatted(Formatted(s)) == Formatted(s)
  {
    FormattedNormal(s);
    NormalFixed(Formatted(s));
  }
}
