/** Case-insensitive substring search, as used by the book catalog and the
    home page. Letter case is folded with an ASCII-only lowering function. */
module Text {

  /** Lower-cases one ASCII upper-case letter; every other character is kept. */
  function Lower(c: char): (d: char)
    ensures 'A' <= c <= 'Z' ==> 'a' <= d <= 'z' && d as int - c as int == 32
    ensures !('A' <= c <= 'Z') ==> d == c
  {
    if 'A' <= c <= 'Z' then (c as int + 32) as char else c
  }

  /** Upper-cases one ASCII lower-case letter; every other character is kept. */
  function Upper(c: char): (d: char)
    ensures 'a' <= c <= 'z' ==> 'A' <= d <= 'Z' && c as int - d as int == 32
    ensures !('a' <= c <= 'z') ==> d == c
  {
    if 'a' <= c <= 'z' then (c as int - 32) as char else c
  }

  /** The string's `toLowerCase()`, restricted to ASCII letters. */
  function LowerStr(s: string): (r: string)
    ensures |r| == |s|
    ensures forall i :: 0 <= i < |s| ==> r[i] == Lower(s[i])
  {
    seq(|s|, i requires 0 <= i < |s| => Lower(s[i]))
  }

  /** The string's `toUpperCase()`, restricted to ASCII letters. */
  function UpperStr(s: string): (r: string)
    ensures |r| == |s|
    ensures forall i :: 0 <= i < |s| ==> r[i] == Upper(s[i])
  {
    seq(|s|, i requires 0 <= i < |s| => Upper(s[i]))
  }

  predicate IsPrefix(p: string, s: string) {
    |p| <= |s| && s[..|p|] == p
  }

  /** `hay.includes(needle)`: needle occurs somewhere in hay, tried from the left. */
  predicate Contains(hay: string, needle: string)
    decreases |hay|
  {
    IsPrefix(needle, hay) || (|hay| > 0 && Contains(hay[1..], needle))
  }

  /** Reference definition of an occurrence: some suffix of hay starts with needle. */
  ghost predicate Occurs(hay: string, needle: string) {
    exists i :: 0 <= i <= |hay| && IsPrefix(needle, hay[i..])
  }

  lemma {:induction false} OccurrenceIsFound(hay: string, needle: string, i: nat)
    requires i <= |hay| && IsPrefix(needle, hay[i..])
    ensures Contains(hay, needle)
    decreases i
  {
    if i == 0 {
      assert hay[0..] == hay;
    } else {
      assert hay[1..][i - 1..] == hay[i..];
      OccurrenceIsFound(hay[1..], needle, i - 1);
    }
  }

  lemma {:induction false} FoundIsOccurrence(hay: string, needle: string)
    requires Contains(hay, needle)
    ensures Occurs(hay, needle)
    decreases |hay|
  {
    if IsPrefix(needle, hay) {
      assert hay[0..] == hay;
    } else {
      FoundIsOccurrence(hay[1..], needle);
      var i :| 0 <= i <= |hay[1..]| && IsPrefix(needle, hay[1..][i..]);
      assert hay[1..][i..] == hay[i + 1..];
    }
  }

  /** The left-to-right search and the reference definition agree. */
  lemma ContainsIffOccurs(hay: string, needle: string)
    ensures Contains(hay, needle) <==> Occurs(hay, needle)
  {
    if Contains(hay, needle) {
      FoundIsOccurrence(hay, needle);
    }
    if Occurs(hay, needle) {
      var i :| 0 <= i <= |hay| && IsPrefix(needle, hay[i..]);
      OccurrenceIsFound(hay, needle, i);
    }
  }

  /** Every string contains the empty string, so an empty search term matches everything. */
  lemma ContainsEmpty(hay: string)
    ensures Contains(hay, "")
  {
  }

  /** The search predicate shared by the catalog query and the home page:
      the lowered title or the lowered author contains the lowered term. */
  predicate MatchesSearch(title: string, author: string, term: string) {
    Contains(LowerStr(title), LowerStr(term)) || Contains(LowerStr(author), LowerStr(term))
  }

  lemma LowerIdempotent(s: string)
    ensures LowerStr(LowerStr(s)) == LowerStr(s)
  {
  }

  lemma LowerOfUpper(s: string)
    ensures LowerStr(UpperStr(s)) == LowerStr(s)
  {
  }

  /** Two terms that differ only in letter case select the same books. */
  lemma SearchDependsOnlyOnLowered(title: string, author: string, t1: string, t2: string)
    requires LowerStr(t1) == LowerStr(t2)
    ensures MatchesSearch(title, author, t1) == MatchesSearch(title, author, t2)
  {
  }

  /** Lower-casing or upper-casing the search term does not change which books match. */
  lemma SearchIgnoresTermCase(title: string, author: string, term: string)
    ensures MatchesSearch(title, author, LowerStr(term)) == MatchesSearch(title, author, term)
    ensures MatchesSearch(title, author, UpperStr(term)) == MatchesSearch(title, author, term)
  {
    LowerIdempotent(term);
    SearchDependsOnlyOnLowered(title, author, LowerStr(term), term);
    LowerOfUpper(term);
    SearchDependsOnlyOnLowered(title, author, UpperStr(term), term);
  }

  lemma EmptyTermMatchesAll(title: string, author: string)
    ensures MatchesSearch(title, author, "")
  {
    ContainsEmpty(LowerStr(title));
  }
}
