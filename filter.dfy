/**
 The filter engine: which records the list shows for the current search
 term and the current state and type selections.
 */
module FilterEngine {
  import opened Breweries

  /** `toLowerCase` on one character, restricted to ASCII letters. */
  function ToLower(c: char): (d: char)
    ensures 'A' <= c <= 'Z' ==> 'a' <= d <= 'z' && d as int - c as int == 32
    ensures !('A' <= c <= 'Z') ==> d == c
  {
    if 'A' <= c <= 'Z' then (c as int + 32) as char else c
  }

  /** `s` and `t` are the same string up to the case of ASCII letters. */
  ghost predicate SameIgnoringCase(s: string, t: string) {
    |s| == |t| && forall i :: 0 <= i < |s| ==> ToLower(s[i]) == ToLower(t[i])
  }

  /**
   `toLowerCase` on a string, character by character: the same string up to
   letter case, with no upper-case ASCII letter left.
   */
  function Lower(s: string): (r: string)
    ensures SameIgnoringCase(r, s)
    ensures forall i :: 0 <= i < |r| ==> !('A' <= r[i] <= 'Z')
  {
    seq(|s|, i requires 0 <= i < |s| => ToLower(s[i]))
  }

  /** Strings that differ only in the case of ASCII letters have the same lower-case form. */
  lemma LowerIgnoresCase(s: string, t: string)
    requires SameIgnoringCase(s, t)
    ensures Lower(s) == Lower(t)
  {
  }

  /** `t` occurs in `s` starting at position `i`. */
  ghost predicate OccursAt(s: string, t: string, i: nat) {
    i + |t| <= |s| && s[i..i + |t|] == t
  }

  /** `s.includes(t)`: substring search from the left. */
  function Includes(s: string, t: string): (found: bool)
    ensures found <==> exists i: nat :: OccursAt(s, t, i)
    decreases |s|
  {
    if |t| > |s| then false
    else if s[..|t|] == t then (assert OccursAt(s, t, 0); true)
    else
      var rest := Includes(s[1..], t);
      assert forall i: nat :: OccursAt(s[1..], t, i) <==> OccursAt(s, t, i + 1) by {
        forall i: nat ensures OccursAt(s[1..], t, i) <==> OccursAt(s, t, i + 1) {
          if i + 1 + |t| <= |s| {
            assert s[1..][i..i + |t|] == s[i + 1..i + 1 + |t|];
          }
        }
      }
      assert !OccursAt(s, t, 0);
      assert forall i: nat :: OccursAt(s, t, i) && i > 0 ==> OccursAt(s[1..], t, i - 1);
      rest
  }

  /**
   The `breweries.filter` predicate: the lower-cased name contains the
   lower-cased search term, and each non-empty selection equals the
   corresponding field exactly.
   */
  function Matches(b: Brewery, searchTerm: string, filters: Filters): (m: bool)
    ensures m ==> |searchTerm| <= |b.name|
    ensures searchTerm == "" && filters == NoFilters ==> m
  {
    && Includes(Lower(b.name), Lower(searchTerm))
    && (filters.state == "" || b.state == filters.state)
    && (filters.breweryType == "" || b.breweryType == filters.breweryType)
  }

  /**
   The filter ignores letter case on both sides: changing the case of the
   search term or of the name does not change whether a record matches.
   */
  lemma MatchesIgnoresCase(b: Brewery, name: string, searchTerm: string, searchTerm': string, filters: Filters)
    requires SameIgnoringCase(b.name, name)
    requires SameIgnoringCase(searchTerm, searchTerm')
    ensures Matches(b, searchTerm, filters) == Matches(b.(name := name), searchTerm', filters)
  {
    LowerIgnoresCase(b.name, name);
    LowerIgnoresCase(searchTerm, searchTerm');
  }

  /** `r` is `s` with some elements left out, the rest in their original order. */
  ghost predicate IsSubsequence(r: seq<Brewery>, s: seq<Brewery>)
    decreases |s|
  {
    if r == [] then true
    else if s == [] then false
    else (r[0] == s[0] && IsSubsequence(r[1..], s[1..])) || IsSubsequence(r, s[1..])
  }

  /**
   The filtered list: exactly the records of `breweries` that match, each as
   often as it occurs there, in their original order.
   */
  function ApplyFilters(breweries: seq<Brewery>, searchTerm: string, filters: Filters): (filtered: seq<Brewery>)
    ensures IsSubsequence(filtered, breweries)
    ensures forall b :: b in filtered <==> b in breweries && Matches(b, searchTerm, filters)
    ensures forall b :: multiset(filtered)[b] == if Matches(b, searchTerm, filters) then multiset(breweries)[b] else 0
  {
    if breweries == [] then []
    else
      var rest := ApplyFilters(breweries[1..], searchTerm, filters);
      assert breweries == [breweries[0]] + breweries[1..];
      if Matches(breweries[0], searchTerm, filters) then
        assert ([breweries[0]] + rest)[1..] == rest;
        [breweries[0]] + rest
      else
        rest
  }

  /** An empty search term occurs in every name. */
  lemma EmptyTermMatchesAll(name: string)
    ensures Includes(Lower(name), Lower(""))
  {
  }

  /** The search ignores case: "ALE" finds "Pale Ale Brewing". */
  lemma CaseInsensitiveSearch()
    ensures Includes(Lower("Pale Ale Brewing"), Lower("ALE"))
  {
  }

  /** Filtering a list whose records all match returns it unchanged. */
  lemma {:induction false} FilterKeepsMatching(breweries: seq<Brewery>, searchTerm: string, filters: Filters)
    requires forall b :: b in breweries ==> Matches(b, searchTerm, filters)
    ensures ApplyFilters(breweries, searchTerm, filters) == breweries
  {
    if breweries != [] {
      assert breweries[0] in breweries;
      FilterKeepsMatching(breweries[1..], searchTerm, filters);
    }
  }

  /** Empty search term and no selections: the filtered list is the whole list. */
  lemma EmptyCriteriaIdentity(breweries: seq<Brewery>)
    ensures ApplyFilters(breweries, "", NoFilters) == breweries
  {
  }

  /** Filtering the filtered list again with the same criteria changes nothing. */
  lemma {:induction false} FilterIdempotent(breweries: seq<Brewery>, searchTerm: string, filters: Filters)
    ensures var once := ApplyFilters(breweries, searchTerm, filters);
            ApplyFilters(once, searchTerm, filters) == once
  {
    FilterKeepsMatching(ApplyFilters(breweries, searchTerm, filters), searchTerm, filters);
  }
}
