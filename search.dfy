/**
 * The search box (`handleSearch`): the trimmed, lower-cased query is matched
 * as a substring against each catalog name (lower-cased) and against the
 * entry's decimal number; the first ten matches in catalog order are shown,
 * each with its capture status. An empty query clears the search instead.
 */
module Search {

  import opened Text

  /** At most this many results are listed (`slice(0, 10)`). */
  const MaxResults: int := 10

  /** One catalog entry as the search pipeline annotates it. */
  datatype Entry = Entry(number: nat, name: string, captured: bool)

  /** `clearSearch` (input emptied, list hidden), or the listed results; an empty list is the "no Pokémon found" line. */
  datatype SearchView = Cleared | Results(hits: seq<Entry>)

  /** `searchInput.value.trim().toLowerCase()`. */
  function Query(input: string): (q: string)
    ensures q == [] <==> forall k :: 0 <= k < |input| ==> IsJsWhitespace(input[k])
  {
    Lower(Trim(input))
  }

  /** The `map` step: entry i of the name list becomes number i + 1 with its capture flag. */
  function Annotate(names: seq<string>, captured: set<int>): (es: seq<Entry>)
    ensures |es| == |names|
    ensures forall i :: 0 <= i < |names| ==> es[i] == Entry(i + 1, names[i], i + 1 in captured)
  {
    seq(|names|, i requires 0 <= i < |names| => Entry(i + 1, names[i], i + 1 in captured))
  }

  /** The `filter` test: the lower-cased name or the decimal number contains the query. */
  function Matches(name: string, number: nat, q: string): (r: bool)
    ensures q == [] ==> r
    ensures r ==> |q| <= |name| || |q| <= |DecimalString(number)|
  {
    Contains(Lower(name), q) || Contains(DecimalString(number), q)
  }

  /** An entry matches exactly when the query occurs in its lower-cased name or in its number. */
  lemma MatchesIff(name: string, number: nat, q: string)
    ensures Matches(name, number, q) <==>
      (exists i :: OccursAt(Lower(name), q, i)) || (exists i :: OccursAt(DecimalString(number), q, i))
  {
    assert Matches(name, number, q) == (Contains(Lower(name), q) || Contains(DecimalString(number), q));
    ContainsIff(Lower(name), q);
    ContainsIff(DecimalString(number), q);
  }

  /** Entry numbers strictly increase along the sequence. */
  predicate Increasing(es: seq<Entry>)
  {
    forall i, j :: 0 <= i < j < |es| ==> es[i].number < es[j].number
  }

  /** Putting a smaller entry in front keeps the numbers increasing. */
  lemma IncreasingCons(x: Entry, rest: seq<Entry>)
    requires Increasing(rest)
    requires forall e :: e in rest ==> x.number < e.number
    ensures Increasing([x] + rest)
  {
    var r := [x] + rest;
    forall i, j | 0 <= i < j < |r| ensures r[i].number < r[j].number {
      if i == 0 {
        assert r[j] == rest[j - 1];
      } else {
        assert r[i] == rest[i - 1] && r[j] == rest[j - 1];
      }
    }
  }

  /** The tail of an increasing sequence is increasing and lies above its head. */
  lemma IncreasingTail(es: seq<Entry>)
    requires es != [] && Increasing(es)
    ensures Increasing(es[1..])
    ensures forall e :: e in es[1..] ==> es[0].number < e.number
  {
    forall e | e in es[1..] ensures es[0].number < e.number {
      var j :| 0 <= j < |es[1..]| && es[1..][j] == e;
      assert es[j + 1] == e;
    }
  }

  /** The `filter` step: the matching entries, in their original order. */
  function Filter(es: seq<Entry>, q: string): (r: seq<Entry>)
    ensures |r| <= |es|
    ensures forall e :: e in r ==> e in es && Matches(e.name, e.number, q)
    ensures forall e :: e in es && Matches(e.name, e.number, q) ==> e in r
    ensures Increasing(es) ==> Increasing(r)
    decreases |es|
  {
    if es == [] then []
    else
      var rest := Filter(es[1..], q);
      assert es == [es[0]] + es[1..];
      if Matches(es[0].name, es[0].number, q) then
        assert Increasing(es) ==> Increasing([es[0]] + rest) by {
          if Increasing(es) {
            IncreasingTail(es);
            IncreasingCons(es[0], rest);
          }
        }
        [es[0]] + rest
      else
        assert Increasing(es) ==> Increasing(rest) by {
          if Increasing(es) {
            IncreasingTail(es);
          }
        }
        rest
  }

  /** `handleSearch` without the DOM: what the result list shows for an input. */
  function Search(input: string, names: seq<string>, captured: set<int>): (v: SearchView)
    ensures v.Cleared? <==> forall k :: 0 <= k < |input| ==> IsJsWhitespace(input[k])
    ensures v.Results? ==> |v.hits| <= MaxResults
  {
    var q := Query(input);
    if q == [] then Cleared else Results(FirstMatches(names, captured, q))
  }

  /** The `slice(0, 10)` step: at most the first ten matches of the query. */
  function FirstMatches(names: seq<string>, captured: set<int>, q: string): (hits: seq<Entry>)
    ensures |hits| <= MaxResults
  {
    var matches := Filter(Annotate(names, captured), q);
    if |matches| <= MaxResults then matches else matches[..MaxResults]
  }

  /** The listed hits are the first min(10, number of matches) matches, in order. */
  lemma FirstMatchesArePrefix(names: seq<string>, captured: set<int>, q: string)
    ensures var matches := Filter(Annotate(names, captured), q);
      && FirstMatches(names, captured, q) <= matches
      && |FirstMatches(names, captured, q)| == if |matches| <= MaxResults then |matches| else MaxResults
  {
  }

  /** The annotated list holds each catalog entry once, with its name and capture status, in number order. */
  lemma AnnotateFacts(names: seq<string>, captured: set<int>)
    ensures Increasing(Annotate(names, captured))
    ensures forall e :: e in Annotate(names, captured) ==>
      && 1 <= e.number <= |names|
      && e.name == names[e.number - 1]
      && e.captured == (e.number in captured)
  {
    var es := Annotate(names, captured);
    forall e | e in es
      ensures 1 <= e.number <= |names| && e.name == names[e.number - 1]
      ensures e.captured == (e.number in captured)
    {
      var i :| 0 <= i < |es| && es[i] == e;
    }
  }

  /** A prefix of an increasing sequence is increasing and holds only its elements. */
  lemma PrefixFacts(s: seq<Entry>, n: nat)
    requires n <= |s|
    ensures Increasing(s) ==> Increasing(s[..n])
    ensures forall e :: e in s[..n] ==> e in s
  {
  }

  /**
   * Every listed result is a catalog entry that matches the query, carries the
   * name at its position and its current capture status, and the results are
   * in ascending number order.
   */
  lemma SearchSound(input: string, names: seq<string>, captured: set<int>)
    requires Search(input, names, captured).Results?
    ensures var hits := Search(input, names, captured).hits;
      && Increasing(hits)
      && forall h :: h in hits ==>
           && 1 <= h.number <= |names|
           && h.name == names[h.number - 1]
           && h.captured == (h.number in captured)
           && Matches(h.name, h.number, Query(input))
  {
    FirstMatchesSound(names, captured, Query(input));
  }

  lemma FirstMatchesSound(names: seq<string>, captured: set<int>, q: string)
    ensures var hits := FirstMatches(names, captured, q);
      && Increasing(hits)
      && forall h :: h in hits ==>
           && 1 <= h.number <= |names|
           && h.name == names[h.number - 1]
           && h.captured == (h.number in captured)
           && Matches(h.name, h.number, q)
  {
    var matches := Filter(Annotate(names, captured), q);
    AnnotateFacts(names, captured);
    PrefixFacts(matches, if |matches| <= MaxResults then |matches| else MaxResults);
  }

  /**
   * No matching entry is skipped: each match is listed when fewer than ten
   * results are shown, and otherwise each match numbered up to the last
   * listed one is listed. So the list is exactly the first matches.
   */
  lemma SearchComplete(input: string, names: seq<string>, captured: set<int>, i: int)
    requires Search(input, names, captured).Results?
    requires 0 <= i < |names| && Matches(names[i], i + 1, Query(input))
    requires var hits := Search(input, names, captured).hits;
      |hits| < MaxResults || i + 1 <= hits[|hits| - 1].number
    ensures Entry(i + 1, names[i], i + 1 in captured) in Search(input, names, captured).hits
  {
    var q := Query(input);
    assert Search(input, names, captured).hits == FirstMatches(names, captured, q);
    FirstMatchesComplete(names, captured, q, i);
  }

  lemma FirstMatchesComplete(names: seq<string>, captured: set<int>, q: string, i: int)
    requires 0 <= i < |names| && Matches(names[i], i + 1, q)
    requires var hits := FirstMatches(names, captured, q);
      |hits| < MaxResults || i + 1 <= hits[|hits| - 1].number
    ensures Entry(i + 1, names[i], i + 1 in captured) in FirstMatches(names, captured, q)
  {
    var es := Annotate(names, captured);
    var matches := Filter(es, q);
    var hits := FirstMatches(names, captured, q);
    var e := Entry(i + 1, names[i], i + 1 in captured);
    assert es[i] == e;
    assert e in matches;
    var j :| 0 <= j < |matches| && matches[j] == e;
    if |matches| > MaxResults {
      assert Increasing(matches);
      assert hits == matches[..MaxResults];
      assert j < MaxResults;
      assert hits[j] == e;
    }
  }

  /** Fewer than ten results means every match is listed. */
  lemma ShortListHasAllMatches(input: string, names: seq<string>, captured: set<int>)
    requires Search(input, names, captured).Results?
    requires |Search(input, names, captured).hits| < MaxResults
    ensures forall i :: 0 <= i < |names| && Matches(names[i], i + 1, Query(input)) ==>
      Entry(i + 1, names[i], i + 1 in captured) in Search(input, names, captured).hits
  {
    forall i | 0 <= i < |names| && Matches(names[i], i + 1, Query(input))
      ensures Entry(i + 1, names[i], i + 1 in captured) in Search(input, names, captured).hits
    {
      SearchComplete(input, names, captured, i);
    }
  }

  /** Inputs that differ only in ASCII letter case give the same results. */
  lemma SearchCaseInsensitive(a: string, b: string, names: seq<string>, captured: set<int>)
    requires Lower(a) == Lower(b)
    ensures Search(a, names, captured) == Search(b, names, captured)
  {
    TrimLowerCommute(a);
    TrimLowerCommute(b);
    assert Query(a) == Query(b);
  }

  /** Surrounding white space does not change the results. */
  lemma SearchIgnoresSurroundingSpace(input: string, names: seq<string>, captured: set<int>)
    ensures Search(Trim(input), names, captured) == Search(input, names, captured)
  {
    TrimIdempotent(input);
  }

  /** Typing an entry's number always makes that entry a match, so it is found unless ten earlier entries match. */
  lemma NumberQueryMatches(names: seq<string>, n: nat)
    requires 1 <= n <= |names|
    ensures Matches(names[n - 1], n, Query(DecimalString(n)))
  {
    var s := DecimalString(n);
    DigitsAreQuery(s);
    ContainsSelf(s);
  }
}
