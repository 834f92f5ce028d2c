/**
 * The tracker's mutable session: the global `currentPage`, the
 * `capturedPokemon` set and the loaded name list, with the operations the
 * buttons, the cards, the search results and the keyboard trigger. The
 * grid, the navigation buttons and the statistics panel are outputs,
 * computed from this state by `Render` and `Stats.StatsOf`.
 */
module Session {

  import opened Options
  import opened Pagination
  import opened Stats
  import Search

  /** One card of the grid: its 1-based number, its name (None where the list has none) and whether it is captured. */
  datatype Card = Card(number: int, name: Option<string>, captured: bool)

  /** What `displayCurrentPage` produces: the page label, the cards and the two disabled flags. */
  datatype PageView = PageView(page: int, cards: seq<Card>, prevDisabled: bool, nextDisabled: bool)

  /** The keys the document-level keydown handler reacts to; every other key does nothing. */
  datatype Key = ArrowLeft | ArrowRight | Space | OtherKey

  /** `pokemonList[i]`: the name at index i, or None (JavaScript `undefined`) outside the list. */
  function NameAt(names: seq<string>, i: int): (r: Option<string>)
    ensures r.Some? <==> 0 <= i < |names|
    ensures r.Some? ==> r.value == names[i]
  {
    if 0 <= i < |names| then Some(names[i]) else None
  }

  /** The cards page p shows: one per index of [PageStart(p), PageEnd(p)). */
  function PageCards(p: int, names: seq<string>, captured: set<int>): (cards: seq<Card>)
    ensures |cards| == PageLength(p)
  {
    var start := PageStart(p);
    seq(PageLength(p), k requires 0 <= k < PageLength(p) =>
      Card(start + k + 1, NameAt(names, start + k), start + k + 1 in captured))
  }

  /**
   * On a catalog page card k is entry PageStart(p) + k + 1, so the cards are
   * the consecutive entries PageStart(p) + 1 up to PageEnd(p), all inside the
   * catalog, each flagged exactly when it is captured, named from the list
   * where the list reaches and unnamed past its end.
   */
  lemma PageCardsInCatalog(p: int, names: seq<string>, captured: set<int>)
    requires 1 <= p <= TotalPages()
    ensures var cards := PageCards(p, names, captured);
      && 1 <= |cards| <= PokemonPerPage
      && cards[0].number == PageStart(p) + 1
      && cards[|cards| - 1].number == PageEnd(p)
      && forall k :: 0 <= k < |cards| ==>
           && cards[k].number == PageStart(p) + k + 1
           && cards[k].name == NameAt(names, PageStart(p) + k)
           && 1 <= cards[k].number <= TotalPokemon
           && (cards[k].captured <==> cards[k].number in captured)
           && (cards[k].number <= |names| ==> cards[k].name == Some(names[cards[k].number - 1]))
           && (cards[k].number > |names| ==> cards[k].name == None)
  {
    PageSliceBounds(p);
    var cards := PageCards(p, names, captured);
    var start := PageStart(p);
    forall k | 0 <= k < |cards|
      ensures cards[k].number == start + k + 1 && cards[k].name == NameAt(names, start + k)
      ensures 1 <= cards[k].number <= TotalPokemon
      ensures cards[k].number <= |names| ==> cards[k].name == Some(names[cards[k].number - 1])
      ensures cards[k].number > |names| ==> cards[k].name == None
    {
      assert cards[k] == Card(start + k + 1, NameAt(names, start + k), start + k + 1 in captured);
    }
  }

  /** After a jump to entry n of the catalog, the card of n is on the rendered page. */
  lemma JumpShowsEntry(n: int, names: seq<string>, captured: set<int>)
    requires 1 <= n <= TotalPokemon
    ensures 1 <= PageOf(n) <= TotalPages()
    ensures var cards := PageCards(PageOf(n), names, captured);
      exists k :: 0 <= k < |cards| && cards[k] == Card(n, NameAt(names, n - 1), n in captured)
  {
    var p := PageOf(n);
    PageOfContains(n);
    PageSliceBounds(p);
    var cards := PageCards(p, names, captured);
    var k := n - 1 - PageStart(p);
    assert cards[k] == Card(n, NameAt(names, n - 1), n in captured);
  }

  /**
   * A click on any search result jumps to a catalog page whose grid shows that
   * entry with the same name and capture flag, provided the name list does not
   * outrun the catalog.
   */
  lemma SearchResultJump(input: string, names: seq<string>, captured: set<int>, h: Search.Entry)
    requires |names| <= TotalPokemon
    requires Search.Search(input, names, captured).Results?
    requires h in Search.Search(input, names, captured).hits
    ensures 1 <= PageOf(h.number) <= TotalPages()
    ensures Card(h.number, Some(h.name), h.captured) in PageCards(PageOf(h.number), names, captured)
  {
    Search.SearchSound(input, names, captured);
    JumpShowsEntry(h.number, names, captured);
  }

  /** `togglePokemonCapture` on a set: n changes membership, nothing else does. */
  function Toggled(s: set<int>, n: int): (r: set<int>)
    ensures n in r <==> n !in s
    ensures forall m :: m != n ==> (m in r <==> m in s)
    ensures |r| == if n in s then |s| - 1 else |s| + 1
  {
    if n in s then s - {n} else s + {n}
  }

  /** Two toggles of the same number restore the set. */
  lemma ToggleTwice(s: set<int>, n: int)
    ensures Toggled(Toggled(s, n), n) == s
  {
  }

  /** Toggling a catalog entry keeps the set inside the catalog. */
  lemma ToggleStaysInCatalog(s: set<int>, n: int)
    requires s <= CatalogNumbers() && 1 <= n <= TotalPokemon
    ensures Toggled(s, n) <= CatalogNumbers()
  {
  }

  /** The set restored from a saved list (`new Set(list)`), or empty when there is none. */
  function Loaded(saved: Option<seq<int>>): (s: set<int>)
    ensures forall n :: n in s <==> saved.Some? && n in saved.value
    ensures saved.Some? ==> |s| <= |saved.value|
  {
    match saved
    case None => {}
    case Some(xs) => SetOf(xs)
  }

  /** The set of a list's elements. */
  function SetOf(xs: seq<int>): (s: set<int>)
    ensures forall n :: n in s <==> n in xs
    ensures |s| <= |xs|
  {
    if xs == [] then {} else SetOf(xs[..|xs| - 1]) + {xs[|xs| - 1]}
  }

  /**
   * The number of the eighth card of page p, the one Space toggles
   * (`.pokemon-card:nth-child(8)`), or None when the page has fewer cards.
   */
  function SpaceTarget(p: int): (t: Option<int>)
    ensures t.Some? ==> PageStart(p) < t.value <= PageEnd(p)
  {
    if PageLength(p) >= 8 then Some(PageStart(p) + 8) else None
  }

  /**
   * Space hits the eighth card of whatever page is rendered; on a catalog
   * page such a card exists on every page but the last (which has one card).
   */
  lemma SpaceTogglesEighthCard(p: int, names: seq<string>, captured: set<int>)
    ensures var cards := PageCards(p, names, captured);
      SpaceTarget(p) == if |cards| >= 8 then Some(cards[7].number) else None
    ensures 1 <= p <= TotalPages() ==> (SpaceTarget(p).Some? <==> p < TotalPages())
  {
    if 1 <= p <= TotalPages() {
      PageLengths(p);
    }
  }

  /** The page after a key press on page p. */
  function PageAfterKey(p: int, k: Key): (r: int)
    ensures 1 <= p <= TotalPages() ==> 1 <= r <= TotalPages()
    ensures k.ArrowLeft? ==> r == PrevPageOf(p)
    ensures k.ArrowRight? ==> r == NextPageOf(p)
    ensures k.Space? || k.OtherKey? ==> r == p
  {
    match k
    case ArrowLeft => if p > 1 then PrevPageOf(p) else p
    case ArrowRight => if p < TotalPages() then NextPageOf(p) else p
    case Space => p
    case OtherKey => p
  }

  /** The capture set after a key press on page p: only Space changes it. */
  function CapturedAfterKey(p: int, s: set<int>, k: Key): (r: set<int>)
    ensures !k.Space? ==> r == s
    ensures k.Space? && SpaceTarget(p).Some? ==> r == Toggled(s, SpaceTarget(p).value)
    ensures k.Space? && SpaceTarget(p).None? ==> r == s
  {
    if k.Space? && SpaceTarget(p).Some? then Toggled(s, SpaceTarget(p).value) else s
  }

  /** The page after a sequence of key presses. */
  function PageAfterKeys(p: int, keys: seq<Key>): (r: int)
    ensures p - |keys| <= r <= p + |keys|
    decreases |keys|
  {
    if keys == [] then p else PageAfterKeys(PageAfterKey(p, keys[0]), keys[1..])
  }

  /** No sequence of arrow keys leads off the catalog's pages. */
  lemma {:induction false} KeysKeepPageInRange(p: int, keys: seq<Key>)
    requires 1 <= p <= TotalPages()
    ensures 1 <= PageAfterKeys(p, keys) <= TotalPages()
    decreases |keys|
  {
    if keys != [] {
      KeysKeepPageInRange(PageAfterKey(p, keys[0]), keys[1..]);
    }
  }

  /** Space toggles only numbers of the current catalog page, so captures stay in the catalog when the page is valid. */
  lemma KeyKeepsCapturesInCatalog(p: int, s: set<int>, k: Key)
    requires 1 <= p <= TotalPages() && s <= CatalogNumbers()
    ensures CapturedAfterKey(p, s, k) <= CatalogNumbers()
  {
    var t := SpaceTarget(p);
    if k.Space? && t.Some? {
      PageSliceBounds(p);
      ToggleStaysInCatalog(s, t.value);
    }
  }

  /** The session state of one open page. */
  class Tracker {
    /** The page shown, 1-based. */
    var currentPage: int
    /** Numbers of the captured entries. */
    var captured: set<int>
    /** The catalog names, index i naming entry i + 1. */
    const names: seq<string>

    /** The page is one of the catalog's pages. */
    ghost predicate Valid()
      reads this
    {
      1 <= currentPage <= TotalPages()
    }

    /** Every captured number is an entry of the catalog. */
    ghost predicate CapturesInCatalog()
      reads this
    {
      captured <= CatalogNumbers()
    }

    /** `init` with the fetched list and `loadSavedData`: page 1, captures from the saved list if any. */
    constructor (names: seq<string>, saved: Option<seq<int>>)
      ensures Valid()
      ensures this.names == names && currentPage == 1 && captured == Loaded(saved)
    {
      this.names := names;
      currentPage := 1;
      captured := Loaded(saved);
      TotalPagesIs65();
    }

    /** `displayCurrentPage` and `updateNavigationButtons`: the grid and the two disabled flags. */
    method Render() returns (view: PageView)
      ensures view.page == currentPage
      ensures view.cards == PageCards(currentPage, names, captured)
      ensures view.prevDisabled <==> PrevDisabled(currentPage)
      ensures view.nextDisabled <==> NextDisabled(currentPage)
    {
      var start := PageStart(currentPage);
      var end := PageEnd(currentPage);
      var cards: seq<Card> := [];
      var i := start;
      while i < end
        invariant start <= i
        invariant i <= end || i == start
        invariant |cards| == i - start
        invariant forall k :: 0 <= k < |cards| ==>
          cards[k] == Card(start + k + 1, NameAt(names, start + k), start + k + 1 in captured)
      {
        var number := i + 1;
        var name := if 0 <= i < |names| then Some(names[i]) else None;
        cards := cards + [Card(number, name, number in captured)];
        i := i + 1;
      }
      view := PageView(currentPage, cards, currentPage <= 1, currentPage >= TotalPages());
    }

    /** The prev button: one page back unless on page 1. */
    method PrevPage()
      modifies this
      ensures currentPage == PrevPageOf(old(currentPage))
      ensures captured == old(captured)
      ensures old(Valid()) ==> Valid()
    {
      if currentPage > 1 {
        currentPage := currentPage - 1;
      }
    }

    /** The next button: one page on unless on the last page. */
    method NextPage()
      modifies this
      ensures currentPage == NextPageOf(old(currentPage))
      ensures captured == old(captured)
      ensures old(Valid()) ==> Valid()
    {
      if currentPage < TotalPages() {
        currentPage := currentPage + 1;
      }
    }

    /** A click on the card of number n (`togglePokemonCapture`). */
    method Toggle(n: int)
      modifies this
      ensures captured == Toggled(old(captured), n)
      ensures currentPage == old(currentPage)
      ensures old(CapturesInCatalog()) && 1 <= n <= TotalPokemon ==> CapturesInCatalog()
    {
      if n in captured {
        captured := captured - {n};
      } else {
        captured := captured + {n};
      }
    }

    /** `resetCollection` (after the confirmation): no entry is captured any more. */
    method Reset()
      modifies this
      ensures captured == {}
      ensures currentPage == old(currentPage)
      ensures CapturesInCatalog()
    {
      captured := {};
    }

    /** `goToPokemon`, a click on the search result of number n: the page that holds n. */
    method GoTo(n: int)
      modifies this
      ensures currentPage == PageOf(n)
      ensures captured == old(captured)
      ensures 1 <= n <= TotalPokemon ==> Valid()
    {
      currentPage := CeilDiv(n, PokemonPerPage);
      if 1 <= n <= TotalPokemon {
        PageOfContains(n);
      }
    }

    /** The document keydown handler: arrows turn pages, Space toggles the eighth card. */
    method HandleKey(k: Key)
      modifies this
      ensures currentPage == PageAfterKey(old(currentPage), k)
      ensures captured == CapturedAfterKey(old(currentPage), old(captured), k)
      ensures old(Valid()) ==> Valid()
      ensures old(Valid()) && old(CapturesInCatalog()) ==> CapturesInCatalog()
    {
      if Valid() && CapturesInCatalog() {
        KeyKeepsCapturesInCatalog(currentPage, captured, k);
      }
      match k
      case ArrowLeft =>
        if currentPage > 1 {
          PrevPage();
        }
      case ArrowRight =>
        if currentPage < TotalPages() {
          NextPage();
        }
      case Space =>
        var target := SpaceTarget(currentPage);
        if target.Some? {
          Toggle(target.value);
        }
      case OtherKey =>
    }
  }
}
