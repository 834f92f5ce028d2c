/**
 * Page arithmetic of the collection tracker: the fixed catalog of 1025
 * entries shown 16 per page, the half-open index range each page covers,
 * the page holding a given entry, and the bounded prev/next moves with the
 * disabled flags of their buttons.
 */
module Pagination {

  /** Number of entries in the national catalog. */
  const TotalPokemon: int := 1025

  /** Cards on one page (a 4x4 grid). */
  const PokemonPerPage: int := 16

  /** `Math.ceil(a / b)` for a positive divisor: the least q with a <= q * b. */
  function CeilDiv(a: int, b: int): (q: int)
    requires b > 0
    ensures (q - 1) * b < a <= q * b
  {
    var q := (a + b - 1) / b;
    var r := (a + b - 1) % b;
    assert a + b - 1 == q * b + r && 0 <= r < b;
    assert (q - 1) * b == q * b - b;
    q
  }

  /** Number of pages of the catalog. */
  function TotalPages(): (n: int)
    ensures (n - 1) * PokemonPerPage < TotalPokemon <= n * PokemonPerPage
  {
    CeilDiv(TotalPokemon, PokemonPerPage)
  }

  lemma TotalPagesIs65()
    ensures TotalPages() == 65
  {
    var q := TotalPages();
    assert (q - 1) * 16 < 1025 <= q * 16;
  }

  /** First catalog index (0-based, inclusive) shown on page p. */
  function PageStart(p: int): (s: int)
    ensures s % PokemonPerPage == 0
    ensures 1 <= p ==> 0 <= s
  {
    (p - 1) * PokemonPerPage
  }

  /** Catalog index (0-based, exclusive) where page p ends: never past the catalog. */
  function PageEnd(p: int): (e: int)
    ensures e <= TotalPokemon
    ensures e <= PageStart(p) + PokemonPerPage
    ensures e == PageStart(p) + PokemonPerPage || e == TotalPokemon
  {
    var s := PageStart(p);
    if s + PokemonPerPage < TotalPokemon then s + PokemonPerPage else TotalPokemon
  }

  /** How many cards the rendering loop over [PageStart(p), PageEnd(p)) creates. */
  function PageLength(p: int): (n: nat)
    ensures n <= PokemonPerPage
    ensures n == 0 <==> PageEnd(p) <= PageStart(p)
  {
    if PageStart(p) < PageEnd(p) then PageEnd(p) - PageStart(p) else 0
  }

  /** Every page of the catalog is a non-empty slice of at most 16 in-range indices. */
  lemma PageSliceBounds(p: int)
    requires 1 <= p <= TotalPages()
    ensures 0 <= PageStart(p) < PageEnd(p) <= TotalPokemon
    ensures PageLength(p) == PageEnd(p) - PageStart(p)
  {
    TotalPagesIs65();
  }

  /** Pages before the last are full; the last page holds the single entry 1025. */
  lemma PageLengths(p: int)
    requires 1 <= p <= TotalPages()
    ensures p < TotalPages() ==> PageLength(p) == PokemonPerPage
    ensures p == TotalPages() ==> PageLength(p) == 1 && PageStart(p) + 1 == TotalPokemon
  {
    TotalPagesIs65();
  }

  /** Beyond the last page the slice is empty. */
  lemma PagesPastTheEndAreEmpty(p: int)
    requires p > TotalPages()
    ensures PageLength(p) == 0
  {
    TotalPagesIs65();
  }

  /** The page `goToPokemon` moves to for entry number n: `Math.ceil(n / 16)`. */
  function PageOf(n: int): (p: int)
    ensures PageStart(p) < n <= PageStart(p) + PokemonPerPage
  {
    CeilDiv(n, PokemonPerPage)
  }

  /** Every catalog entry lies on a catalog page, inside that page's slice. */
  lemma PageOfContains(n: int)
    requires 1 <= n <= TotalPokemon
    ensures 1 <= PageOf(n) <= TotalPages()
    ensures PageStart(PageOf(n)) < n <= PageEnd(PageOf(n))
  {
    TotalPagesIs65();
    var p := PageOf(n);
    assert PageStart(p) < n <= PageStart(p) + 16;
    assert PageStart(p) == 16 * p - 16;
  }

  /** The page of an entry is the only page whose slice holds it. */
  lemma PageOfUnique(n: int, p: int)
    requires PageStart(p) < n <= PageEnd(p)
    ensures p == PageOf(n)
  {
    var q := PageOf(n);
    assert PageStart(q) == 16 * q - 16;
    assert PageStart(p) == 16 * p - 16;
  }

  /** `prevPageBtn.disabled` after rendering page p. */
  function PrevDisabled(p: int): (d: bool)
    ensures 1 <= p <= TotalPages() ==> (d <==> p == 1)
  {
    p <= 1
  }

  /** `nextPageBtn.disabled` after rendering page p. */
  function NextDisabled(p: int): (d: bool)
    ensures 1 <= p <= TotalPages() ==> (d <==> p == TotalPages())
  {
    p >= TotalPages()
  }

  /** The page after a click on the prev button (or ArrowLeft). */
  function PrevPageOf(p: int): (r: int)
    ensures 1 <= p <= TotalPages() ==> 1 <= r <= TotalPages()
    ensures r == p <==> PrevDisabled(p)
    ensures r != p ==> r == p - 1
  {
    if p > 1 then p - 1 else p
  }

  /** The page after a click on the next button (or ArrowRight). */
  function NextPageOf(p: int): (r: int)
    ensures 1 <= p <= TotalPages() ==> 1 <= r <= TotalPages()
    ensures r == p <==> NextDisabled(p)
    ensures r != p ==> r == p + 1
  {
    if p < TotalPages() then p + 1 else p
  }

  /** Back and forth across an enabled boundary returns to the same page. */
  lemma PrevNextInverse(p: int)
    ensures !PrevDisabled(p) && p <= TotalPages() ==> NextPageOf(PrevPageOf(p)) == p
    ensures !NextDisabled(p) && 1 <= p ==> PrevPageOf(NextPageOf(p)) == p
  {
  }
}
