# Pokédex collection tracker — a Dafny model of its in-memory core

The tracker shows the 1025 entries of the national catalog in pages of 16 cards (a 4x4 grid).
The user turns pages with the prev/next buttons or the ArrowLeft/ArrowRight keys.
Clicking a card, or pressing Space for the eighth card of the page, marks that entry as captured or releases it.
A reset clears the whole collection.
A statistics panel shows the captured count, the rounded completion percentage, the number remaining, and a colour band.
A search box lists the first ten entries whose name or number contains the query.
Clicking a result jumps to the page that holds the entry.

This project models `script.js`, the single script that holds that behaviour.
The mutable state is the global `currentPage`, the `capturedPokemon` set and the loaded name list.
These become the class `Session.Tracker`, with one method per event handler.
The grid, the button flags, the statistics and the search list are outputs computed from that state.
The DOM itself is not modelled.

Modules, one per concern of the script:

- `Pagination` (pagination.dfy): the constants, `Math.ceil` page arithmetic, page slices, the page of an entry, and the bounded prev/next moves with their disabled flags.
- `Text` (text.dfy): `trim` over the ECMAScript white-space set, ASCII `toLowerCase`, `includes`, and decimal `toString`.
- `Stats` (stats.dfy): `updateStats` — count, percentage, remaining and colour band.
- `Search` (search.dfy): `handleSearch` as the map/filter/slice pipeline it is in the script.
- `Session` (session.dfy): the card list of a page, toggling, loading, the keyboard handler, and the `Tracker` class.
- `Options` (options.dfy): an optional value datatype.

Facts the proofs bring out:

- The last page (65) holds only entry 1025.
- Space does nothing on page 65, because that page has no eighth card.
- `Math.round` never meets an exact half here, since 100·c/1025 = 4c/41.
- Because of that rounding, the "complete" colour and "100%" appear from 1020 captures on, while 5 entries are still missing (`Stats.BandByCount`).
- `goToPokemon` does not validate its argument. Search results carry numbers 1..|list|, so a clicked result lands on a catalog page showing that entry when the loaded list has at most 1025 names (`Session.SearchResultJump`). Nothing in the script bounds the list: a result numbered 1026..1040 would jump to page 65, which shows only entry 1025, and one numbered 1041 or more to a page past 65, which renders no card.

Other behaviour of the script worth knowing:

- Search runs on every input event and on the search button, with no delay, and lists at most 10 results.
- A card click toggles its entry at once, with no confirmation; only the reset asks for one.
- The only jump is `goToPokemon`, reached by clicking a search result; it does not check its argument.

## Model

| member | source | states |
|---|---|---|
| Pagination.CeilDiv | script.js:4 | the result is the least q with a ≤ b·q, i.e. `Math.ceil(a / b)` for b > 0 |
| Pagination.TotalPages | script.js:4 | `TOTAL_PAGES` is the least page count whose pages of 16 hold all 1025 entries |
| Pagination.TotalPagesIs65 | script.js:2-4 | `TOTAL_PAGES = ceil(1025 / 16)` is 65 |
| Pagination.PageStart | script.js:98 | the first index of page p is a multiple of 16 and is non-negative for p ≥ 1 |
| Pagination.PageEnd | script.js:99 | the end index never passes 1025 and lies at most 16 after the start; it is either start + 16 or 1025 |
| Pagination.PageLength | script.js:105 | the rendering loop makes at most 16 cards, and none exactly when end ≤ start |
| Pagination.PageSliceBounds | script.js:98-99 | for 1 ≤ p ≤ 65: 0 ≤ start < end ≤ 1025, and the card count is end − start |
| Pagination.PageLengths | script.js:98-105 | pages 1..64 hold 16 cards; page 65 holds one card, entry 1025 |
| Pagination.PagesPastTheEndAreEmpty | script.js:98-105 | a page beyond 65 renders no card |
| Pagination.PageOf | script.js:380 | the target page p of entry n satisfies start(p) < n ≤ start(p) + 16 |
| Pagination.PageOfContains | script.js:380-384 | for 1 ≤ n ≤ 1025 the target page lies in 1..65, and n lies in that page's slice [start+1, end] |
| Pagination.PageOfUnique | script.js:380 | a page whose slice holds n is the target page of n |
| Pagination.PrevPageOf | script.js:50-56 | prev keeps a valid page valid; it changes nothing exactly when the prev button is disabled (page ≤ 1), and otherwise goes back exactly one page |
| Pagination.NextPageOf | script.js:58-64 | next keeps a valid page valid; it changes nothing exactly when the next button is disabled (page ≥ 65), and otherwise moves on exactly one page |
| Pagination.PrevDisabled | script.js:177 | on a catalog page the prev button is disabled exactly on page 1 |
| Pagination.NextDisabled | script.js:178 | on a catalog page the next button is disabled exactly on the last page |
| Pagination.PrevNextInverse | script.js:50-64 | an enabled prev followed by next, or next followed by prev, returns to the same page |
| Text.IsJsWhitespace | script.js:322 | the characters `trim` strips all lie in the Basic Multilingual Plane and none is an ASCII letter or digit |
| Text.SkipSpaceForward | script.js:322 | the index where the leading white space of `trim` ends: everything before it is white space and the character at it is not |
| Text.SkipSpaceBackward | script.js:322 | the index where the trailing white space of `trim` starts: everything from it on is white space and the character before it is not |
| Text.Trim | script.js:322 | the result is a substring with only white space around it that neither starts nor ends with white space; it is empty exactly when the input is all white space |
| Text.TrimIdempotent | script.js:322 | trimming a trimmed string changes nothing |
| Text.LowerChar | script.js:322 | upper-case ASCII letters map to their lower-case forms; every other character is unchanged |
| Text.Lower | script.js:336 | lowering keeps the length and lowers each character in place |
| Text.TrimmedAlready | script.js:322 | a string that neither starts nor ends with white space is its own trim |
| Text.TrimLowerCommute | script.js:322 | trimming and lowering commute, because lowering never creates or removes white space |
| Text.Contains | script.js:336-337 | `includes` finds the empty query everywhere, and finds nothing longer than the string |
| Text.ContainsIff | script.js:336-337 | the left-to-right scan `includes` answers true exactly when the query occurs at some position of the string |
| Text.DecimalString | script.js:337 | `n.toString()` is a non-empty string of digits with no leading zero (except "0") |
| Text.DecimalRoundTrip | script.js:337 | reading the decimal string back gives n |
| Text.DecimalStringInjective | script.js:337 | different numbers have different decimal strings |
| Search.Query | script.js:321-327 | the query is empty exactly when the typed input is all white space |
| Search.Annotate | script.js:330-334 | entry i becomes number i + 1 with name `names[i]` and the flag "i + 1 is captured" |
| Search.Matches | script.js:335-338 | the empty query matches every entry; a match is no longer than the name or the number string it occurs in |
| Search.MatchesIff | script.js:335-338 | an entry matches exactly when the query occurs at some position of its lower-cased name or of its decimal number |
| Search.Filter | script.js:335-338 | the kept entries are exactly the input entries that match (lower-cased name or decimal number contains the query); the order is kept, so increasing numbers stay increasing |
| Search.Search | script.js:321-342 | an input that is all white space clears the search; any other input lists at most 10 results |
| Search.FirstMatches | script.js:339 | at most 10 hits are listed |
| Search.FirstMatchesArePrefix | script.js:339 | the hits are the first min(10, number of matches) matches, in their order |
| Search.SearchSound | script.js:329-339 | every result is an entry 1..\|list\| with the name at that position and its current capture status; it matches the query; results ascend by number |
| Search.SearchComplete | script.js:335-339 | every matching entry is listed when fewer than 10 are shown; otherwise every match numbered up to the last listed one is listed, so the list is exactly the first matches |
| Search.ShortListHasAllMatches | script.js:335-339 | fewer than 10 results means no match is missing |
| Search.SearchCaseInsensitive | script.js:322-337 | two inputs that differ only in ASCII letter case give the same results |
| Search.SearchIgnoresSurroundingSpace | script.js:322 | white space around the input does not change the results |
| Search.NumberQueryMatches | script.js:337 | typing an entry's number makes that entry a match |
| Stats.Percentage | script.js:156 | the percentage is 100·count/1025 rounded half-up: 2050·p ≤ 200·count + 1025 < 2050·(p + 1) |
| Stats.NoTie | script.js:156 | 100·count/1025 is never exactly halfway between two integers, so half-up and `Math.round` agree |
| Stats.PercentageIsNearest | script.js:156 | the only integer within one half of 100·count/1025 is the percentage |
| Stats.PercentageBounds | script.js:156 | a count of at most 1025 gives a percentage in [0, 100] |
| Stats.PercentageMonotone | script.js:156 | a larger count never shows a smaller percentage |
| Stats.BandOf | script.js:164-172 | the band is the first of ≥ 100, ≥ 75, ≥ 50 that holds, or the last band otherwise |
| Stats.BandByCount | script.js:155-172 | in counts: complete from 1020 captures on, high from 764, half from 508, otherwise low |
| Stats.StatsOf | script.js:154-161 | count is the size of the set; count + remaining = 1025; the percentage is the rounded share; the band follows the percentage |
| Stats.StatsWithinCatalog | script.js:155-157 | when all captured numbers are catalog entries: 0 ≤ remaining ≤ 1025 and 0 ≤ percentage ≤ 100; remaining is 0 exactly when everything is captured |
| Session.NameAt | script.js:107 | a card gets a name exactly when its index lies inside the loaded list, and that name is the listed one |
| Session.PageCards | script.js:98-112 | a page shows exactly as many cards as the loop over [start, end) makes |
| Session.PageCardsInCatalog | script.js:98-112 | on pages 1..65 card k is entry start + k + 1 with the name at list index start + k, so the cards are the consecutive entries start+1..end, all within 1..1025; each is flagged exactly when captured, named from the list where the list reaches, and unnamed (`undefined`) past its end |
| Session.JumpShowsEntry | script.js:380-384 | after a jump to entry n in 1..1025, the page is in 1..65 and n's card is on it |
| Session.SearchResultJump | script.js:352 | clicking any result jumps to a catalog page whose grid shows that entry with the same name and capture flag, when the list has at most 1025 names |
| Session.Toggled | script.js:138-143 | toggling flips the membership of n only; the size changes by exactly one |
| Session.ToggleTwice | script.js:138-143 | two toggles of the same number restore the set |
| Session.ToggleStaysInCatalog | script.js:138-143 | toggling a catalog entry keeps the set within the catalog |
| Session.Loaded | script.js:214-225 | the restored set holds exactly the numbers of the saved list, or is empty when there is no saved list |
| Session.SetOf | script.js:219 | `new Set(list)` holds exactly the list's elements and is no larger than the list |
| Session.SpaceTarget | script.js:303-310 | the entry Space toggles, when there is one, lies on the current page |
| Session.SpaceTogglesEighthCard | script.js:303-310 | Space targets the eighth rendered card if the page has one, and nothing otherwise; on pages 1..65 it has one except on page 65 |
| Session.PageAfterKey | script.js:289-302 | ArrowLeft acts as prev, ArrowRight as next, and other keys leave the page as it is; a valid page stays valid |
| Session.CapturedAfterKey | script.js:303-310 | only Space changes the capture set, by toggling its target if there is one |
| Session.PageAfterKeys | script.js:289-302 | after a sequence of key presses the page has moved by at most one per key |
| Session.KeysKeepPageInRange | script.js:289-302 | no sequence of key presses starting on a catalog page leaves pages 1..65 |
| Session.KeyKeepsCapturesInCatalog | script.js:303-310 | on a catalog page a key press keeps the captured numbers within the catalog |
| Session.Tracker.constructor | script.js:7-8 | start on page 1 with the loaded list and the captures restored from the saved list |
| Session.Tracker.Render | script.js:94-116 | the view shows the current page, that page's cards, and prev/next disabled exactly at page ≤ 1 and page ≥ 65 |
| Session.Tracker.PrevPage | script.js:50-56 | the page becomes the prev move of the old page; the captures are unchanged; a valid page stays valid |
| Session.Tracker.NextPage | script.js:58-64 | the page becomes the next move of the old page; the captures are unchanged; a valid page stays valid |
| Session.Tracker.Toggle | script.js:138-151 | the captures become the old ones with n toggled; the page is unchanged; toggling a catalog entry keeps the captures within the catalog |
| Session.Tracker.Reset | script.js:229-237 | the capture set becomes empty; the page is unchanged |
| Session.Tracker.GoTo | script.js:378-389 | the page becomes ceil(n / 16); the captures are unchanged; for n in 1..1025 the page is a catalog page |
| Session.Tracker.HandleKey | script.js:289-312 | the page and captures become those the key prescribes; a valid page stays valid, and on it the captures stay within the catalog |

## Left out

- server.py is not part of this model. It is a static file server with CORS headers, pure I/O.
- `init`: fetching `listes.json` is I/O. The loaded list is a constructor parameter. The failure path, which shows an error and never installs the listeners, is not modelled.
- `saveData`, the 30-second autosave timer and the JSON encoding are persistence I/O and are not modelled. `loadSavedData` is modelled only as "the numbers of a saved list, or empty" (`Session.Loaded`). A saved list holding non-integers cannot occur in the model.
- Notifications, card and button styling, the `#001` number padding, the result-list HTML and the highlight animation in `goToPokemon` are visual and not modelled.
- Showing, hiding and focusing the search panel, and closing it on an outside click, are DOM effects. `Search.SearchView.Cleared` stands for `clearSearch`; an empty `Results` list stands for the "no Pokémon found" line.
- The `confirm` dialog before a reset is user I/O. `Session.Tracker.Reset` is the confirmed branch; a cancel makes no call.
- Event ordering before `init` has finished is not modelled. This includes keys pressed while the button listeners are not yet installed.
- `event.preventDefault()` in the key handler is not modelled. The handler is document-wide, so arrow keys and Space act even while the search box has focus.
- Text.Lower, Text.LowerChar: lower ASCII letters only, because full Unicode case mapping (which can change a string's length) is out of scope.
- Text.Trim: works on Unicode scalar values, not on UTF-16 code units. This changes nothing for trimming, because every character `trim` strips lies in the Basic Multilingual Plane (`Text.IsJsWhitespace`).
- Stats.Percentage: uses integer half-up rounding instead of floating-point `Math.round`. The two agree because no exact half can occur (`Stats.NoTie`), and the floating-point error near 4c/41 is far below the distance 1/82 to any half.
