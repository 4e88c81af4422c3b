# Book search view, modelled in Dafny

The application is one React component (`src/App.js`). It sends a query to a
book-search provider ten results at a time. From each page it derives the most
common author and the earliest and latest publication date. The user moves
between pages with previous/next buttons.

This project models that component without the network and without rendering:

- `wrappers.dfy` (`Wrappers`): the `Option` type.
- `books.dfy` (`Books`): `Volume`, the part of a result item the view reads.
- `dates.dfy` (`PublicationDates`): the publication-date recogniser for the
  three formats `YYYY`, `YYYY-MM` and `YYYY-MM-DD`. Each of the three regular
  expressions is a fixed pattern of `\d` and literal positions, matched from
  start to end. The module also holds the earliest/latest date of a page, with
  `'N/A'` when no date parses.
- `authors.dfy` (`Authors`): the most common author. The author lists are
  flattened. A loop tallies them into a dictionary, whose keys keep insertion
  order. The keys are then reduced pairwise with a strict `>`. `IsMostCommon`
  is an independent statement of what the reduce picks, and
  `ReduceChoosesMostCommon` proves that the reduce picks it.
- `pagination.dfy` (`Pagination`): the request offset, `Math.ceil` of the page
  count, the bounded previous/next moves and walks made of such moves.
- `search_view.dfy` (`SearchView`): the class `BookSearch`, whose fields are the
  component's state slots. Its methods are the handlers. The fetch is split at
  its `await`. `BeginFetch` raises the loading flag and builds the request.
  `ApplyResponse` takes an abstract reply (`ApiError`, `Payload` or
  `FetchFailed`) and writes the slots in the order the code does. A throw
  part-way through therefore leaves the earlier writes in place.

Three behaviours of the code shape the model:

- **Tie-break.** The key reduce keeps the running choice only when its count
  is strictly greater, so among tied authors the last key wins: the author
  whose first occurrence comes latest (`IsMostCommon`, `TieBreakExample`).
- **Errors in the aggregates.** Two cases raise a TypeError:
  - a page on which no item has an author, because `reduce` without an
    initial value throws on an empty key list;
  - a body without `items`, which is what the provider sends for an empty
    result.

  In both cases the total has already been overwritten. The results and
  statistics of the previous fetch stay in place, and the error slot shows
  the TypeError's message.
- **Page range.** Nothing keeps the page within the page range: typing a new
  query triggers a fetch without resetting the page, and every body replaces
  the total. So the class keeps only `currentPage >= 1` as its invariant. The
  previous/next moves are proved to preserve the page range.

## Model

| member | source | states |
|---|---|---|
| `PublicationDates.ParsePublicationDate` | src/App.js:64-81 | the recogniser, trying the three patterns in the code's order; an accepted string is 4, 7 or 10 characters long and its first four digits are the year. ParseYear, ParseYearMonth, ParseFullDate and ParseOnlyThreeFormats characterise it completely |
| `PublicationDates.ParseYear` | src/App.js:69-71 | exactly four digits `YYYY` are recognised as January 1st of year `YYYY` |
| `PublicationDates.ParseYearMonth` | src/App.js:72-74 | `YYYY-MM` is recognised as the 1st of month `MM` of year `YYYY` |
| `PublicationDates.ParseFullDate` | src/App.js:75-77 | `YYYY-MM-DD` is recognised as that day |
| `PublicationDates.ParseOnlyThreeFormats` | src/App.js:64-81 | conversely, every accepted string is exactly one of the three renderings of the date it yields, with month and day 1 where the string leaves them out; year < 10000, month and day < 100 |
| `PublicationDates.ParseRejectsOtherShapes` | src/App.js:65-80 | the empty string, a one-digit month, `/` separators, words, a trailing time and five digits are all rejected |
| `PublicationDates.ParseOrderIrrelevant` | src/App.js:69-78 | no string matches two of the three patterns, so the order in which they are tried does not matter; in particular trying them longest first gives the same result |
| `PublicationDates.NumberOfDigits` | src/App.js:65-67 | reading back a zero-padded run of `\d` gives the number written |
| `PublicationDates.DigitsOfNumber` | src/App.js:65-67 | every run of `\d` is the zero-padded rendering of its value (so the recogniser loses nothing) |
| `PublicationDates.PublishedDates` | src/App.js:45 | the `publishedDate` of every item that has a non-empty one, in item order; never longer than the page, never holds `''` (PageDatesMembers characterises it together with ParsedDates) |
| `PublicationDates.ParsedDates` | src/App.js:46 | the dates the recogniser accepts, in order; never longer than its input |
| `PublicationDates.Earliest` | src/App.js:47 | the minimum of a non-empty list of dates is one of them and not after any of them |
| `PublicationDates.Latest` | src/App.js:48 | the maximum of a non-empty list of dates is one of them and not before any of them |
| `PublicationDates.PageDatesMembers` | src/App.js:45-46 | the dates taken from a page are exactly the dates of the items whose `publishedDate` is present, non-empty and in one of the three formats |
| `PublicationDates.EarliestText` | src/App.js:47 | the earliest-date slot after a successful fetch: never the blank initial value, and a date only if it is one of the page's parsed dates (DateRange gives its full contract) |
| `PublicationDates.LatestText` | src/App.js:48 | the latest-date slot after a successful fetch: never the blank initial value, and a date only if it is one of the page's parsed dates (DateRange gives its full contract) |
| `PublicationDates.DateRange` | src/App.js:45-48 | both slots are `'N/A'` if and only if no item has a non-empty `publishedDate` in one of the three formats; otherwise earliest ≤ latest, both are dates of some item, and every item's date lies between them |
| `PublicationDates.MixedFormatsExample` | src/App.js:45-48 | a page dated `2001`, `2001-05`, `2001-05-10` runs from 2001-01-01 to 2001-05-10 |
| `Authors.AllAuthors` | src/App.js:36 | the `flatMap` of the author lists, an absent list read as empty; AllAuthorsMembers, AllAuthorsConcat and AuthorlessItemContributesNothing state its contract |
| `Authors.AllAuthorsMembers` | src/App.js:36 | the flattened list holds exactly the authors some item names |
| `Authors.AllAuthorsConcat` | src/App.js:36 | flattening distributes over concatenation of item lists |
| `Authors.AuthorlessItemContributesNothing` | src/App.js:36 | inserting an item without authors at any position of a page leaves the flattened list unchanged |
| `Authors.TallyAuthors` | src/App.js:37-40 | the dictionary has exactly the authors as keys, each mapped to its number of occurrences, with keys in first-insertion order |
| `Authors.KeyOrder` | src/App.js:37-42 | the order of `Object.keys` of the tally: each author at its first insertion, never more keys than authors; KeyOrderKeys and KeyOrderByFirstIndex state the rest |
| `Authors.KeyOrderKeys` | src/App.js:37-40 | the keys of the tally hold every author exactly once and nothing else |
| `Authors.KeyOrderByFirstIndex` | src/App.js:37-42 | `Object.keys` of the tally lists the authors sorted by their first occurrence |
| `Authors.ReduceKeys` | src/App.js:42 | the key reduce with no initial value, a left fold from the first key keeping the running choice only on a strictly greater count; the result is always one of the keys. ReduceKeysMaximal and ReduceKeepsLaterOnTie state which one |
| `Authors.ReduceKeysMaximal` | src/App.js:42 | the pairwise reduce returns a key with the largest count, and every later key has a strictly smaller count |
| `Authors.ReduceKeepsLaterOnTie` | src/App.js:42 | of two keys with equal counts, the reduce returns the second |
| `Authors.ReduceChoosesMostCommon` | src/App.js:36-42 | the reduce over the tally picks the author that occurs in the list, occurs at least as often as any other, and among equally frequent authors first occurs latest |
| `Authors.MostCommonUnique` | src/App.js:42 | at most one author satisfies that description, so it determines the choice |
| `Authors.MostCommonAuthor` | src/App.js:36-43 | there is no result exactly when no item has an author (the reduce throws); otherwise the result is the most common author as above |
| `Authors.TieBreakExample` | src/App.js:42 | for authors `Ann, Bob, Bob, Ann` the choice is `Bob`, not the first-seen `Ann` |
| `Pagination.StartIndex` | src/App.js:24 | for pages from 1 on, the offset is non-negative, a multiple of 10, and divided by 10 gives back the page minus one |
| `Pagination.PageCount` | src/App.js:98 | `ceil(total / 10)`: the least n with total ≤ 10·n, for any integer total; non-negative when total is |
| `Pagination.InRangeStartsInside` | src/App.js:24-25 | a page in range starts inside the result set whenever the total is positive |
| `Pagination.PrevPage` | src/App.js:91-95 | the page after pressing previous moves back by at most one |
| `Pagination.NextPage` | src/App.js:97-101 | the page after pressing next moves on by at most one |
| `Pagination.PrevPageBounded` | src/App.js:91-95 | previous decrements exactly when the page is above 1, otherwise leaves it, and keeps a page in range |
| `Pagination.NextPageBounded` | src/App.js:97-101 | next increments exactly when the page is below `ceil(total / 10)`, otherwise leaves it, and keeps a page in range |
| `Pagination.WalkStaysInRange` | src/App.js:91-101 | from any page in `[1, max(1, ceil(total / 10))]`, any sequence of previous/next presses stays in that range |
| `Pagination.WalkAppend` | src/App.js:91-101 | pressing one sequence of buttons and then another is pressing their concatenation |
| `Pagination.NextReachesEveryPage` | src/App.js:97-101 | every page in range is reached from page 1 by pressing next page − 1 times |
| `SearchView.BookSearch.constructor` | src/App.js:5-15 | the initial slots: empty query, results, author, dates and latency; total 0; not loading; no error; page 1 |
| `SearchView.BookSearch.HandleInputChange` | src/App.js:87-89 | the query becomes the typed text and nothing else changes (the page is not reset) |
| `SearchView.BookSearch.HandleSearch` | src/App.js:83-85 | the page becomes 1 unconditionally, which is always in range |
| `SearchView.BookSearch.HandlePrevPage` | src/App.js:91-95 | the page moves as `PrevPage` says and stays in range if it was |
| `SearchView.BookSearch.HandleNextPage` | src/App.js:97-101 | the page moves as `NextPage` says for the current total and stays in range if it was |
| `SearchView.BookSearch.BeginFetch` | src/App.js:22-25 | loading is raised, and the request carries the three values pasted into the URL: the query as typed, the offset `(page − 1)·10` and the page size 10 |
| `SearchView.BookSearch.ShowPage` | src/App.js:43-52 | the writes of a fetch that gets past the author reduce: author, both dates, results and latency are shown and the error is cleared |
| `SearchView.BookSearch.ApplyPayload` | src/App.js:34-52 | a body sets the total first. With no `items`, or with no author on the page, it sets the error to the TypeError's message and keeps every statistic. Otherwise it shows the items, the most common author, the date range and the latency, and clears the error |
| `SearchView.BookSearch.ApplyResponse` | src/App.js:26-57 | a provider error or a failed request changes only the error slot, to its message; a body behaves as `ApplyPayload`; on every path loading ends false and the query and page are unchanged |

## Left out

- SearchView.BookSearch.BeginFetch: the request holds the query, the offset and the page size as three separate values. Line 25 pastes them into the URL template without `encodeURIComponent`, so the model does not capture what the provider receives. A query containing `#` cuts the URL at the fragment, so the offset and page size are not sent and every page asks for offset 0. A query containing `&`, `+` or `%` reaches the provider as a different `q`.
- The network: `fetch` and `response.json()` become the abstract `Response` value. A rejected request is `FetchFailed` carrying its message.
- Latency: `performance.now()` and `toFixed(2)` are wall-clock floating point. The formatted latency is a parameter of `ApplyResponse`, written only on success.
- JavaScript `Date` objects, `Math.min`/`Math.max` over time values and `toLocaleDateString()` depend on the engine, the locale and the time zone. Dates are (year, month, day) triples compared lexicographically, and a slot holds the date itself rather than its locale text.
- Calendar validity: the patterns accept strings such as `2001-13`, for which the engine builds an Invalid Date. That date survives the filter and turns both slots into "Invalid Date". The model treats every accepted string as a valid triple.
- Object key order: `Object.keys` lists integer-like keys (an author named `1984`) first, in numeric order. Keys named after `Object.prototype` members (`__proto__`, `constructor`, …) do not tally as plain counts. The model assumes author names of neither kind, so keys come in insertion order.
- The TypeError messages use V8's wording. Other engines word them differently.
- React rendering, JSX, the `useEffect` re-run on every change of query or page, and update batching are left out. So is the lost-update race between overlapping fetches, which is a concurrency concern. Fetches are applied one at a time, in the order their replies are given.
- `expandedBook`: a click sets it and nothing clears it. It only affects rendering.
- Malformed bodies (an item without `volumeInfo`, a non-array `authors`, a non-numeric `totalItems`) are not modelled. An `error` member without `message` is modelled only as an `ApiError` carrying some string.
- `challange2/test.js` is not part of this model. It is a browser-automation and accessibility-scan script against an external site, with no logic of its own.
