# Advocate search, filtering and pagination

A model of the search core of the Solace advocates directory. It has two
parts:

- **The page component** (`src/app/page.tsx`). It loads the advocates once
  and derives the city and specialty dropdowns from them. It narrows the
  list by a free-text search box and the two dropdowns (`filterData`). It
  shows the result six to a page, with one button per page.
- **The route** (`src/app/api/advocates/route.ts`). `GET /api/advocates`
  reads `page`, `searchTerm`, `selectedCity` and `selectedSpecialty` from
  the query string. It builds a conjunction of ILIKE and equality clauses.
  It answers with one page of matching rows plus the total number of
  matches, or with status 500 on any failure.

The Dafny modules follow that structure:

| module | file | models |
|---|---|---|
| `Text` | `text.dfy` | `toLowerCase`, `includes`, `trim`, `Number.toString` on whole numbers |
| `SqlPattern` | `sql_pattern.dfy` | Postgres `LIKE` / `ILIKE` with `%` and `_` |
| `Wrappers`, `Sequences` | `sequences.dfy` | `Option`; `Array.prototype.filter`, `new Set(...)` order, `flatMap` |
| `Paging` | `paging.dfy` | `slice`, the page size, the page count and the page buttons |
| `Advocates` | `advocate.dfy` | the `Advocate` record and the `"All"` dropdown value |
| `ClientSearch` | `client_search.dfy` | `filterData` and the `cities` / `specialties` memos |
| `HomePage` | `home.dfy` | the component's state as a class `Home`, changed by its handlers and effects |
| `AdvocatesRoute` | `advocates_route.dfy` | the `GET` handler |
| `Integration` | `integration.dfy` | how the page loads from the route, and where their filters disagree |

The database table is a sequence of advocates in a fixed row order. `WHERE`,
`LIMIT`, `OFFSET` and `COUNT(*)` are modelled by what they compute over that
sequence. A failure of the database is a boolean parameter of `Get`.

### Behaviour of the code worth knowing

- The code neither debounces input nor discards stale responses. The page
  fetches once and filters in memory, and every input change re-runs the
  filter at once.
- The page's search box also searches the degree and the years of
  experience. The route does not.
- The page's specialty dropdown keeps advocates that list the label
  exactly. The route's specialty parameter matches any row whose
  rendered specialty list contains the label as a substring.
- The route does not check `page >= 1`. A page below 1 gives a negative
  `OFFSET`, which Postgres rejects, so the route answers 500.
- The page ignores the route's `total` and never passes a page number, so
  it shows only the route's first page (see Findings).

## Model

| member | source | states |
|---|---|---|
| `Text.Lower` | src/app/page.tsx:66 | lower-casing keeps the length and maps each character through ASCII case folding |
| `Text.Includes` | src/app/page.tsx:67 | `s.includes(t)` is true exactly when `t` occurs at some index of `s` |
| `Text.Trim` | src/app/api/advocates/route.ts:10 | the trimmed term is a contiguous part of the input with no whitespace at either end; it is empty exactly when the input is all whitespace |
| `Text.TrimIdempotent` | src/app/api/advocates/route.ts:10 | trimming a trimmed term changes nothing |
| `Text.NatToDecimal` | src/app/page.tsx:64 | the experience rendered in decimal is non-empty, all digits, with no leading zero |
| `Text.DecimalRoundTrip` | src/app/page.tsx:64 | reading the decimal rendering back gives the number |
| `SqlPattern.Like` | src/app/api/advocates/route.ts:20-23 | definition: `%` matches any run of characters, `_` exactly one, anything else itself; a pattern with neither wildcard matches exactly the string equal to it |
| `SqlPattern.ILike` | src/app/api/advocates/route.ts:20-23 | definition: LIKE after lower-casing both sides; a wildcard-free pattern matches exactly the strings equal to it ignoring case |
| `SqlPattern.ContainsPattern` | src/app/api/advocates/route.ts:20-23 | the pattern is the term between two `%` |
| `SqlPattern.ILikeContainsIff` | src/app/api/advocates/route.ts:20-23 | for a term with no `%` or `_`, `col ILIKE '%term%'` holds exactly when the lower-cased term occurs in the lower-cased column |
| `SqlPattern.ILikeContainsComplete` | src/app/api/advocates/route.ts:34 | for any term, wildcards included, an occurrence of the term makes `ILIKE '%term%'` hold |
| `Sequences.Filter` | src/app/page.tsx:57 | the result holds exactly the elements that pass the predicate, and is no longer than the input |
| `Sequences.FilterIsSubseq` | src/app/page.tsx:57 | filtering keeps the input order and invents nothing |
| `Sequences.FilterFilter` | src/app/page.tsx:71-77 | filtering a filtered list equals one filter by the conjunction |
| `Sequences.Distinct` | src/app/page.tsx:42 | `Array.from(new Set(xs))` has the same members as `xs` and no duplicates |
| `Sequences.DistinctFirstSeenOrder` | src/app/page.tsx:42 | the distinct values come in the order of their first occurrence |
| `Sequences.Flatten` | src/app/page.tsx:48 | a label is in the flattened list exactly when it is in one of the inner lists |
| `Paging.JsSlice` | src/app/page.tsx:89 | `slice(start, end)` resolves each bound (negative counts from the end, clamped to the length) and returns the elements from the resolved start, as many as the gap between the bounds |
| `Paging.PageSlice` | src/app/page.tsx:87-90 | from page 1 on, the page is the run of at most six advocates starting at index `(page - 1) * 6`, and is empty past the end |
| `Paging.PageCount` | src/app/page.tsx:166-168 | the page count is the least number of six-advocate pages that holds the list |
| `Paging.PageButtons` | src/app/page.tsx:166-169 | there is one button per page, numbered 1 to the page count |
| `Paging.ButtonsAreNonEmptyPages` | src/app/page.tsx:166-178 | a page number has a button exactly when its page shows at least one advocate |
| `Paging.PagesUpToIsPrefix` | src/app/page.tsx:87-90 | pages 1 to `k` laid end to end are the first `6k` advocates |
| `Paging.PagesCoverList` | src/app/page.tsx:166-168 | the pages that have buttons show every advocate exactly once, in list order |
| `Paging.ThirteenAdvocates` | src/app/page.tsx:87-90 | thirteen advocates give buttons 1 to 3; page 3 holds only the last advocate; page 4 is empty |
| `ClientSearch.SearchableValues` | src/app/page.tsx:58-65 | the search box is matched against four fields, each specialty and the experience: five values plus one per specialty |
| `ClientSearch.FilterData` | src/app/page.tsx:52-78 | the three conditional stages leave exactly the advocates that pass every active stage, in their loaded order; the initial inputs keep the whole list |
| `ClientSearch.TextStageIff` | src/app/page.tsx:55-68 | a non-empty term keeps an advocate exactly when the lower-cased term occurs in the lower-cased first name, last name, city, degree or a specialty, or in the experience in decimal |
| `ClientSearch.FilteredSoundAndComplete` | src/app/page.tsx:71-77 | a selected city is the city of every kept advocate; a selected specialty is listed by every kept advocate; every loaded advocate that passes all stages is kept |
| `ClientSearch.Cities` | src/app/page.tsx:42 | one city per advocate, position by position |
| `ClientSearch.CityOptions` | src/app/page.tsx:41-44 | "All" comes first, then each city of a loaded advocate, once each |
| `ClientSearch.SpecialtyOptions` | src/app/page.tsx:46-50 | "All" comes first, then each specialty of a loaded advocate, once each |
| `ClientSearch.OptionsFirstSeenOrder` | src/app/page.tsx:41-50 | both dropdowns list their values in the order the values first appear |
| `ClientSearch.OfferedOptionsAreNonEmpty` | src/app/page.tsx:104-121 | choosing any offered city or specialty, with the other inputs at rest, leaves at least one advocate |
| `HomePage.Home.constructor` | src/app/page.tsx:18-24 | the initial state has empty lists, an empty term, both dropdowns on "All" and page 1 |
| `HomePage.Home.RunFilter` | src/app/page.tsx:83-85 | the effect sets page 1 and stores the advocates the current inputs select |
| `HomePage.Home.SetSearchTerm` | src/app/page.tsx:100 | a changed term resets the page to 1 and re-syncs the list; an unchanged one changes nothing else |
| `HomePage.Home.SetCity` | src/app/page.tsx:106 | as for the term, for the city |
| `HomePage.Home.SetSpecialty` | src/app/page.tsx:115 | as for the term, for the specialty |
| `HomePage.Home.SetPage` | src/app/page.tsx:178 | clicking a button changes only the page, and the page it shows is non-empty |
| `HomePage.Home.ReceiveAdvocates` | src/app/page.tsx:31-32 | as written: both lists become the data, whatever the inputs |
| `HomePage.Home.ReceiveAdvocatesFiltered` | src/app/page.tsx:31-32 | corrected: the list becomes the data filtered by the current inputs, on page 1 |
| `HomePage.Home.PaginatedAdvocates` | src/app/page.tsx:87-90 | the shown advocates are at most six, in order, taken from index `(page - 1) * 6` of the filtered list |
| `HomePage.SliceIsSubseq` | src/app/page.tsx:89 | a contiguous slice is a subsequence |
| `HomePage.ReceivedListInSyncIff` | src/app/page.tsx:31-32 | storing the data unfiltered agrees with the inputs exactly when every advocate passes them, in particular at the initial inputs |
| `HomePage.TypedQueryIgnoredOnArrival` | src/app/page.tsx:31-32 | a term typed before the data arrives is not applied to it |
| `HomePage.EarlyTypingScenario` | src/app/page.tsx:31-32 | typing "zzzzzz" then receiving one advocate lists that advocate as written; the corrected arrival lists the typed search's result, which is empty |
| `AdvocatesRoute.LabelInText` | src/app/api/advocates/route.ts:34 | each listed specialty occurs in the rendered `specialties::text` |
| `AdvocatesRoute.SpecialtiesText` | src/app/api/advocates/route.ts:34 | definition: `specialties::text` is the labels quoted, separated by `, ` and bracketed; it always starts with `[` and ends with `]`, and is `[]` for no labels |
| `AdvocatesRoute.PageNumber` | src/app/api/advocates/route.ts:9 | a missing or empty `page` parameter means page 1; a present one is the integer it parses to |
| `AdvocatesRoute.Selects` | src/app/api/advocates/route.ts:28 | a dropdown parameter that is missing, empty or "All" adds no clause; one that filters is present and non-empty |
| `AdvocatesRoute.TermOf` | src/app/api/advocates/route.ts:10 | a missing term is empty; a present one is empty exactly when it is all whitespace |
| `AdvocatesRoute.Offset` | src/app/api/advocates/route.ts:14 | the offset is non-negative from page 1 on, and 0 on page 1 |
| `AdvocatesRoute.BuildFilters` | src/app/api/advocates/route.ts:15-36 | a clause is pushed exactly when its parameter is active; there are at most three; their conjunction holds on exactly the rows the parameters mean |
| `AdvocatesRoute.WhereClause` | src/app/api/advocates/route.ts:38 | there is no WHERE clause exactly when there are no filters |
| `AdvocatesRoute.Select` | src/app/api/advocates/route.ts:40-43 | `SELECT ... WHERE` keeps, in table order, exactly the rows that satisfy the clause; with no WHERE clause it keeps the whole table |
| `AdvocatesRoute.Matching` | src/app/api/advocates/route.ts:47-50 | definition: the rows the parameters match, in table order; a row is among them exactly when it is in the table and meets every active clause |
| `AdvocatesRoute.LimitOffset` | src/app/api/advocates/route.ts:44-45 | at most `limit` rows, taken in order from the offset |
| `AdvocatesRoute.Get` | src/app/api/advocates/route.ts:6-56 | success exactly when the store works and the page is at least 1; every failure is status 500 with the generic message; on success the total counts all matches and the data is the page of matches at the offset |
| `AdvocatesRoute.NoFiltersMatchEverything` | src/app/api/advocates/route.ts:38-50 | with no term and no dropdown filtering, every row matches |
| `AdvocatesRoute.MatchingSound` | src/app/api/advocates/route.ts:40-50 | matches are drawn from the table in order; a selected city is the city of each match; each row meeting the clauses is a match |
| `AdvocatesRoute.TextClauseIff` | src/app/api/advocates/route.ts:17-26 | a wildcard-free term matches exactly when it occurs in the first name, last name, city or specialties text, ignoring case |
| `AdvocatesRoute.MemberPassesSpecialtyClause` | src/app/api/advocates/route.ts:32-36 | a row that lists the specialty passes the specialty clause |
| `AdvocatesRoute.SpecialtyClauseOverMatches` | src/app/api/advocates/route.ts:32-36 | the specialty clause also passes a row that only lists a longer label containing it |
| `AdvocatesRoute.BracketTermMatchesEveryRow` | src/app/api/advocates/route.ts:23 | the term `[` matches every row, through the rendered list's bracket |
| `Integration.LoadAdvocates` | src/app/page.tsx:28-32 | as written: the page holds only the first six rows of the table, so fewer than the table when it has more than six |
| `Integration.MatchingIgnoresPage` | src/app/api/advocates/route.ts:38-50 | the rows a query matches do not depend on its page |
| `Integration.FetchAllPages` | src/app/api/advocates/route.ts:40-52 | requesting pages 1, 2, ... until `total` rows arrive collects exactly the matches, in order, in `max(1, pages)` requests |
| `Integration.LoadAllAdvocates` | src/app/page.tsx:28-32 | corrected: the page holds every advocate of the table |
| `Integration.PageSelectionWithinRoute` | src/app/api/advocates/route.ts:28-36 | an advocate the page keeps for a city and a specialty also matches the route's clauses for them |
| `Integration.SpecialtySemanticsDiffer` | src/app/api/advocates/route.ts:32-36 | the route keeps a row for specialty "b" that the page drops |
| `Integration.DegreeSearchedOnlyByPage` | src/app/api/advocates/route.ts:17-26 | the term "md" finds an advocate by degree on the page but not on the route |
| `Integration.BlankTermDiffers` | src/app/api/advocates/route.ts:10 | a lone space filters nothing on the route, but on the page keeps only advocates with a space in a searched value |

## Left out

- `parseInt` on the `page` parameter is not modelled character by character. The parameter is the integer it parses to, or `None` when absent or empty. Non-numeric text (NaN) and text with trailing junk (`"2abc"`) are not modelled.
- LIKE backslash escapes are not modelled. `\` in a pattern is an ordinary character here.
- Case folding is ASCII only. JavaScript and Postgres fold Unicode letters too.
- `specialties::text` is modelled as the jsonb rendering `["a", "b"]` with no JSON escaping of quotes or backslashes inside labels. `src/db/schema.ts` is not part of this model.
- The client's handling of a 500 answer is left out. `json.data` is then undefined, which the page does not guard against. The page's load is modelled only for a working route.
- The `loading` flag, the JSX rendering, `console.error` and the `fetch` transport are not modelled.
- `src/db/index.ts` (the database connection) is not part of this model. The table is a sequence in a fixed row order: no `ORDER BY` is issued, and the model assumes Postgres returns rows in the same order for the data query and between requests.
- React's scheduling is modelled as one atomic step per event. A setter call followed by its effect is one method, so a render between them is not modelled. An effect re-runs only when its dependency changes value.
- `HomePage.Home.SetPage`: requires a page that has a button, because the page offers no other way to set the page.
- `AdvocatesRoute.Get`: models `total` as the number of matching rows. The route actually sends it as a string. `COUNT(*)` is a Postgres `bigint`, the `postgres` client returns `bigint` values as strings, and `sql<number>` at `src/app/api/advocates/route.ts:48` only sets the TypeScript type. The page never reads `total`.
- Debouncing and the discarding of stale responses are not modelled, because the code has neither.

## Findings

| source | as written | input that shows it | evidently intended | confidence | as-written member | corrected member |
|---|---|---|---|---|---|---|
| src/app/page.tsx:28-32 | the page fetches `/api/advocates` with no page parameter and stores `json.data` as the whole list; the route answers with its first six rows | a table of seven advocates: the page holds six, and the seventh can never be found or shown | the page holds every advocate, by requesting every page or through a route that returns all rows | not executed | `Integration.LoadAdvocates` | `Integration.LoadAllAdvocates` |
| src/app/page.tsx:31-32 | the arriving data becomes the filtered list unfiltered; the filter effect does not depend on `advocates`, so it does not re-run | type "zzzzzz" before the data arrives; the advocate Ann Lee, Reno, MD is listed although nothing of hers contains the term (played through the component in `HomePage.EarlyTypingScenario`) | the current inputs are applied to the data when it arrives | not executed | `HomePage.Home.ReceiveAdvocates` | `HomePage.Home.ReceiveAdvocatesFiltered` |
