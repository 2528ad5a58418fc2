# ghibli-brary in Dafny

ghibli-brary is a Next.js application for browsing the Studio Ghibli catalog
and keeping a per-user list of favourite films. This project models its
logic and proves properties about it:

- **Catalog engine** (`film_utils.dfy`): facet extraction, multi-criteria
  filtering, the three sort orders, clamped pagination and the default
  filters. These are all pure functions.
- **TTL cache of the upstream film API** (`ghibli_api.dfy`): a class whose
  map of entries is updated in place. The clock reading and the HTTP
  response are parameters.
- **`/api/favorites` handlers** (`favorites_route.dfy`): `GET`, `POST` and
  `DELETE` over an in-memory store with the shape of the integration
  test's mock. The store has a film map, a table of favourite rows and an
  auto-increment id. Its `upsert` is a search loop and its `deleteMany` is a
  backwards splice loop.
- **Catalog page's URL state** (`film_library.dfy`): it reads the filters
  from the query string, and the `handle*` callbacks rewrite the query and
  navigate only when the text changes. The `URLSearchParams` operations
  those callbacks use are in `url_search_params.dfy`. That file also has an
  encoder for the query text and a decoder proved to invert it.
- **Pagination** (`pagination.dfy`): the page-number list, the
  Previous/Next buttons and the ellipsis rule.
- **Favourite button** (`favorite_button.dfy`): a favourites cache shared by
  every button, and each button's toggle and initialisation.

Helper modules:

- `wrappers.dfy`: `Option` and `Result`.
- `js_text.dfy`: the JavaScript string primitives used: `toLowerCase`,
  `trim`, `includes`, `Number.parseInt` and integer `toString`.
- `collections.dfy`: de-duplication and subsequences.
- `stable_sort.dfy`: a stable insertion sort, together with the theorem that
  a stable sorted permutation is unique. So it agrees with
  `Array.prototype.sort` under any total preorder comparator.
- `film_types.dfy`: the `Film` record and the filter record.

Two behaviours of the route are worth stating:

- A `POST` or `DELETE` body without a non-empty `filmId` makes
  `FavoriteSchema.parse` throw. The handler does not catch it, so the
  outcome is a thrown failure (`Outcome.Thrown`).
- `GET` lists favourites newest first, as its `orderBy: { id: 'desc' }`
  asks. The test mock's `findMany` ignores `orderBy`; the model follows
  the route.

## Model

| member | source | states |
|---|---|---|
| JsText.ToLower | lib/filmUtils.ts:40-47 | lower-casing keeps the length and maps every character on its own |
| JsText.TrimEmptyIff | components/FilmLibrary.tsx:123 | a string trims to "" exactly when all of it is ECMAScript white space |
| JsText.IncludesIff | lib/filmUtils.ts:48 | `includes` holds exactly when the needle occurs at some offset of the haystack |
| JsText.ParseIntLeading | lib/filmUtils.ts:11-19 | `parseInt` reads white space, an optional sign and the maximal digit run, and stops at the first non-digit |
| JsText.ParseIntNoLeadingInteger | lib/filmUtils.ts:11-19 | text whose white space and optional sign are not followed by a digit parses to NaN, which the callers turn into 0 |
| JsText.ParseIntOfNatToString | components/FilmLibrary.tsx:141-147 | the decimal text of a non-negative integer parses back to that integer |
| Collections.Distinct | lib/filmUtils.ts:22-30 | the Set-based de-duplication keeps the same members, without duplicates, in first-occurrence order (each kept value's first index in the input increases along the result) |
| Collections.FirstIndex | lib/filmUtils.ts:22-30 | the position of a value's first occurrence: it holds the value and no earlier position does |
| Collections.NoDuplicatesPermutation | lib/filmUtils.ts:33-35 | a rearrangement of a duplicate-free list is duplicate-free |
| StableSort.SortWithCorrect | lib/filmUtils.ts:75 | the sort returns a permutation, ordered by the comparator, with equal keys in input order |
| StableSort.SortWithIdempotent | lib/filmUtils.ts:75 | sorting a sorted list again changes nothing |
| StableSort.StableSortIsUnique | lib/filmUtils.ts:75 | any stable, sorted permutation equals the model's sort, so the engine's stable sort gives the same list |
| FilmUtils.ScoreAndYearReadLeadingInteger | lib/filmUtils.ts:11-19 | `normalizeScore` and `parseYear` return the signed leading decimal integer |
| FilmUtils.ScoreAndYearWithoutLeadingInteger | lib/filmUtils.ts:11-19 | `normalizeScore` and `parseYear` give 0 for text with no leading integer (NaN mapped to 0) |
| FilmUtils.LexCompareZeroIffEqual | lib/filmUtils.ts:6 | the stand-in for `localeCompare` reports equality only for equal strings |
| FilmUtils.TextOrderIsTotalPreorder | lib/filmUtils.ts:33-34 | the text comparator is total and transitive |
| FilmUtils.ComparatorIsTotalPreorder | lib/filmUtils.ts:5-9 | each of the three film comparators is total and transitive |
| FilmUtils.ApplySortCorrect | lib/filmUtils.ts:73-76 | `applySort` (the function ApplySort, built on Comparator) gives a permutation, sorted by the chosen comparator (title-asc for any other key that is not an inherited `Object.prototype` property name), stable and idempotent |
| FilmUtils.ApplySortOrder | lib/filmUtils.ts:5-9 | for the comparator Comparator picks, with NormalizeScore and ParseYear as keys: release-desc: years non-increasing; rating-desc: scores non-increasing; title-asc: lower-cased titles non-decreasing |
| FilmUtils.FacetValues | lib/filmUtils.ts:26-30 | the collected values are exactly the non-empty values the films have for the facet |
| FilmUtils.FacetValuesAppend | lib/filmUtils.ts:26-30 | the values are collected film by film in catalog order: the values of a + b are those of a followed by those of b |
| FilmUtils.TextFacetCorrect | lib/filmUtils.ts:21-34 | directors and producers are each listed once, strictly increasing as text |
| FilmUtils.YearFacetCorrect | lib/filmUtils.ts:29-35 | years are listed once each, by ascending parsed year, ties in the order of the de-duplicated list |
| FilmUtils.YearTiesInFirstAppearanceOrder | lib/filmUtils.ts:29-35 | two listed years with the same parsed year appear in the order of their first appearance in the catalog |
| FilmUtils.GetFilterOptionsCorrect | lib/filmUtils.ts:21-37 | for GetFilterOptions: the three facet lists hold exactly the distinct non-empty values, in their orders |
| FilmUtils.ApplyFilters | lib/filmUtils.ts:39-70 | the result is a subsequence of the input holding exactly the matching films, each as often as in the input |
| FilmUtils.MatchesIff | lib/filmUtils.ts:40-69 | for the predicate Matches: a film is kept iff the search term is blank or occurs in lower-cased "title description", each non-empty selection holds its value, and a positive minimum score is reached |
| FilmUtils.NoCriteriaKeepsAll | lib/filmUtils.ts:45-70 | blank search, empty selections and no positive minimum keep every film, in order |
| FilmUtils.CeilDiv | lib/filmUtils.ts:79 | `Math.ceil(n / d)` is the least q with n <= q*d |
| FilmUtils.TotalPages | lib/filmUtils.ts:79 | at least one page, and just enough pages to hold every film |
| FilmUtils.ClampPage | lib/filmUtils.ts:80 | the current page lies in 1..totalPages and equals the request when that is in range |
| FilmUtils.PaginateFilms | lib/filmUtils.ts:78-89 | the items are the slice of the clamped page, at most pageSize films, non-empty for a non-empty catalog |
| FilmUtils.PagesUpToPrefix | lib/filmUtils.ts:81-82 | the first k pages laid end to end are the first k*pageSize films |
| FilmUtils.PagesPartitionFilms | lib/filmUtils.ts:78-89 | all pages laid end to end give back the whole list |
| FilmUtils.PaginateClampsPastEnd | tests/filmUtils.test.ts:81-87 | page 3 of three films at two per page clamps to page 2 of 2, holding the third film |
| FilmUtils.CreateDefaultFilters | lib/filmUtils.ts:91-103 | every absent field takes its default, every field given with a value wins |
| FilmUtils.DefaultFiltersKeepAll | lib/filmUtils.ts:91-103 | the default filters keep all films and sort by title |
| GhibliApi.KeysAreDistinct | lib/ghibliApi.ts:51-57 | the list key never equals a per-film key, and distinct ids give distinct keys |
| GhibliApi.FailureMessage | lib/ghibliApi.ts:41-43 | the error starts "Failed to fetch " and mentions the status and status text |
| GhibliApi.ApiCache.constructor | lib/ghibliApi.ts:17 | the cache starts empty |
| GhibliApi.ApiCache.FetchJson | lib/ghibliApi.ts:24-49 | a fetch happens iff there is no entry with expiresAt > now; an ok answer stores {data, now + 60000} under the key only; a non-ok answer fails and leaves the cache unchanged |
| GhibliApi.ApiCache.GetFilms | lib/ghibliApi.ts:51-53 | the list lookup under key "films", with the same fetch discipline |
| GhibliApi.ApiCache.GetFilmById | lib/ghibliApi.ts:55-57 | the per-film lookup under key "film-" + id, with the same fetch discipline |
| GhibliApi.ApiCache.Clear | lib/ghibliApi.ts:59-61 | clearing empties the cache |
| GhibliApi.ApiCache.Size | lib/ghibliApi.ts:63-65 | the size is the number of distinct keys stored since the last clear, because expired entries are never evicted |
| GhibliApi.FilmsCachedForTtl | tests/ghibliApi.test.ts:37-56 | of two list lookups at one instant the first fetches and the second is served from the cache; a third 61 s later fetches again |
| GhibliApi.RefetchAtExpiry | lib/ghibliApi.ts:28-30 | a second lookup d ms later refetches iff d >= 60000, so it also refetches at exactly expiresAt |
| FavoritesRoute.NumberOf | app/api/favorites/route.ts:26-29 | `Number(text)`: blank text is 0 |
| FavoritesRoute.NumberOfNatToString | app/api/favorites/route.ts:26-29 | a session id that is decimal text becomes that number |
| FavoritesRoute.UserKeyOfNumberOrText | app/api/favorites/route.ts:26-29 | `getUserId` (the function UserKey) gives the same number for a numeric id and for its decimal text |
| FavoritesRoute.RequireSession | app/api/favorites/route.ts:18-24 | the answer is 401 exactly when the session has no truthy user id |
| FavoritesRoute.ParseBody | app/api/favorites/route.ts:10-12 | the body is accepted iff it is an object whose filmId is a non-empty string; a failure is either unparseable JSON or a schema rejection |
| FavoritesRoute.RowOfLeadingInteger | app/api/favorites/route.ts:71-83 | in the row RowOf builds, a release date or score that starts with an integer gives releaseYear or rtScore equal to that signed integer |
| FavoritesRoute.RowOfNoLeadingInteger | app/api/favorites/route.ts:71-83 | in the row RowOf builds, a release date or score with no leading integer gives releaseYear or rtScore 0 |
| FavoritesRoute.Keep | tests/integration/favorites.test.ts:53-61 | filtering the table keeps exactly the matching rows, in order, as a subsequence |
| FavoritesRoute.KeepCounts | tests/integration/favorites.test.ts:53-61 | filtering keeps every matching row as many times as the table holds it, and no non-matching row |
| FavoritesRoute.Without | tests/integration/favorites.test.ts:80-91 | after deletion, exactly the rows not matching (user, film) remain, in order, and the pair is no longer favourited |
| FavoritesRoute.Upserted | tests/integration/favorites.test.ts:62-79 | an existing pair leaves the table unchanged; otherwise exactly one row with the next id is appended; the old rows stay a prefix, at most one row is added, and afterwards the pair is favourited for a numeric user |
| FavoritesRoute.UpsertIdempotent | app/api/favorites/route.ts:108-122 | adding a favourite twice equals adding it once |
| FavoritesRoute.RemoveAfterAdd | app/api/favorites/route.ts:108-145 | deleting after adding equals deleting without adding |
| FavoritesRoute.RemoveAbsent | app/api/favorites/route.ts:138-145 | deleting a pair that is not favourited changes nothing |
| FavoritesRoute.AddThenRemoveRestores | app/api/favorites/route.ts:108-145 | adding then deleting a new pair restores the table |
| FavoritesRoute.Reverse | app/api/favorites/route.ts:44 | reversal puts element i at position n-1-i |
| FavoritesRoute.NewestFirst | app/api/favorites/route.ts:41-45 | the user's rows and only those, in descending id order |
| FavoritesRoute.Listing | app/api/favorites/route.ts:47-57 | one film row per favourite, newest first |
| FavoritesRoute.ListingEmpty | app/api/favorites/route.ts:41-57 | a user with no favourites gets an empty list |
| FavoritesRoute.ListingSingle | app/api/favorites/route.ts:41-57 | a single favourite lists exactly its film |
| FavoritesRoute.FavoritesStore.constructor | tests/integration/favorites.test.ts:20-22 | the store starts with no films, no favourites and next id 1 |
| FavoritesRoute.FavoritesStore.EnsureFilmExists | app/api/favorites/route.ts:60-87 | an existing row is returned unchanged without upstream; otherwise the upstream film creates one; no upstream film means not found and no change |
| FavoritesRoute.FavoritesStore.UpsertFavorite | tests/integration/favorites.test.ts:62-79 | the search loop finds an existing pair or appends one row, bumping the id |
| FavoritesRoute.FavoritesStore.DeleteMany | tests/integration/favorites.test.ts:80-91 | the backwards splice loop removes every matching row and counts them |
| FavoritesRoute.FavoritesStore.SpliceOutMatches | tests/integration/favorites.test.ts:84-89 | walking the table from the end and splicing out each matching row leaves exactly the other rows, in their order |
| FavoritesRoute.FavoritesStore.Get | app/api/favorites/route.ts:31-58 | 401 without a user; otherwise 200 with the user's favourite films newest first |
| FavoritesRoute.FavoritesStore.Post | app/api/favorites/route.ts:89-123 | 401 untouched; a bad body throws untouched; a missing film gives 404 with the favourites unchanged; otherwise 201 after an idempotent upsert, and the next id advances exactly when a row was added |
| FavoritesRoute.FavoritesStore.Delete | app/api/favorites/route.ts:125-146 | 401 untouched; a bad body throws untouched; otherwise every matching row is removed and 200 is returned, even when nothing matched |
| FavoritesRoute.AddListRemove | tests/integration/favorites.test.ts:186-203 | add gives 201, list shows the film, delete gives 200, and the list is then empty |
| UrlSearchParams.Get | components/FilmLibrary.tsx:48 | `get` returns the value of the first pair with the key, and null when there is none |
| UrlSearchParams.GetAll | components/FilmLibrary.tsx:23-25 | `getAll` holds exactly the values paired with the key, and is empty iff `get` is null |
| UrlSearchParams.GetAllAppend | components/FilmLibrary.tsx:113-115 | appending a pair adds its value at the end of that key's values only |
| UrlSearchParams.Deleted | components/FilmLibrary.tsx:100 | `delete` removes every pair with the key and keeps the others |
| UrlSearchParams.DeletedKeepsOthers | components/FilmLibrary.tsx:100 | deleting one key leaves every other key's values as they were |
| UrlSearchParams.DeletedAbsent | components/FilmLibrary.tsx:100 | deleting a key that is absent changes nothing |
| UrlSearchParams.ReplaceFirst | components/FilmLibrary.tsx:102 | replacing the first pair and dropping the rest leaves the key with exactly the new value |
| UrlSearchParams.WithValue | components/FilmLibrary.tsx:102 | after `set`, the key has exactly the one new value |
| UrlSearchParams.ReplaceFirstKeepsOthers | components/FilmLibrary.tsx:102 | replacing one key's value leaves the other keys' values as they were |
| UrlSearchParams.WithValueKeepsOthers | components/FilmLibrary.tsx:102 | `set` leaves the other keys' values as they were |
| UrlSearchParams.DecodeEncoded | components/FilmLibrary.tsx:82 | decoding an encoded component gives back the text |
| UrlSearchParams.DeserializeSerialized | components/FilmLibrary.tsx:82-85 | for Serialize and Encode: parsing the serialized query gives back the same pairs in the same order |
| UrlSearchParams.SerializeInjective | components/FilmLibrary.tsx:85-89 | for Serialize: two queries serialize to the same text iff they are equal, so the text comparison detects every change |
| UrlSearchParams.SearchParams.constructor | components/FilmLibrary.tsx:82 | parsing the current query text recovers its pairs |
| UrlSearchParams.SearchParams.Delete | components/FilmLibrary.tsx:100 | `delete` replaces the pairs by Deleted |
| UrlSearchParams.SearchParams.Set | components/FilmLibrary.tsx:102 | `set` replaces the pairs by WithValue |
| UrlSearchParams.SearchParams.Append | components/FilmLibrary.tsx:114 | `append` adds the pair at the end |
| UrlSearchParams.SearchParams.ToString | components/FilmLibrary.tsx:85 | `toString` is the serialization of the pairs |
| FilmLibrary.GetNumberParam | components/FilmLibrary.tsx:27-33 | a missing parameter gives the default; a present one is the default exactly when its text has no leading integer (see the two lemmas below) |
| FilmLibrary.GetNumberParamOfNat | components/FilmLibrary.tsx:27-33 | a parameter holding decimal digits gives their value |
| FilmLibrary.GetNumberParamLeading | components/FilmLibrary.tsx:27-33 | a present parameter whose text starts with white space, an optional sign and digits gives that signed integer |
| FilmLibrary.GetNumberParamNoLeadingInteger | components/FilmLibrary.tsx:27-33 | a present parameter with no leading integer gives the default |
| FilmLibrary.GetSortParam | components/FilmLibrary.tsx:35-41 | a known sort option is returned as is; anything else, or none, gives title-asc |
| FilmLibrary.ClampScore | components/FilmLibrary.tsx:52 | the score is clamped into 0..100, unchanged when already inside |
| FilmLibrary.MinScore | components/FilmLibrary.tsx:52 | the minimum score read from the query lies in 0..100 and is 0 when absent |
| FilmLibrary.ReadFilters | components/FilmLibrary.tsx:48-66 | the filters are the query's search, the getAll lists, the clamped score and the checked sort, with default paging |
| FilmLibrary.InactiveShowsAll | components/FilmLibrary.tsx:169-175 | when HasActiveFilters is false, VisibleFilms shows every film, sorted by title |
| FilmLibrary.NonEmpty | components/FilmLibrary.tsx:113 | `filter(Boolean)` keeps exactly the non-empty values |
| FilmLibrary.NonEmptyKeepsOrder | components/FilmLibrary.tsx:113 | `filter(Boolean)` keeps the non-empty values in order, each as often as in the input |
| FilmLibrary.AppendAllValues | components/FilmLibrary.tsx:113-115 | appending the values adds them, in order, after the key's values |
| FilmLibrary.AppendAllOthers | components/FilmLibrary.tsx:113-115 | appending under one key leaves the other keys' values as they were |
| FilmLibrary.DeletedAllRemoves | components/FilmLibrary.tsx:156-165 | every deleted key is absent afterwards |
| FilmLibrary.DeletedAllKeepsOthers | components/FilmLibrary.tsx:156-165 | keys that are not deleted keep their values |
| FilmLibrary.SetParamEffect | components/FilmLibrary.tsx:96-107 | for Edited: a falsy value removes the key; otherwise the key holds just that value; other keys are unchanged |
| FilmLibrary.SetArrayParamEffect | components/FilmLibrary.tsx:109-119 | the key ends with exactly the non-empty values, in order; other keys are unchanged |
| FilmLibrary.ClearAllEffect | components/FilmLibrary.tsx:156-165 | after clearing, no filter is active and other parameters are kept |
| FilmLibrary.Toggled | components/FilmLibrary.tsx:128-139 | toggling gives a duplicate-free list holding the value iff it was not selected before; removing keeps the others in order, adding puts the value last after the de-duplicated selection |
| FilmLibrary.ToggleTwice | components/FilmLibrary.tsx:128-139 | toggling a value twice restores the selection's members |
| FilmLibrary.SearchRoundTrip | components/FilmLibrary.tsx:121-126 | the search read back is the value typed, or "" when that is blank |
| FilmLibrary.MinScoreRoundTrip | components/FilmLibrary.tsx:141-147 | the minimum score read back is the clamped value set |
| FilmLibrary.SortRoundTrip | components/FilmLibrary.tsx:149-154 | the sort read back is the option chosen, title-asc included |
| FilmLibrary.ToggleEffect | components/FilmLibrary.tsx:128-139 | the toggled key holds the toggled selection's non-empty values; other keys are unchanged |
| FilmLibrary.ApplyEdit | components/FilmLibrary.tsx:96-119 | applying an edit to the parameters object gives the edited query |
| FilmLibrary.ReplaceValues | components/FilmLibrary.tsx:109-119 | the delete-then-append loop gives the key's non-empty values, in order, after the other pairs |
| FilmLibrary.AppendNonEmpty | components/FilmLibrary.tsx:113-115 | the `forEach` appends one pair per non-empty value, in order, after the pairs already there |
| FilmLibrary.DeleteFilterKeys | components/FilmLibrary.tsx:156-165 | the six deletions remove the filter keys and keep everything else |
| FilmLibrary.Library.constructor | components/FilmLibrary.tsx:43-46 | the page starts at its path and query, with no navigation yet |
| FilmLibrary.Library.UpdateQuery | components/FilmLibrary.tsx:80-94 | the query becomes the edited one, and a navigation to path?query is recorded iff the query text changed |
| FilmLibrary.Library.HandleSearchChange | components/FilmLibrary.tsx:121-126 | afterwards the search parameter reads back as the typed value, or as absent when blank; a navigation to the new query is recorded iff the query changed, and nothing else is recorded |
| FilmLibrary.Library.HandleToggle | components/FilmLibrary.tsx:128-139 | afterwards the key lists the toggled selection; a navigation to the new query is recorded iff the query changed, and nothing else is recorded |
| FilmLibrary.Library.HandleMinScoreChange | components/FilmLibrary.tsx:141-147 | afterwards the minimum score reads back as the clamped value; a navigation to the new query is recorded iff the query changed, and nothing else is recorded |
| FilmLibrary.Library.HandleSortChange | components/FilmLibrary.tsx:149-154 | afterwards the sort reads back as the chosen option; a navigation to the new query is recorded iff the query changed, and nothing else is recorded |
| FilmLibrary.Library.HandleClearAll | components/FilmLibrary.tsx:156-165 | afterwards no filter is active; a navigation to the new query is recorded iff the query changed, and nothing else is recorded |
| Pagination.NumericOrderIsTotalPreorder | components/Pagination.tsx:19 | `(a, b) => a - b` is a total preorder |
| Pagination.CollectPages | components/Pagination.tsx:10-17 | the collected pages are duplicate-free, at most five, and are exactly 1, total, and the neighbours of current strictly between them |
| Pagination.SortDistinctAscending | components/Pagination.tsx:19 | sorting the distinct pages numerically gives the same pages strictly ascending |
| Pagination.GetPages | components/Pagination.tsx:9-20 | the pages are strictly ascending, include 1 and total, are exactly the listed pages, at most five, and within 1..total |
| Pagination.PageButtons | components/Pagination.tsx:42-45 | one button per page, active iff it is the current page, with an ellipsis iff it skips pages after the previous one |
| Pagination.Render | components/Pagination.tsx:22-76 | hidden iff total <= 1; Previous targets current-1 and is disabled iff current is 1; Next targets current+1 and is disabled iff current is total; the buttons are exactly the listed pages, in ascending order; a button is active iff it is the current page, and one is when current is in 1..total; an ellipsis appears iff an unlisted page lies before it |
| Pagination.ButtonsShowListedPages | components/Pagination.tsx:42-68 | there is a button for exactly each listed page, in ascending order; a button is active iff it is the current page, and a listed current page has one; an ellipsis precedes a button iff a page was skipped |
| Pagination.GapIffSkipped | components/Pagination.tsx:44-45 | the ellipsis before a button appears exactly when some page between it and the previous button is not listed |
| FavoriteButton.IdsOf | components/FavoriteButton.tsx:29 | the set holds exactly the listed ids |
| FavoriteButton.Received | components/FavoriteButton.tsx:22-30 | an ok, readable answer gives its ids; a non-ok status, an unreadable body or a network error gives the empty set |
| FavoriteButton.FavoritesCache.constructor | components/FavoriteButton.tsx:11-14 | the cache starts with no data and no request |
| FavoriteButton.FavoritesCache.BeginLoad | components/FavoriteButton.tsx:16-31 | stored data is answered without a request; otherwise one request is started if none exists, and an existing one is reused |
| FavoriteButton.FavoritesCache.Settle | components/FavoriteButton.tsx:22-30 | the pending request resolves to what was received, failures as the empty set |
| FavoriteButton.FavoritesCache.FinishLoad | components/FavoriteButton.tsx:33-35 | the awaited result is stored in data and returned |
| FavoriteButton.FavoritesCache.Load | components/FavoriteButton.tsx:16-36 | stored data is reused with no request; otherwise the existing or one new request is awaited and its result, failures included, is stored |
| FavoriteButton.FavoritesCache.Invalidate | components/FavoriteButton.tsx:38-41 | both data and request are dropped |
| FavoriteButton.Patched | components/FavoriteButton.tsx:95-102 | the film is removed if it was a favourite and added if not; every other id is unchanged |
| FavoriteButton.PatchedUndone | components/FavoriteButton.tsx:94-105 | a patch followed by the opposite patch restores the set |
| FavoriteButton.MutationFor | components/FavoriteButton.tsx:82 | DELETE iff the film is a favourite, POST otherwise, for this film |
| FavoriteButton.Button.constructor | components/FavoriteButton.tsx:47-50 | a button starts not favourite and not initialised |
| FavoriteButton.Button.Initialise | components/FavoriteButton.tsx:53-71 | nothing happens unless signed in and not yet initialised; otherwise the favourites are loaded and, unless cancelled, isFavorite becomes membership of the film in the loaded set; stored data is reused, a pending request is awaited without a new one, a missing one is started once, and the result ends stored with a resolved request |
| FavoriteButton.Button.Toggle | components/FavoriteButton.tsx:75-107 | signed out: only sign-in; signed in: the request is sent; a failure changes nothing more; a success flips isFavorite and patches the cached set or invalidates the cache; a button that agreed with the cache still does |
| FavoriteButton.SharedRequest | components/FavoriteButton.tsx:21-33 | two loads begun before the answer share one request and get the same set |
| FavoriteButton.FailureIsKept | components/FavoriteButton.tsx:23-35 | a failed load stores the empty set, which the next load returns without a new request |
| FavoriteButton.AddThenRemove | components/FavoriteButton.tsx:94-105 | add then remove sends POST then DELETE and leaves the cached set as it was |

## Left out

- Rendering: all JSX, styling, the loading placeholder and the `disabled`
  flag of the buttons are left out. The display-only components
  (FilterPanel, FilmCard, SortSelect, EmptyState and the others) are not
  part of this model.
- The 250 ms debounce of the search input is timer-driven behaviour and is
  left out.
- The login and register forms, next-auth, bcrypt, zod's e-mail check and
  Prisma itself are not part of this model. The favourites store is the
  sequential in-memory table of the integration test's mock. Database
  constraints and concurrent requests are not modelled.
- The network is not modelled. `fetch`, `response.json()`, `AbortSignal`,
  `getServerSession` and `Date.now()` become parameters: an HTTP outcome, an
  optional user id, a clock reading.
- `localeCompare` is replaced by code-unit lexicographic comparison. Title
  comparison lower-cases ASCII letters only. ICU collation and Unicode case
  folding are not modelled.
- `Number.parseInt` is modelled on integers. Float precision, values past
  2^53 and `Infinity` are not modelled.
- FavoritesRoute.NumberOf handles blank text and signed decimal integers.
  Other forms `Number()` accepts (`1e3`, `0x10`, `Infinity`, fractions)
  become NaN in the model.
- FavoritesRoute.UpsertIdempotent, FavoritesRoute.RemoveAfterAdd and
  FavoritesRoute.AddThenRemoveRestores require a numeric user id. When the
  id converts to NaN, the mock's `===` never matches, so each `POST`
  appends a new row.
- UrlSearchParams.Deserialize parses only the text the model's serializer
  produces. It is proved to invert the serializer. The WHATWG parser on
  arbitrary text (stray `%`, `+` as space, unpaired surrogates) is not
  modelled.
- UrlSearchParams.Encode works on Dafny characters, which are Unicode
  scalar values. A lone UTF-16 surrogate, which a JavaScript string can
  hold and the serializer replaces by U+FFFD, cannot be expressed.
- FilmLibrary.Library.HandleSortChange requires a known sort option, as
  the `FilmSortOption` type does.
- FilmUtils.SortOptionOf / FilmUtils.ApplySort send every key other than
  `release-desc` and `rating-desc` to title order. In the source,
  `SORT_COMPARATORS` is an object literal, so a key naming an inherited
  `Object.prototype` member is found and `??` does not fall back. For
  `toString` or `constructor` the comparator returns a non-number, every
  pair compares as equal and the input order is kept. For `__proto__` the
  value is not callable and `sort` throws; `valueOf`, `hasOwnProperty` and
  the other members throw when called on two or more films. These keys
  are not modelled.
- FilmUtils.ApplySortCorrect and FilmUtils.ApplySortOrder therefore
  describe the sort for the three options and for keys that are not
  inherited `Object.prototype` property names.
- FilmUtils.CreateDefaultFilters models an override field as absent
  (`None`) or present with a value. A field present with the value
  `undefined` overrides the default with `undefined` in the source; no
  caller passes one, and the model cannot express it.
- GhibliApi.ApiCache.FetchJson takes the HTTP answer as a parameter that
  always arrives. A rejected `fetch` (network error, abort) or a failing
  `res.json()` propagates out of `fetchJson` and leaves the cache
  unchanged; these outcomes are not modelled.
- FilmUtils.PaginateFilms takes an integer page. A fractional `page`
  (which `slice` truncates) or a NaN `page` (which `Math.max` and
  `Math.min` pass through, so `slice` gives no films) is not modelled.
  The page size must be positive; a size of 0 makes the page count
  `Infinity` or NaN, which the model's integers cannot hold.
- Pagination.GetPages takes integer page numbers. Fractional numbers are
  not modelled.
- FavoriteButton.FavoritesCache.Load runs each load to completion. Only
  the explicit steps (BeginLoad, Settle, FinishLoad) show loads
  interleaving. Suppose a load is still waiting when `invalidateFavorites`
  runs. In the source, that load later writes the old request's result into
  `data`. The model's FinishLoad requires a resolved request in the cache,
  so it cannot express that write.
- FavoriteButton.Button.Toggle models the transition from the state it is
  called in. React's deferred state updates and the `isPending` flag are
  not modelled. A failed request's console message is left out.
