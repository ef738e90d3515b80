# Restaurant data access, modelled in Dafny

This project models the restaurant data-access class of the back end
(`back/src/db/models/Restaurant.mjs`). That class gives the rest of the
application every way of reading and changing the restaurant collection:

- `create` stores a new restaurant;
- `findById`, `findByName` and `findAllByCountry` are lookups, and
  `countByCountry` counts;
- `findAll` lists every restaurant, after giving the ones that lack a bookmark
  counter a counter of 0;
- four paginated listings return `{ restaurants, lastPage, len, offset }`:
  `findAllPaging`, `findAllByCountryPaging`, `findAllByCuisinePaging`, and
  `findAllByQuery`, a composite query of case-insensitive patterns plus a
  price range;
- `bookmark`, `unbookmark` and `unbookmarkByList` move the bookmark counters.

The collection is a sequence of documents in storage order. Each document has
a store-assigned identity, its attributes, and a bookmark counter that older
documents may lack. The store keeps identities unique.

- `Records`: the document, the `$inc` step and the uniqueness invariant.
- `Text`: the case-insensitive substring matcher the composite query uses.
- `Filters`: the four filter shapes, what it means to match one, and the
  lookups built on them.
- `Ordering`: `sort({ _id: 1 })` as an insertion sort, and a document's rank in
  that order.
- `Paging`: one shared paginator, its contract as lemmas, and the four
  listings as instances of it.
- `Counter`: the whole-table effect of the counter updates and of the backfill,
  as functions.
- `Store`: the class `Collection`. Its field `rows` holds the documents. Its
  methods change `rows` in place and are proved to leave it equal to the
  `Counter` functions.

`Paging.Skipped(page, pageSize)` is `(page - 1) * pageSize`: the number of
matching documents skipped before a page; `Paging.PageContents` states a
document's rank as `Skipped(page, pageSize) + k`. `CountBefore(table, f, id)` is the
number of documents that match `f` and have a smaller id, so it is a document's
rank in the sorted listing.

## Model

| member | source | states |
|---|---|---|
| Records.Bump | back/src/db/models/Restaurant.mjs:184 | `$inc` keeps the id and every attribute; afterwards the counter is present and equals the old value (0 when absent) plus `delta` |
| Text.ContainsFoldIffOccurs | back/src/db/models/Restaurant.mjs:126-133 | the matcher accepts exactly when the pattern occurs, up to ASCII case, at some position of the field |
| Text.ContainsFoldOccurs | back/src/db/models/Restaurant.mjs:126-133 | soundness: when the matcher accepts, the pattern occurs somewhere in the field |
| Text.OccursAtContainsFold | back/src/db/models/Restaurant.mjs:126-133 | completeness: an occurrence at any position is found |
| Text.EmptyPatternMatchesAll | back/src/db/models/Restaurant.mjs:116-118 | the default empty pattern matches every string |
| Text.OccursInContext | back/src/db/models/Restaurant.mjs:126 | matching is unanchored: an occurrence survives any text added before or after |
| Text.ItalianMatchesItal | back/src/db/models/Restaurant.mjs:131 | the cuisine "Italian" matches the pattern "ital" |
| Filters.QueryMatchesMeaning | back/src/db/models/Restaurant.mjs:125-133 | a document matches the composite query iff all six patterns occur in their fields, up to case, and `minPrice >= query.minPrice` and `maxPrice <= query.maxPrice` |
| Filters.Select | back/src/db/models/Restaurant.mjs:50 | `find(filter)` returns exactly the stored documents that match, no more than are stored, and keeps ids distinct |
| Filters.SelectAllMatching | back/src/db/models/Restaurant.mjs:50 | a filter that every stored document satisfies returns the whole collection, in storage order |
| Filters.SelectEverything | back/src/db/models/Restaurant.mjs:88 | the `{}` filter returns the whole collection in storage order |
| Filters.Count | back/src/db/models/Restaurant.mjs:70 | a count never exceeds the number of stored documents |
| Filters.CountIsSelectLength | back/src/db/models/Restaurant.mjs:70-78 | `countDocuments(filter)` equals the number of documents `find(filter)` returns |
| Filters.CountEverything | back/src/db/models/Restaurant.mjs:84 | `countDocuments({})` is the size of the collection |
| Filters.FindById | back/src/db/models/Restaurant.mjs:44-47 | the result is absent iff no document has the id; a present result is a stored document with that id |
| Filters.FindByIdIsTheRecord | back/src/db/models/Restaurant.mjs:44-47 | with unique ids, `findById` of a stored document's id returns that very document |
| Filters.FindByIdAfterAppend | back/src/db/models/Restaurant.mjs:20-36 | after a document is appended, only the lookup of its own id changes, and only if that id was new |
| Filters.FindByName | back/src/db/models/Restaurant.mjs:39-42 | absent iff no document has that exact name; otherwise the first such document in storage order |
| Filters.FindAllByCountry | back/src/db/models/Restaurant.mjs:49-52 | a document is returned iff it is stored and its country is exactly `country` |
| Filters.CountByCountry | back/src/db/models/Restaurant.mjs:64-67 | the count equals the number of documents `findAllByCountry` returns |
| Ordering.SortById | back/src/db/models/Restaurant.mjs:75 | the sorted listing is a permutation of its input (same length, same multiset) |
| Ordering.SortAscending | back/src/db/models/Restaurant.mjs:75 | with distinct ids the sorted listing is strictly ascending by id |
| Ordering.CountBelowSort | back/src/db/models/Restaurant.mjs:75 | sorting does not change how many documents lie below an id |
| Ordering.RankInAscending | back/src/db/models/Restaurant.mjs:75-76 | in a strictly ascending listing the document at index `k` has exactly `k` documents with a smaller id |
| Paging.CeilDiv | back/src/db/models/Restaurant.mjs:71 | `Math.ceil(n / d)` is the least `q` with `n <= q * d` |
| Paging.LastPageZeroIffEmpty | back/src/db/models/Restaurant.mjs:71 | the ceiling is 0 exactly when the count is 0 |
| Paging.BeyondLastPage | back/src/db/models/Restaurant.mjs:71-72 | a page skips all matching documents iff it lies beyond the last page, and then its offset exceeds the count |
| Paging.Window | back/src/db/models/Restaurant.mjs:76-77 | `skip(s).limit(l)` has length `min(l, n - s)` (0 past the end), and its `k`-th element is element `s + k` of the input |
| Paging.Paginate | back/src/db/models/Restaurant.mjs:69-80 | a page holds at most `pageSize` documents, each stored and matching the filter |
| Paging.PageCount | back/src/db/models/Restaurant.mjs:70-78 | `len` is the number of documents the page's own filter selects |
| Paging.LastPageIsCeiling | back/src/db/models/Restaurant.mjs:71 | `lastPage` pages hold all `len` documents and one page fewer would not; `lastPage == 0` iff `len == 0` |
| Paging.PageOffset | back/src/db/models/Restaurant.mjs:72 | `offset == (page - 1) * pageSize + 1`, and it exceeds `len` on any page beyond the last |
| Paging.PageLength | back/src/db/models/Restaurant.mjs:74-78 | a page holds `min(pageSize, len - (page - 1) * pageSize)` documents, and none once the skip reaches `len` |
| Paging.EmptyPageIffBeyondLast | back/src/db/models/Restaurant.mjs:71-78 | a page is empty iff `page > lastPage` |
| Paging.PageContents | back/src/db/models/Restaurant.mjs:74-78 | with unique ids a page is strictly ascending by id, and its `k`-th document has exactly `(page - 1) * pageSize + k` matching documents with a smaller id |
| Paging.PageMembers | back/src/db/models/Restaurant.mjs:74-77 | every document of a window of the sorted selection is stored and matches the filter |
| Paging.PageOrder | back/src/db/models/Restaurant.mjs:75-77 | a window of the rank-ordered selection is ascending, and its ranks run on from the skip |
| Paging.SortedSelection | back/src/db/models/Restaurant.mjs:74-75 | with unique ids the sorted selection is ascending, and its `j`-th document has rank `j` |
| Paging.FindAllPaging | back/src/db/models/Restaurant.mjs:83-95 | `len` is the size of the collection, and every listed document is stored |
| Paging.FindAllByCountryPaging | back/src/db/models/Restaurant.mjs:69-81 | `len` equals `countByCountry`, and every listed document has exactly that country |
| Paging.FindAllByCuisinePaging | back/src/db/models/Restaurant.mjs:97-111 | `len` counts the documents with exactly that cuisine, and every listed document has it |
| Paging.WithDefaults | back/src/db/models/Restaurant.mjs:116-123 | each of the six patterns is the supplied value or "" when omitted, `minPrice` is the supplied value or 0, and `maxPrice` is the supplied value or `Number.MAX_SAFE_INTEGER` |
| Paging.FindAllByQuery | back/src/db/models/Restaurant.mjs:113-155 | `len` counts the documents the defaulted composite query selects, and every listed document satisfies that query |
| Paging.DefaultQueryMatches | back/src/db/models/Restaurant.mjs:116-133 | a document passes the query with every argument omitted iff its prices lie within `0 .. MAX_SAFE_INTEGER`: the omitted bounds still filter |
| Paging.DefaultQuerySelectsAll | back/src/db/models/Restaurant.mjs:116-148 | when every document's prices lie within `0 .. MAX_SAFE_INTEGER`, the composite query with every argument omitted selects the whole collection, in order |
| Paging.DefaultQueryIsFindAll | back/src/db/models/Restaurant.mjs:113-155 | when every document's prices lie within `0 .. MAX_SAFE_INTEGER`, `findAllByQuery` with every argument omitted returns the same result as `findAllPaging` |
| Paging.PriceRangeExample | back/src/db/models/Restaurant.mjs:129-130 | any document with prices 20..50 passes the range 10..60 and fails a minimum of 25 |
| Paging.DefaultQueryDropsNegativePrice | back/src/db/models/Restaurant.mjs:119-130 | a document with a negative `minPrice` is not selected, nor counted, by the query with every argument omitted: the omitted filter is not a no-op |
| Counter.Incremented | back/src/db/models/Restaurant.mjs:182-194 | `$inc` on one id moves only that document's counter by `delta`; every other document and field is unchanged |
| Counter.UnknownIdUnchanged | back/src/db/models/Restaurant.mjs:183-191 | updating an id no document has leaves the collection unchanged |
| Counter.BookmarkThenUnbookmark | back/src/db/models/Restaurant.mjs:182-207 | `bookmark` then `unbookmark` restores every counter's value, and the collection itself when the counter was present |
| Counter.UnbookmarkBelowZero | back/src/db/models/Restaurant.mjs:198 | `unbookmark` has no floor: a counter at 0 goes to -1 |
| Counter.DecrementListed | back/src/db/models/Restaurant.mjs:209-214 | `$in` plus `$inc: -1` takes exactly one off each listed document and leaves every other document unchanged |
| Counter.UnbookmarkEach | back/src/db/models/Restaurant.mjs:196-207 | repeated `unbookmark` keeps every document's id and attributes |
| Counter.BulkIsEachOnce | back/src/db/models/Restaurant.mjs:209-214 | for a list without repeats, the bulk update equals one `unbookmark` per listed id |
| Counter.RepeatedIdOnce | back/src/db/models/Restaurant.mjs:210 | listing an id again does not decrement it again |
| Counter.EachTwiceTakesTwo | back/src/db/models/Restaurant.mjs:210 | two `unbookmark`s of one id take off two, while a bulk list that names it twice takes off one |
| Counter.Backfill | back/src/db/models/Restaurant.mjs:54-62 | every document ends with a counter, each counter keeps its value (absent reads as 0), and documents that had one are untouched |
| Counter.BackfillIdempotent | back/src/db/models/Restaurant.mjs:56-59 | a second backfill changes nothing |
| Store.FreshId | back/src/db/models/Restaurant.mjs:20 | the id given to a new document is above every stored id |
| Store.Collection.Create | back/src/db/models/Restaurant.mjs:4-37 | appends a document with the given attributes and a new id, keeps ids unique, makes it findable by its id, and changes no other lookup |
| Store.Collection.Bookmark | back/src/db/models/Restaurant.mjs:182-194 | the collection becomes `Incremented(old, id, 1)`; the result is absent iff the id is unknown, otherwise the updated document with count + 1 |
| Store.Collection.Unbookmark | back/src/db/models/Restaurant.mjs:196-207 | the collection becomes `Incremented(old, id, -1)`; the result is absent iff the id is unknown, otherwise the updated document with count - 1 |
| Store.Collection.IncrementOne | back/src/db/models/Restaurant.mjs:187-191 | `findOneAndUpdate` with `returnOriginal: false` returns the document after the update, or nothing for an unknown id |
| Store.Collection.UnbookmarkByList | back/src/db/models/Restaurant.mjs:209-217 | the collection becomes `DecrementListed(old, bookmarkList)`, ids stay unique, and the status is "ok" |
| Store.Collection.FindAll | back/src/db/models/Restaurant.mjs:54-62 | the collection becomes `Backfill(old)`, and the result is the whole backfilled collection |

## Left out

- `findRestaurantsNearById` (lines 157-180) is not part of this model. It is a `$geoNear` aggregation: spherical distances in floating point, a 30 km radius and a kilometre multiplier. Longitude and latitude are stored but never read by the model.
- Transactions: the `session` that `bookmark`, `unbookmark` and `unbookmarkByList` take is not modelled. Each method is one atomic step on the collection, and there is no rollback.
- Concurrency: the paging operations make two separate round trips, one to count and one to fetch. The model evaluates both on the same collection, so it does not capture a write landing between them.
- Store failures (unreachable database, validation errors) are not modelled. Every operation succeeds.
- Regular expressions: each `$regex` pattern is treated as a literal string, and `$options: "i"` as ASCII case folding. Metacharacters and Unicode case rules are not modelled.
- A document is assumed to have every attribute. Mongo's treatment of a missing field in a filter is not modelled.
- `parseInt` on the price bounds is not modelled. The bounds are taken as integers already. `Number.MAX_SAFE_INTEGER` is the constant `Filters.MaxSafeInteger`.
- Paging: `page` and `pageSize` must be at least 1. The code has no guard. With `pageSize` 0, `limit(0)` means "no limit" and `Math.ceil(len / 0)` is not an integer.
- Store.Collection.Create: Mongoose schema defaults and validation are not modelled, so the new document's counter is left absent. The store's id is modelled as one more than the largest stored id, not as an ObjectId.
- Store.Collection.Bookmark: for an unknown id the code returns `null`. The model returns `None` and leaves the collection unchanged. It never reports a not-found failure.
- Store.Collection.FindAll: the model backfills every document that lacks a counter and then returns the whole collection. In the code, the chain `find({}).update(...)` goes through Mongoose's deprecated `Query.update`. Depending on the Mongoose version, that call may update a single document and may resolve to a write result rather than the list. The model does not capture either of those outcomes.
