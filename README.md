# Event repository listing, modelled in Dafny

This project models the event repository of an event-ticketing REST backend
(`internal/repository/event/event_repository_impl.go`). The repository does three
things:

- It looks up a single event by id. A missing row becomes one not-found error.
- It builds a listing query from an options object. Each optional filter that is in
  force (its pointer is set and its value is not zero or empty) adds one AND-composed
  WHERE condition. A non-empty sort request adds one ORDER BY clause, checked against
  an allow-list of fields and the directions `asc`/`desc`.
- It runs that query paginated. Page and size are normalised in place. It counts the
  matching rows, then fetches one page at offset `(page - 1) * size`.

The database is abstract. It is a table of events (`Storage.Database`) with WHERE
conditions, an ORDER BY clause given as text, OFFSET/LIMIT windows and a modelled
error outcome for each kind of statement. The database reads an ORDER BY clause as a
column and a direction split at the first space. It folds the column's case, as SQL
does for unquoted identifiers, and sorts with a stable insertion sort. Lookups and
counts are plain functions. `GetPaginated` is a method: it updates the options
object's `page` and `size` and the caller's event slice in place. The part after
normalisation, which sends the two statements, is the method `RunPaginated`.

Files:

- `wrappers.dfy`: `Option`, `Result`.
- `text.dfy`: ASCII lower-casing, substring containment, first index of a character.
- `ordering.dfy`: the lexicographic order on integer sequences, with totality and
  transitivity.
- `storage.dfy`: the events table, conditions, the count, find and first statements,
  ORDER BY parsing and sorting.
- `event_repository.dfy`: the options object, the filter and sort builder, `GetByID`,
  `GetPaginated`, and the lemmas about them.

Behaviour worth knowing:

- An empty sort adds no ORDER BY clause at all; rows come in table order.
- The default `created_at DESC` applies only to a non-empty sort that is invalid.
- The allow-list spells the identifier field `"ID"`. A request to sort on `id`
  therefore gets the default order (`LowerCaseIdFallsBack`).

## Model

| member | source | states |
|---|---|---|
| EventRepository.FilterConditions | internal/repository/event/event_repository_impl.go:65-82 | A row meets the built conditions exactly when it meets every filter in force. A nil, zero or empty field adds no condition. The list is empty exactly when no filter is in force. |
| EventRepository.Guarded | internal/repository/event/event_repository_impl.go:65-82 | A guarded filter contributes its condition when in force and nothing otherwise. |
| EventRepository.NoFiltersSelectEveryRow | internal/repository/event/event_repository_impl.go:62-82 | With every filter absent, the query selects the whole table in table order. |
| EventRepository.NameFilterIgnoresCase | internal/repository/event/event_repository_impl.go:68-70 | The name filter is a case-insensitive substring match: "EVE" selects an event named "Annual Event". |
| EventRepository.SortOrder | internal/repository/event/event_repository_impl.go:84-108 | No clause when the sort is empty. A clause different from the default exactly when the field is allowed and the lower-cased direction is asc or desc; that clause reads back as that field and direction. Otherwise the default. Every clause produced is an allowed field, a space and an allowed direction, or `created_at DESC`. |
| EventRepository.BuiltClauseIsNotDefault | internal/repository/event/event_repository_impl.go:102-106 | A clause built from an allowed direction never equals the default clause. |
| EventRepository.SortFieldIsColumn | internal/repository/event/event_repository_impl.go:86-94 | Every allow-listed field is one word naming a column of the events table once SQL folds its case ("ID" is the id column). |
| EventRepository.AllowedSortArranges | internal/repository/event/event_repository_impl.go:101-104 | An allowed field and direction make the database sort the rows on that column in that direction. |
| EventRepository.DefaultOrderParses | internal/repository/event/event_repository_impl.go:106 | The default clause reads as the `created_at` column with direction `DESC`. |
| EventRepository.DefaultOrderIsNewestFirst | internal/repository/event/event_repository_impl.go:106 | That column and direction are creation time, descending. |
| EventRepository.FallbackSortArranges | internal/repository/event/event_repository_impl.go:105-107 | A non-empty sort request off the allow-list sorts the rows by creation time, newest first. |
| EventRepository.SortOrderArranges | internal/repository/event/event_repository_impl.go:84-108 | Any clause the builder produces executes without error and keeps every selected row. With no clause the rows keep table order. An allowed request sorts on its column and direction. Anything else sorts by creation time, descending. |
| EventRepository.LowerCaseIdFallsBack | internal/repository/event/event_repository_impl.go:87 | Sorting on lower-case `id` yields the default clause, whatever the direction. |
| EventRepository.BuildPaginatedQuery | internal/repository/event/event_repository_impl.go:62-111 | The query's conditions select exactly the rows the options ask for. It has an ORDER BY clause exactly when the sort is non-empty, and that clause is one of the allowed texts. |
| EventRepository.GetByID | internal/repository/event/event_repository_impl.go:26-35 | Succeeds exactly when the lookup statement does not fail and a row with the id exists, and returns such a row. Any error whose chain holds the not-found error becomes exactly not-found. Every other error is returned unchanged. |
| EventRepository.UnknownIdFindsNothing | internal/repository/event/event_repository_impl.go:26-35 | An id no row has is not found by the lookup, and as a listing filter it selects no row. |
| EventRepository.Offset | internal/repository/event/event_repository_impl.go:54 | The offset of a page is non-negative, and adding one page size reaches page times size. |
| EventRepository.GetPaginated | internal/repository/event/event_repository_impl.go:37-60 | Page ≤ 0 becomes 1 and size ≤ 0 becomes 10; positive values are kept. Then, on the normalised options: a count is sent first, and if it fails the result is (0, error), no fetch is sent and the slice is unchanged. Otherwise the fetch is sent at offset (page-1)*size with limit size, and if it fails the result is (0, error) and the slice is unchanged. The call succeeds exactly when neither statement fails. On success the total is the number of matching rows and the slice holds the fetched page of the sorted listing. |
| EventRepository.RunPaginated | internal/repository/event/event_repository_impl.go:45-59 | A count is sent first. If it fails, the result is (0, error), no fetch is sent and the slice is unchanged. Otherwise the fetch is sent at offset (page-1)*size with limit size. If it fails, the result is (0, error) and the slice is unchanged. The call succeeds exactly when neither statement fails. On success the total is the number of matching rows, ignoring pagination, and the slice holds the fetched page: at most size rows, each a table row meeting the filters. |
| EventRepository.Fetch | internal/repository/event/event_repository_impl.go:54-55 | A failing fetch returns its fault. Otherwise the page is the window at offset (page-1)*size, at most size rows, of the sorted listing. Every row of it is a table row that the options select. |
| EventRepository.Listing | internal/repository/event/event_repository_impl.go:45-55 | The sort clause the builder produces applies to the matching rows without error. The listing holds every matching row exactly as often as the table does, in the order that clause gives. |
| EventRepository.FetchedPagesCover | internal/repository/event/event_repository_impl.go:54-55 | The page fetched for page n is exactly what page n adds to pages 1 to n-1 of the sorted listing. |
| EventRepository.SecondPageOfTwentyFive | internal/repository/event/event_repository_impl.go:49-55 | With 25 matching rows, page 2 of size 10 holds rows 11 to 20 of the sorted listing, and the count is 25. |
| EventRepository.PagesCover | internal/repository/event/event_repository_impl.go:54-55 | Pages 1 to n, each cut at its own offset, concatenate to the first n*size rows: no row is skipped or repeated. With `FetchedPagesCover`, pages fetched one after the other are a prefix of the sorted listing. |
| EventRepository.WrapGoInt | internal/repository/event/event_repository_impl.go:54 | The wrapped value is a 64-bit Go int congruent to the exact one modulo 2^64. |
| EventRepository.OffsetAsWritten | internal/repository/event/event_repository_impl.go:54 | The offset as Go computes it is a 64-bit int and equals the exact offset whenever the product fits. |
| EventRepository.OffsetWrapsToFirstPage | internal/repository/event/event_repository_impl.go:54-55 | For page 2^61+1 and size 8, the exact offset selects no rows, but the Go offset wraps to 0 and fetches the first page again. |
| Storage.StoreCount | internal/repository/event/event_repository_impl.go:49 | The count statement either fails with its fault or returns the number of rows meeting every condition. |
| Storage.StoreFind | internal/repository/event/event_repository_impl.go:55 | The fetch statement fails with its fault. Otherwise, when its ORDER BY clause applies, it returns the window at the offset, at most limit rows, of the matching rows in that order, and when the clause does not apply it fails with the database's error. Every row returned is a table row meeting every condition. Without ORDER BY the window is taken in table order. |
| Storage.IsNotFound | internal/repository/event/event_repository_impl.go:29 | An error counts as not-found exactly when the not-found error is the error itself or one of the causes it wraps. |
| Storage.Holds | internal/repository/event/event_repository_impl.go:65-81 | The id, venue, date and time conditions hold when the column equals the value. The name and description conditions hold exactly when the lower-cased text occurs in the lower-cased column. So a column equal to the text up to case matches, and a column shorter than the text never does. |
| Storage.StoreFirst | internal/repository/event/event_repository_impl.go:27 | The lookup statement fails with its fault, or returns a table row with the id when one exists and not-found otherwise. |
| Storage.Select | internal/repository/event/event_repository_impl.go:45-49 | The selected rows are exactly the table rows that meet every condition. |
| Storage.SelectCounts | internal/repository/event/event_repository_impl.go:45-51 | Each matching row appears in the selection as often as in the table, and a non-matching row not at all, so the count is the number of matching rows. |
| Storage.SelectWithoutConditions | internal/repository/event/event_repository_impl.go:63 | A query without conditions selects the whole table in order. |
| Storage.Window | internal/repository/event/event_repository_impl.go:55 | OFFSET/LIMIT keeps at most limit rows, starting at the offset, and nothing when the offset is past the end. |
| Storage.ParseOrder | internal/repository/event/event_repository_impl.go:103-104 | A parsed clause is its column, one space and its direction, and the column has no space. |
| Storage.ParseOrderJoin | internal/repository/event/event_repository_impl.go:103 | Joining a one-word column and a direction with a space and parsing the result gives them back. |
| Storage.Descending | internal/repository/event/event_repository_impl.go:101 | A direction means ascending exactly when it lower-cases to asc, and descending exactly when it lower-cases to desc. |
| Storage.Arrange | internal/repository/event/event_repository_impl.go:104-106 | Applying an ORDER BY clause keeps exactly the same rows; no clause leaves them as they are. |
| Storage.SortBySorted | internal/repository/event/event_repository_impl.go:104 | Sorting on a column yields a permutation of the rows ordered on that column in the asked direction. |
| Text.Lower | internal/repository/event/event_repository_impl.go:69 | Lower-casing keeps the length and leaves no upper-case letter. It maps each upper-case letter to its lower-case form and keeps every other character. |

## Findings

| source | as written | input that shows it | evidently intended | confidence | as-written member | corrected member |
|---|---|---|---|---|---|---|
| internal/repository/event/event_repository_impl.go:54 | `offset := (opts.Page - 1) * opts.Size` is computed in Go's 64-bit `int` and wraps on overflow | page = 2305843009213693953 (2^61+1), size = 8: the product 2^64 wraps to 0, so page 1 is returned again instead of an empty page | the offset is exactly (page-1)*size, so successive pages never repeat a row | not executed; medium | EventRepository.OffsetWrapsToFirstPage | EventRepository.PagesCover |

`RunPaginated` uses the exact offset (`EventRepository.Offset`).
`EventRepository.OffsetAsWritten` keeps the Go arithmetic for comparison.

## Left out

- Real SQL and GORM semantics are abstract. A query is a list of condition values
  plus an optional ORDER BY text. The database model reads only the one-column
  "column direction" shape the builder can produce.
- `%` and `_` inside a name or description filter are SQL wildcards in the real
  system. Here the filter text is matched as a plain substring.
- Lower-casing is ASCII only. Go's `strings.ToLower` and SQL `LOWER` also fold
  non-ASCII letters.
- `DATE(date)` and `?::time` are modelled as equality on already-extracted date and
  time values. Text that denotes the same time differently, such as `9:00` and
  `09:00:00`, is not equated.
- SQL leaves the order of rows with equal sort keys, and of rows without an ORDER BY,
  unspecified. The model keeps table order in both cases. Text columns sort by
  character code, not by a database collation.
- The count and the fetch are two statements. Their consistency under concurrent
  inserts is not modelled.
- EventRepository.RunPaginated: when the fetch fails, the model leaves the caller's
  slice unchanged. A driver that fails while scanning rows may have filled it
  partly.
- Ids are `nat` and the returned total is `int`. The 64-bit bounds of Go's `uint`
  and `int64` are not modelled; only the offset's overflow is (see Findings).
- Database connection loss, timeouts and other I/O outcomes are not computed. Each is
  an error value carried by `Storage.Database` for the count and the fetch/lookup
  statements.
- `NewEventRepository` and the `Log` field are wiring with no behaviour.
- The generic repository's create, update and delete operations
  (`internal/repository`) are not part of this model; their source is not included.
- HTTP handlers, configuration, bootstrap, the payment-gateway client, the user
  service interface, the user converter and the ticket request/response types are
  not part of this model. They are transport, wiring or plain data declarations.
