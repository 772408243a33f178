# Product catalogue store and feed synchronisation, in Dafny

This project models the core of a small Spring/Kotlin customer-service
backend that keeps a local catalogue of shop products:

- `ProductRepository` stores products in a `products` table keyed by
  `id`. It offers an upsert of title and handle, a paged listing newest
  first, a lookup by id, a case-insensitive title search and a delete.
- `PagedResult` is the page DTO; its `totalPages` is a ceiling division
  computed in 64-bit and cast to 32-bit.
- `ProductSyncService.syncProducts` is the hourly reconciliation. It
  fetches the shop's product feed and writes up to 50 products that carry
  an `id`, in feed order. It catches every exception at the end.

The table is a `map<Int64, Row>`. Each row holds the seven product
columns plus the hidden `created_on` timestamp that orders the listings.
`ProductRepository` is a class whose write methods update its `rows`
field. Each write method is specified by a pure function on the table
(`Upsert`, `Synced`, `Deleted`). The queries are functions of the table.
`syncProducts` is a method whose loop is proved against `Planned` and
`ApplySyncs`, the writes that the feed calls for.

Several behaviours are modelled explicitly:

- JVM arithmetic: `Long` wrap-around, the truncating `Int` cast and
  truncating division (module `Jvm`).
- Kotlin's `isBlank` and `trim`, with Kotlin's definition of whitespace
  (module `KotlinText`).
- PostgreSQL's `ILIKE` with `%`, `_` and the backslash escape
  (module `SqlLike`).

`ORDER BY created_on DESC` has no tie-breaker, so rows with equal
`created_on` may come back in any order, and each query may pick its own.
The queries therefore take the listing the database produced as a
parameter `order`. `IsCreatedOnOrder` constrains it to list every key
once, newest first, and `NewestFirstOrder` shows such a listing always
exists. Because every page of `findPage` is a separate query, two page
fetches may read two different listings of the same table. A row can then
show up on two pages while another row shows up on none; see "## Findings".
A listing that breaks ties by id (`IsTieBrokenOrder`) is one the queries
accept. It is the only listing of its table, so with it the pages never
overlap (`Repository.PagesDoNotOverlap`).

A failed write ends the sync batch. The exception thrown by the write
leaves the `forEach` and is caught around the whole run. The earlier
writes stay, and the entries after the failing one are not written
(`Sync.SyncProducts`).

## Model

| member | source | states |
|---|---|---|
| Jvm.WrapLong | src/main/kotlin/greg/respiroc/com/aicustomerservice/model/PagedResult.kt:11 | the result is the 64-bit value congruent to the input modulo 2^64, and equal to it when it is in range |
| Jvm.ToInt32 | src/main/kotlin/greg/respiroc/com/aicustomerservice/model/PagedResult.kt:11 | `Long.toInt()` keeps the value modulo 2^32, and keeps the value itself when it fits |
| Jvm.TruncDiv | src/main/kotlin/greg/respiroc/com/aicustomerservice/model/PagedResult.kt:11 | JVM division rounds toward zero: for a non-negative dividend the quotient q satisfies q*b <= a < q*b+b; for a negative one, q*b-b < a <= q*b |
| PagedResults.TotalPages | src/main/kotlin/greg/respiroc/com/aicustomerservice/model/PagedResult.kt:10-11 | a size of zero or less gives zero pages |
| PagedResults.TotalPagesIsCeiling | src/main/kotlin/greg/respiroc/com/aicustomerservice/model/PagedResult.kt:10-11 | for a positive size and a count that fits, totalPages is the least n with n*size >= totalElements |
| PagedResults.NoRowsNoPages | src/main/kotlin/greg/respiroc/com/aicustomerservice/model/PagedResult.kt:10-11 | an empty result has zero pages for a positive size (a size of zero or less gives zero pages by `TotalPages`) |
| PagedResults.TwentyFiveRowsMakeThreePages | src/main/kotlin/greg/respiroc/com/aicustomerservice/model/PagedResult.kt:10-11 | 25 rows at 10 per page make 3 pages |
| PagedResults.TotalPagesWrapsPastIntMax | src/main/kotlin/greg/respiroc/com/aicustomerservice/model/PagedResult.kt:11 | with size 1 and 2^31 rows, the `toInt()` cast wraps totalPages to Int.MIN_VALUE |
| KotlinText.SkipBlanks | src/main/kotlin/greg/respiroc/com/aicustomerservice/repository/ProductRepository.kt:89 | the forward scan of `trim` stops at the first non-whitespace character, having passed only whitespace |
| KotlinText.SkipBlanksBack | src/main/kotlin/greg/respiroc/com/aicustomerservice/repository/ProductRepository.kt:89 | the backward scan of `trim` stops just after the last non-whitespace character, never passing the forward scan, having passed only whitespace |
| KotlinText.IsBlank | src/main/kotlin/greg/respiroc/com/aicustomerservice/repository/ProductRepository.kt:79 | `isBlank`: the string is empty or holds only whitespace, where whitespace (`IsWhitespace`) is the set of characters that Kotlin's `Char.isWhitespace` accepts |
| KotlinText.Trim | src/main/kotlin/greg/respiroc/com/aicustomerservice/repository/ProductRepository.kt:79-89 | the trimmed string is empty exactly when the input is blank, and has no whitespace at either end |
| KotlinText.TrimIsInfix | src/main/kotlin/greg/respiroc/com/aicustomerservice/repository/ProductRepository.kt:89 | the trimmed string is a contiguous piece of the input with only whitespace around it |
| SqlLike.ILike | src/main/kotlin/greg/respiroc/com/aicustomerservice/repository/ProductRepository.kt:84 | ILIKE matching: `%` matches any run of characters, `_` any one character, a backslash makes the next character literal, and letters compare after folding case |
| SqlLike.Fold | src/main/kotlin/greg/respiroc/com/aicustomerservice/repository/ProductRepository.kt:84 | case folding maps A-Z to a-z and leaves every other character unchanged |
| SqlLike.PercentMatchesAll | src/main/kotlin/greg/respiroc/com/aicustomerservice/repository/ProductRepository.kt:84 | the pattern `%` matches every title |
| SqlLike.LiteralPrefix | src/main/kotlin/greg/respiroc/com/aicustomerservice/repository/ProductRepository.kt:84 | for a query free of wildcards, `q%` matches exactly the titles that start with q ignoring case |
| SqlLike.SearchPatternMeansContains | src/main/kotlin/greg/respiroc/com/aicustomerservice/repository/ProductRepository.kt:84-89 | for a query free of wildcards, `%q%` matches exactly the titles that contain q ignoring case |
| Repository.Upsert | src/main/kotlin/greg/respiroc/com/aicustomerservice/repository/ProductRepository.kt:11-17 | the key is present afterwards; it sets title and handle; an existing row keeps its other columns and created_on; a new row has null columns and created_on = now; every other row is unchanged |
| Repository.ProductRepository.UpsertProduct | src/main/kotlin/greg/respiroc/com/aicustomerservice/repository/ProductRepository.kt:19-21 | the table becomes `Upsert` of the old table |
| Repository.UpsertIsIdempotent | src/main/kotlin/greg/respiroc/com/aicustomerservice/repository/ProductRepository.kt:11-21 | repeating an upsert with the same values leaves the table as the first upsert left it, whatever the clock |
| Repository.FindAfterUpsert | src/main/kotlin/greg/respiroc/com/aicustomerservice/repository/ProductRepository.kt:11-21 | after an upsert, findById of that id returns its title and handle, and other ids answer as before |
| Repository.Synced | src/main/kotlin/greg/respiroc/com/aicustomerservice/service/ProductSyncService.kt:61 | the written id then reads back as the five text columns as written and the three timestamps as opaque values, taken to be the text written; an existing row keeps created_on; every other row is unchanged |
| Repository.ProductRepository.SyncProduct | src/main/kotlin/greg/respiroc/com/aicustomerservice/service/ProductSyncService.kt:61 | a write either fails and changes nothing, or succeeds and leaves `Synced` of the old table |
| Repository.Deleted | src/main/kotlin/greg/respiroc/com/aicustomerservice/repository/ProductRepository.kt:104-107 | the id is gone, every other row is unchanged, and deleting an absent id changes nothing |
| Repository.ProductRepository.Delete | src/main/kotlin/greg/respiroc/com/aicustomerservice/repository/ProductRepository.kt:104-107 | the table becomes `Deleted` of the old table |
| Repository.DeleteIsIdempotent | src/main/kotlin/greg/respiroc/com/aicustomerservice/repository/ProductRepository.kt:104-107 | deleting twice is the same as deleting once |
| Repository.FindAfterDelete | src/main/kotlin/greg/respiroc/com/aicustomerservice/repository/ProductRepository.kt:104-107 | after a delete, findById of that id is null and other ids answer as before |
| Repository.ToProduct | src/main/kotlin/greg/respiroc/com/aicustomerservice/repository/ProductRepository.kt:43-52 | the row mapper: the key as `id` and every column but created_on |
| Repository.FindById | src/main/kotlin/greg/respiroc/com/aicustomerservice/repository/ProductRepository.kt:61-76 | returns a product exactly when the id is stored, and then that row with its id |
| Repository.NewestFirstOrder | src/main/kotlin/greg/respiroc/com/aicustomerservice/repository/ProductRepository.kt:37 | every table has a listing that gives each key once, by created_on descending |
| Repository.ListingLength | src/main/kotlin/greg/respiroc/com/aicustomerservice/repository/ProductRepository.kt:30-37 | a listing has exactly as many entries as the table has rows, so COUNT(*) is its length |
| Repository.PageOffset | src/main/kotlin/greg/respiroc/com/aicustomerservice/repository/ProductRepository.kt:27 | the offset is page*size, computed in Long without overflow |
| Repository.Window | src/main/kotlin/greg/respiroc/com/aicustomerservice/repository/ProductRepository.kt:34-53 | LIMIT/OFFSET gives the rows at listing positions offset, offset+1, ..., at most size of them, and none past the end; they are newest first |
| Repository.SliceIsNewestFirst | src/main/kotlin/greg/respiroc/com/aicustomerservice/repository/ProductRepository.kt:37-38 | consecutive positions of the listing, read through the row mapper, are rows of the table in created_on descending order |
| Repository.FindPage | src/main/kotlin/greg/respiroc/com/aicustomerservice/repository/ProductRepository.kt:24-56 | size <= 0 becomes 10 and page < 0 becomes 0; totalElements is the row count; content is the run of the listing starting at page*size, at most size long, newest first |
| Repository.RowIsOnItsPage | src/main/kotlin/greg/respiroc/com/aicustomerservice/repository/ProductRepository.kt:24-56 | every slot of every page before totalPages holds the row at listing position page*size+j |
| Repository.TiedRowsCanRepeatAcrossPages | src/main/kotlin/greg/respiroc/com/aicustomerservice/repository/ProductRepository.kt:34-38 | two rows with equal created_on and pages of one row: both orders are valid listings, page 0 of one and page 1 of the other both show row 1, and the table has two pages, so row 2 is shown on neither |
| Repository.PagesDoNotOverlap | src/main/kotlin/greg/respiroc/com/aicustomerservice/repository/ProductRepository.kt:34-38 | when the listing breaks created_on ties by id, pages fetched by separate queries, each with its own listing, never show one row twice: equal entries are the same slot of the same page |
| Repository.TieBrokenOrder | src/main/kotlin/greg/respiroc/com/aicustomerservice/repository/ProductRepository.kt:37 | every table has a listing ordered by created_on descending and then id descending |
| Repository.TieBrokenOrderIsUnique | src/main/kotlin/greg/respiroc/com/aicustomerservice/repository/ProductRepository.kt:37 | a listing ordered by created_on descending and then id descending is fixed by the table: any two such listings are equal |
| Repository.SlotsOfOneListing | src/main/kotlin/greg/respiroc/com/aicustomerservice/repository/ProductRepository.kt:34-38 | within one listing, two slots of pages of one size show the same product only when they are the same slot of the same page |
| Repository.DistinctCreatedOnNeedsNoTieBreak | src/main/kotlin/greg/respiroc/com/aicustomerservice/repository/ProductRepository.kt:37 | when no two rows share a created_on, every created_on listing already breaks ties |
| Repository.MatchingIds | src/main/kotlin/greg/respiroc/com/aicustomerservice/repository/ProductRepository.kt:81-87 | the WHERE clause keeps every listed row whose title matches and nothing else, where a null title never matches (`TitleMatches`: `NULL ILIKE p` is not true); under a newest-first listing the matches are newest first |
| Repository.MatchPositions | src/main/kotlin/greg/respiroc/com/aicustomerservice/repository/ProductRepository.kt:81-87 | each match comes from a listing position, and the positions strictly increase, so the matches keep their listing order |
| Repository.MatchingIdsAreDistinct | src/main/kotlin/greg/respiroc/com/aicustomerservice/repository/ProductRepository.kt:81-87 | a listing that names each key once yields matches that name each key once |
| Repository.SearchPattern | src/main/kotlin/greg/respiroc/com/aicustomerservice/repository/ProductRepository.kt:89 | the ILIKE pattern is the trimmed query between two `%` |
| Repository.SearchByTitle | src/main/kotlin/greg/respiroc/com/aicustomerservice/repository/ProductRepository.kt:78-102 | a null or blank query gives an empty list; otherwise a negative limit is an error; else at most limit matching rows, each row at most once, newest first, and a matching row left out means the list is already limit rows no older than it |
| Repository.SearchFindsTitlesContainingQuery | src/main/kotlin/greg/respiroc/com/aicustomerservice/repository/ProductRepository.kt:78-102 | for a query free of wildcards, every result's title contains the trimmed query ignoring case, and every such row is returned unless the limit is reached |
| Sync.Get | src/main/kotlin/greg/respiroc/com/aicustomerservice/service/ProductSyncService.kt:43-60 | `get(name)` is non-null exactly on an object node that has the field |
| Sync.ProductsArray | src/main/kotlin/greg/respiroc/com/aicustomerservice/service/ProductSyncService.kt:43-47 | the products are found exactly when the root is present and its `products` field is an array |
| Sync.WithId | src/main/kotlin/greg/respiroc/com/aicustomerservice/service/ProductSyncService.kt:50-52 | every kept entry has an `id` (`HasId`: the entry is an object with an `id` field, which may hold JSON null, since `get("id")` then returns a node and `?: return@forEach` does not skip it), and a feed whose entries all have one is kept whole |
| Sync.OptText | src/main/kotlin/greg/respiroc/com/aicustomerservice/service/ProductSyncService.kt:54-60 | an absent field is null; a present one is its text |
| Sync.Planned | src/main/kotlin/greg/respiroc/com/aicustomerservice/service/ProductSyncService.kt:31-62 | a run attempts min(50, k) writes for the first k entries with an id, in feed order |
| Sync.FirstRefusal | src/main/kotlin/greg/respiroc/com/aicustomerservice/service/ProductSyncService.kt:61-68 | the writes before the first failing one go through, and no later write is attempted |
| Sync.SyncProducts | src/main/kotlin/greg/respiroc/com/aicustomerservice/service/ProductSyncService.kt:33-69 | a failed fetch or a missing products array changes nothing; otherwise the table is the old table with the planned writes applied up to the first failure, and the run reports either all of them or the failure |
| Sync.UpsertEach | src/main/kotlin/greg/respiroc/com/aicustomerservice/service/ProductSyncService.kt:49-63 | the loop applies the planned writes in order up to the first failure |
| Sync.ToRecord | src/main/kotlin/greg/respiroc/com/aicustomerservice/service/ProductSyncService.kt:52-60 | the id is `asLong` of the id node; each of the seven other fields is null exactly when the entry lacks it, and otherwise `asText` of that field |
| Sync.ForEachBody | src/main/kotlin/greg/respiroc/com/aicustomerservice/service/ProductSyncService.kt:51-62 | past the cap or without an id, the entry changes nothing and is not counted; otherwise its record is written, and the count goes up by one, unless the write fails, which leaves the table as it was |
| Sync.ApplySyncs | src/main/kotlin/greg/respiroc/com/aicustomerservice/service/ProductSyncService.kt:50-62 | the table after a sequence of writes applied in order, the n-th stamping `clock(n)` on a row it inserts |
| Sync.WithIdPrefix | src/main/kotlin/greg/respiroc/com/aicustomerservice/service/ProductSyncService.kt:50-52 | the entries with an id among a prefix of the feed are a prefix of those of the whole feed |
| SyncProperties.IdPositions | src/main/kotlin/greg/respiroc/com/aicustomerservice/service/ProductSyncService.kt:50-52 | the entries written come from strictly increasing positions in the feed; every entry with an id is among them |
| SyncProperties.AtMostFiftyWrites | src/main/kotlin/greg/respiroc/com/aicustomerservice/service/ProductSyncService.kt:31-51 | a run writes at most 50 products, exactly 50 when the feed has that many with an id |
| SyncProperties.OneMalformedEntryOfTen | src/main/kotlin/greg/respiroc/com/aicustomerservice/service/ProductSyncService.kt:50-62 | ten entries, one without an id, make nine writes |
| SyncProperties.OnlyOneWithoutId | src/main/kotlin/greg/respiroc/com/aicustomerservice/service/ProductSyncService.kt:52 | skipping the single entry without an id leaves one fewer entry |
| SyncProperties.LastFor | src/main/kotlin/greg/respiroc/com/aicustomerservice/service/ProductSyncService.kt:61 | finds no write for a key exactly when none of the writes has that id; otherwise the write it finds has that id and no later write does |
| SyncProperties.SyncsResult | src/main/kotlin/greg/respiroc/com/aicustomerservice/service/ProductSyncService.kt:50-62 | after a batch, a key is present iff it was before or was written; a written key reads back as its last write (timestamps as opaque values, see "Left out"); other rows are unchanged; created_on is never changed |
| SyncProperties.SyncRunIsIdempotent | src/main/kotlin/greg/respiroc/com/aicustomerservice/service/ProductSyncService.kt:33-69 | running the same feed twice leaves the table as one run does |
| SyncProperties.PartialRunIsHealed | src/main/kotlin/greg/respiroc/com/aicustomerservice/service/ProductSyncService.kt:33-69 | after a run cut short by a failure, the next complete run makes every lookup answer as if it had been the only run |

## Left out

- `ProductController` and the HTTP layer are not part of this model.
- The WebClient request to the feed, its 16 MB buffer and JSON parsing
  are not modelled. The outcome of the request is a parameter: a
  failure, or a parsed tree (`Fetch`).
- Jackson's `asLong()` and `asText()` are left abstract
  (`Conversions`). JSON numbers are unbounded integers, so floating-point
  values are not modelled.
- Scheduling (`@Scheduled`, the hourly delay), logging and concurrent
  readers or writers are not modelled. Each write is atomic.
- `ProductRepository.syncProduct` is called by the service but does not
  appear in the repository class, so its SQL is not part of this model.
  `Synced` assumes it is an upsert of all seven columns that keeps
  `created_on` on conflict. Which writes fail is a parameter
  (`Store.refused`).
- Repository.Synced: the timestamps `created_at`, `published_at` and
  `updated_at` are opaque values. The model takes the feed's text to be
  the value the row mapper reads back; the database's parsing of that
  text and `getTimestamp(...).toLocalDateTime()` (time zone, precision)
  are not modelled. The same holds for SyncProperties.SyncsResult.
- The column default for `created_on` is not in these files. The time a
  new row is stamped with is a parameter (`now`, `Store.clock`).
- Repository.Upsert: the insert names only `id`, `title` and `handle`, so
  `vendor`, `product_type`, `published_at`, `created_at` and `updated_at`
  of a new row take the schema's defaults. The schema is not in these
  files; the model assumes those five default to null.
- The default arguments `page = 0`, `size = 10` of `findPage` and
  `limit = 50` of `searchByTitle` are not modelled: every call passes all
  its arguments. (`size = 10` coincides with the normalised size that a
  size of zero or less becomes.)
- Repository.FindPage: the count and the content are read as of one table
  state. The two separate statements may see different states under
  concurrent writes; the model does not capture that.
- Repository.FindPage requires at most Long.MAX_VALUE rows, so that
  `COUNT(*)` fits in a Long.
- Repository.SearchByTitle: ILIKE folds case with ASCII letters only;
  the database's locale-dependent folding of other letters is not
  modelled.
- Repository.SearchFindsTitlesContainingQuery: queries that contain `%`,
  `_` or a backslash keep their wildcard meaning; the substring reading
  is proved only for queries without them. The matcher `ILike` covers all
  queries.
- Storage errors on the query path, in `upsertProduct` and in `delete`
  are exceptions that reach the caller; the model has no error path for
  them. Storage errors are modelled only inside `syncProducts`, where the
  code catches them.
- `SELECT *` also returns `created_on`, which the row mapper drops. The
  product returned has the seven mapped columns.

## Findings

| source | as written | input that shows it | evidently intended | confidence | as-written member | corrected member |
|---|---|---|---|---|---|---|
| src/main/kotlin/greg/respiroc/com/aicustomerservice/repository/ProductRepository.kt:34-38 | each page is its own `ORDER BY created_on DESC LIMIT ? OFFSET ?` query, and rows with equal `created_on` have no defined order, so two page queries may order them differently | two rows with equal `created_on`, pages of one row: page 0 and page 1 may both show row 1, and row 2 is on no page | a total order, such as `ORDER BY created_on DESC, id DESC`, so that every page query reads the same listing | medium; not executed (it depends on the plans the database picks) | Repository.TiedRowsCanRepeatAcrossPages | Repository.PagesDoNotOverlap |
