# Product catalogue: paginated reads and the infinite table

This project models the offset/limit pagination of a product catalogue and
proves properties of it. The model has two sides.

The server side has three read-only query procedures (`healthCheck`,
`getAllProducts`, `getLatestProductStats`). A table is a sequence of rows in
storage order. `ORDER BY` is a sort by an integer key (`Query.OrderBy`).
`LIMIT l OFFSET o` is a window of that order (`Query.LimitOffset`). Each
procedure is a pure function of its table and its input.

The client side is the infinite products table. It asks for pages of 50
rows, and its `getNextPageParam` rule turns the loaded pages into the next
request. It shows the pages concatenated in fetch order. It renders a virtual
row only when its index is below the loaded count. Every time the sentinel
after the last row becomes visible, the table fetches the next page. The
model describes the state after `m` such fetches (`ProductsTable.PagesAfter`)
and gives the loading loop as a method (`ProductsTable.LoadAllPages`).

Modules, one file each:

- `Wrappers` (`wrappers.dfy`): `Option`, for `undefined`/`null` and `??`.
- `Query` (`query.dfy`): ordering and the limit/offset window, generic over the row type and the key.
- `Router` (`router.dfy`): the server procedures of `apps/server/src/routers/index.ts`.
- `ProductsTable` (`products_table.dfy`): the client logic of `apps/web/src/app/_components/_components/productsTable.tsx`.

Places where the code behaves differently from what its names suggest:

- A short page is usually taken to be the last one. This code keeps asking for pages until a page comes back **empty**. Loading `n` rows takes ⌈n/50⌉ + 1 fetches, and the last fetch returns nothing. For 120 rows the fetches return 50, 50, 20 and 0 rows (`ProductsTable.OneHundredTwentyRows`). The model follows the code.
- `getLatestProductStats` sorts by `created_at` in ascending order and takes one row. It therefore returns the **earliest** snapshot, not the latest. The model follows the code; see "Findings".
- The input schema of `getAllProducts` accepts any number for `limit` and `offset`. Nothing in the code rejects negative or fractional input. The model takes both as naturals; see "Left out".
- The table hands its page parameter `{limit: 50, offset}` to the RPC client. If that client sends a page parameter as a `cursor` key, the input schema drops it, so every request after the first would ask for the first page again. The main model assumes the offset reaches the server. A second model shows what happens if it does not; see "Findings".

## Model

| member | source | states |
|---|---|---|
| `Query.OrderBy` | apps/server/src/routers/index.ts:21 | `orderBy(key)` returns the table's rows in ascending key order, as a rearrangement of exactly the table's rows |
| `Query.OrderByStrict` | apps/server/src/routers/index.ts:21 | when no two rows share a key, the ordered rows have strictly ascending keys |
| `Query.SortedPermutationUnique` | apps/server/src/routers/index.ts:21 | a strictly sorted sequence is the only sorted rearrangement of its rows, so the order does not depend on how rows are stored |
| `Query.LimitOffset` | apps/server/src/routers/index.ts:22-23 | `LIMIT l OFFSET o` returns at most `l` rows; row `i` of the result is row `o + i` of the input; it stops short of `l` rows only at the end of the input |
| `Query.LimitOffsetKeepsOrder` | apps/server/src/routers/index.ts:21-23 | a limit/offset window of rows sorted by a key is sorted by that key |
| `Query.LimitOffsetKeepsStrictOrder` | apps/server/src/routers/index.ts:21-23 | a limit/offset window of strictly sorted rows is strictly sorted |
| `Query.LimitOffsetRows` | apps/server/src/routers/index.ts:22-23 | a window holds only rows of its input, none more often than the input does |
| `Router.HealthCheck` | apps/server/src/routers/index.ts:7-9 | the health check always answers `"OK"` |
| `Router.IdOrdered` | apps/server/src/routers/index.ts:18-21 | the table read with `orderBy(products.id)` holds exactly the table's rows, in ascending id order |
| `Router.ParseProductsInput` | apps/server/src/routers/index.ts:11-15 | the input schema keeps the declared `limit` and `offset` as sent and drops any other key, such as `cursor` |
| `Router.SelectPage` | apps/server/src/routers/index.ts:22-23 | over the id-ordered rows: at most `limit` rows (20 when absent), starting at `offset` (0 when absent), consecutive, stopping short only at the end |
| `Router.GetAllProducts` | apps/server/src/routers/index.ts:17-25 | `getAllProducts` returns the id-ordered table from `min(offset, n)` to `min(offset + limit, n)`: at most `limit` rows, and none when `offset ≥ n` |
| `Router.GetAllProductsDefaults` | apps/server/src/routers/index.ts:22-23 | a call with neither field returns the first 20 rows by id, the same as `{limit: 20, offset: 0}` |
| `Router.PageIsSortedRun` | apps/server/src/routers/index.ts:18-23 | every page is in ascending id order and holds only rows of the table |
| `Router.PageIdsStrictlyIncrease` | apps/server/src/routers/index.ts:21 | when `id` is a primary key, every page lists strictly increasing ids |
| `Router.GetAllProductsIgnoresStorageOrder` | apps/server/src/routers/index.ts:17-25 | the read is deterministic: two tables with the same rows (in any storage order, unique ids) give the same page for the same input |
| `Router.FirstBy` | apps/server/src/routers/index.ts:28-32 | `ORDER BY key LIMIT 1` yields nothing exactly for an empty table, and otherwise a row of the table whose key is least |
| `Router.GetLatestProductStats` | apps/server/src/routers/index.ts:27-37 | `{stats: null}` exactly when there are no stats rows; otherwise a stats row with the least `created_at` |
| `Router.LatestStatsIsEarliest` | apps/server/src/routers/index.ts:31-32 | of two snapshots with `created_at` t1 < t2, the procedure as written answers the one at t1, in either storage order |
| `Router.GetNewestProductStats` | apps/server/src/routers/index.ts:27-37 | corrected procedure: `{stats: null}` exactly for no rows; otherwise a stats row with the greatest `created_at` |
| `Router.NewestStatsIsLatest` | apps/server/src/routers/index.ts:27-37 | of two snapshots with t1 < t2, the corrected procedure answers the one at t2, in either storage order |
| `ProductsTable.RequestAt` | apps/web/src/app/_components/_components/productsTable.tsx:26-31 | every request asks for 50 rows; only the first request leaves `offset` out |
| `ProductsTable.GetNextPageParam` | apps/web/src/app/_components/_components/productsTable.tsx:29-32 | a next request exists exactly when the last page is non-empty, so a short page still yields one; it asks for 50 rows at the offset equal to the summed lengths of all loaded pages |
| `ProductsTable.FlattenLength` | apps/web/src/app/_components/_components/productsTable.tsx:30 | `Flatten` (`pages.flat()`) yields as many rows as the pages hold together |
| `ProductsTable.FlattenAt` | apps/web/src/app/_components/_components/productsTable.tsx:36 | `Flatten` keeps fetch order: row `j` of page `i` appears at position (rows of pages before `i`) + `j` |
| `ProductsTable.FlattenAppend` | apps/web/src/app/_components/_components/productsTable.tsx:36 | under `Flatten`, appending a page appends its rows to the displayed sequence |
| `ProductsTable.AllProducts` | apps/web/src/app/_components/_components/productsTable.tsx:36-39 | the displayed sequence is empty before the first page; otherwise its length, the virtualizer's `count`, is the summed page lengths |
| `ProductsTable.VirtualCount` | apps/web/src/app/_components/_components/productsTable.tsx:36-39 | the virtualizer's `count` is 0 before data arrives, and exactly the virtual indices below it render a product |
| `ProductsTable.RowAt` | apps/web/src/app/_components/_components/productsTable.tsx:116-117 | a virtual row renders nothing exactly when its index is at or past the loaded count, and otherwise the product at that index |
| `ProductsTable.FetchNextPageAppends` | apps/web/src/app/_components/_components/productsTable.tsx:29-32 | one `FetchNextPage` (a `fetchNextPage` call) keeps the loaded pages in place as a prefix; it adds none exactly when the last page is empty |
| `ProductsTable.FetchBudgetIsCeiling` | apps/web/src/app/_components/_components/productsTable.tsx:29-32 | the number of fetches that load `n` rows is ⌈n/50⌉ + 1 |
| `ProductsTable.BudgetBounds` | apps/web/src/app/_components/_components/productsTable.tsx:31 | fetch `m` is within the budget exactly when rows remain after `m - 1` pages of 50 |
| `ProductsTable.InitialLoad` | apps/web/src/app/_components/_components/productsTable.tsx:26-27 | the first fetch, without an offset, loads the first min(50, n) rows |
| `ProductsTable.LoadedIsPrefix` | apps/web/src/app/_components/_components/productsTable.tsx:29-36 | after `m` fetches (`PagesAfter(store, m)`) the displayed rows are exactly the first min(50·m, n) rows of the store, with no gaps or duplicates; min(m, ⌈n/50⌉ + 1) pages are held; the last page is empty exactly once all rows are loaded |
| `ProductsTable.CursorAfter` | apps/web/src/app/_components/_components/productsTable.tsx:29-32 | while a cursor exists after `m` fetches, it asks for 50 rows at offset min(50·m, n), the next fetch appends its answer, and the budget is not spent; once no cursor exists, the budget is spent |
| `ProductsTable.FetchesPastBudget` | apps/web/src/app/_components/_components/productsTable.tsx:29-32 | fetches triggered after the budget change nothing |
| `ProductsTable.LoadingCompletes` | apps/web/src/app/_components/_components/productsTable.tsx:29-36 | after ⌈n/50⌉ + 1 fetches the whole store is displayed, the last page is empty, and more fetches change nothing |
| `ProductsTable.PagesAnswerRequests` | apps/web/src/app/_components/_components/productsTable.tsx:26-32 | within the budget, page `i` is the server's answer to request `i`, and every page except the last is non-empty |
| `ProductsTable.RenderedRowIsStoreRow` | apps/web/src/app/_components/_components/productsTable.tsx:115-117 | after `m` fetches, virtual row `i` renders product `i` of the id-ordered store when `i` is below min(50·m, n), and nothing otherwise |
| `ProductsTable.LoadedFromTable` | apps/web/src/app/_components/_components/productsTable.tsx:29-36 | against the table read in id order with `id` a primary key: displayed ids strictly increase; within the budget, after `m` fetches there are `m` pages and page `i` is `getAllProducts`' answer to request `i`; in the end every row of the table is shown |
| `ProductsTable.OneHundredTwentyRows` | apps/web/src/app/_components/_components/productsTable.tsx:29-32 | with 120 rows the displayed counts are 50, 100 and 120; the fourth fetch returns nothing; loading then stops |
| `ProductsTable.SentRequest` | apps/web/src/app/_components/_components/productsTable.tsx:26-31 | if the page parameter travels as a `cursor` key of the base input `{limit: 50}`, the server sees the base input, whatever the parameter |
| `ProductsTable.DroppedCursorRepeatsFirstPage` | apps/web/src/app/_components/_components/productsTable.tsx:26-32 | with the cursor dropped and a non-empty table, `m` fetches leave `m` pages, each a copy of the first page |
| `ProductsTable.DroppedCursorNeverStops` | apps/web/src/app/_components/_components/productsTable.tsx:29-32 | with the cursor dropped and a non-empty table, no page is ever empty, so every fetch adds a page and loading never stops |
| `ProductsTable.DroppedCursorShowsDuplicates` | apps/web/src/app/_components/_components/productsTable.tsx:36 | with 60 products and the cursor dropped, two fetches show 100 rows (the first 50 twice); the main model shows 60 |
| `ProductsTable.LoadAllPages` | apps/web/src/app/_components/_components/productsTable.tsx:45-55 | the loading loop fetches while the cursor rule yields a request; it makes ⌈n/50⌉ + 1 fetches; fetch `i` answers `RequestAt(i, n)`; every page but the last is non-empty and the last is empty; together the pages are the whole store |

## Left out

- Rendering, column headers, the `"N/A"` fallbacks, `toFixed` on floating-point columns and locale-dependent date formatting (productsTable.tsx:59-196) are not modelled. They only present values.
- The virtualizer's visible-range computation lives in `@tanstack/react-virtual`, which is not part of this model. Only its `count` (`ProductsTable.VirtualCount`) and the guard on the indices it yields are modelled.
- The `isFetchingNextPage` duplicate-fetch guard and page storage live inside the query library, which is not part of this model. Fetches are modelled strictly one after another, so nothing is claimed about overlapping requests.
- The `IntersectionObserver` wiring and effect cleanup are browser plumbing. `ProductsTable.LoadAllPages` stands for the sentinel becoming visible after every page.
- The swallowed fetch error (`.catch(() => {})`) is not modelled: every fetch succeeds.
- `ProductsTable.FetchNextPage`: models the query library doing nothing when `getNextPageParam` yields no request. That library is not part of this model.
- `ProductsTable.FetchNextPage`: assumes that the page parameter reaches `getAllProducts` as its `{limit, offset}` input. How the RPC client passes a page parameter to a procedure is not part of this model. If the client sends it as a `cursor` key, the schema drops it. Every request then reaches the server as `{limit: 50}`, every page repeats the first 50 rows and loading never ends, which is the opposite of `ProductsTable.LoadedIsPrefix`. `ProductsTable.FetchNextPageAsSent` models that case; see "Findings".
- The database driver, the schema validator and the RPC transport are reduced to pure functions over sequences. The table is fixed while a table loads; rows written between fetches are not modelled.
- `Router.SelectPage`: takes `limit` and `offset` as naturals. The input schema (index.ts:13-14) accepts any number, including negative and fractional ones, so non-negative integers are an assumption that the code does not enforce.
- `Router.PageIdsStrictlyIncrease`: assumes unique ids (`UniqueKeys`), since `id` serves as the primary key. The schema is not part of this model. Without that assumption only ascending order (`Router.PageIsSortedRun`) is proved.
- `Router.GetLatestProductStats`: states only that the answer has the least `created_at`. Which of several rows with equal `created_at` the database returns is unspecified, and it is not modelled.
- Products keep only `id`, `sku` and `name`. Stats rows keep only `id` and `created_at`, as an integer timestamp. No procedure reads the other columns.
- `apps/web/src/app/page.tsx` and `apps/web/src/app/_components/ProductsTableWrapper.tsx` are page composition and a dynamic import, with no logic. They are not part of this model.

## Findings

| source | as written | input that shows it | evidently intended | confidence | as-written member | corrected member |
|---|---|---|---|---|---|---|
| apps/server/src/routers/index.ts:31-32 | `getLatestProductStats` orders by `created_at` ascending and takes one row, so it returns the earliest snapshot | two stats rows with `created_at` t1 < t2: the procedure returns the t1 row | return the snapshot with the greatest `created_at` (descending order) | high; not executed | `Router.LatestStatsIsEarliest` (about `Router.GetLatestProductStats`) | `Router.GetNewestProductStats`, with `Router.NewestStatsIsLatest` |
| apps/web/src/app/_components/_components/productsTable.tsx:26-32 | the page parameter `{limit: 50, offset}` goes to the RPC client, whose infinite queries pass it as a `cursor` key; the input schema (apps/server/src/routers/index.ts:11-15) declares only `limit` and `offset`, drops `cursor`, and the server then answers every request as `{limit: 50}` | 60 products: the second fetch returns rows 1 to 50 again, the table shows 100 rows with every row of the first page twice, and since no page is ever empty loading never stops | the offset reaches the server, so pages follow one another and loading stops after ⌈n/50⌉ + 1 fetches (for instance, by reading the offset from a declared `cursor`) | plausible; depends on the RPC client's cursor convention, which is not part of this model; not executed | `ProductsTable.DroppedCursorRepeatsFirstPage` and `ProductsTable.DroppedCursorShowsDuplicates` (about `ProductsTable.FetchNextPageAsSent`) | `ProductsTable.FetchNextPage`, with `ProductsTable.LoadedIsPrefix` and `ProductsTable.LoadingCompletes` |
