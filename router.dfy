/**
 * The server's query procedures: `healthCheck`, `getAllProducts` and
 * `getLatestProductStats`. Each is a single read of a table, so each is a
 * function of the table's rows (in storage order) and the request input.
 */
module Router {
  import opened Wrappers
  import opened Query

  /**
   * A product row. `id` is the integer primary key; `sku` and `name` stand
   * for the descriptive columns, which no procedure inspects.
   */
  datatype Product = Product(id: int, sku: string, name: string)

  /** A statistics snapshot row; `created_at` is the only column a query reads. */
  datatype ProductStats = ProductStats(id: int, createdAt: int)

  /**
   * The input of `getAllProducts`: an object whose `limit` and `offset` may
   * each be absent. Both are naturals here (see README, "Left out").
   */
  datatype ProductsInput = ProductsInput(limit: Option<nat>, offset: Option<nat>)

  /**
   * An input object as it arrives on the wire, before validation: besides
   * the declared `limit` and `offset` it may carry a `cursor` key, which is
   * how the RPC client hands an infinite query's page parameter to a
   * procedure.
   */
  datatype RawProductsInput = RawProductsInput(limit: Option<nat>, offset: Option<nat>, cursor: Option<ProductsInput>)

  /** The response of `getLatestProductStats`: `{ stats: row | null }`. */
  datatype StatsResponse = StatsResponse(stats: Option<ProductStats>)

  const DefaultLimit: nat := 20
  const DefaultOffset: nat := 0

  function Id(p: Product): int { p.id }
  function CreatedAt(s: ProductStats): int { s.createdAt }
  /** The key of `ORDER BY created_at DESC`. */
  function CreatedAtDescending(s: ProductStats): int { -s.createdAt }

  /** Liveness probe: always the literal "OK". */
  function HealthCheck(): (r: string)
    ensures r == "OK"
  {
    "OK"
  }

  /** The product table as the query sees it after `orderBy(products.id)`: all its rows, ascending by id. */
  function IdOrdered(table: seq<Product>): (store: seq<Product>)
    ensures SortedBy(store, Id)
    ensures multiset(store) == multiset(table)
    ensures |store| == |table|
  {
    OrderBy(table, Id)
  }

  /**
   * The input schema `z.object({ limit, offset })`: the declared keys pass
   * through, and a key it does not declare, such as `cursor`, is dropped.
   */
  function ParseProductsInput(raw: RawProductsInput): (input: ProductsInput)
    ensures input.limit == raw.limit && input.offset == raw.offset
  {
    ProductsInput(raw.limit, raw.offset)
  }

  function EffectiveLimit(input: ProductsInput): nat { input.limit.GetOr(DefaultLimit) }
  function EffectiveOffset(input: ProductsInput): nat { input.offset.GetOr(DefaultOffset) }

  /**
   * `.limit(input.limit ?? 20).offset(input.offset ?? 0)` over the
   * id-ordered rows `store`: `offset` rows skipped (0 when absent), then
   * rows taken until `limit` (20 when absent) are taken or `store` ends.
   */
  function SelectPage(store: seq<Product>, input: ProductsInput): (r: seq<Product>)
    ensures |r| <= input.limit.GetOr(20)
    ensures forall i :: 0 <= i < |r| ==>
      input.offset.GetOr(0) + i < |store| && r[i] == store[input.offset.GetOr(0) + i]
    ensures |r| == input.limit.GetOr(20) || input.offset.GetOr(0) + |r| >= |store|
  {
    LimitOffset(store, EffectiveLimit(input), EffectiveOffset(input))
  }

  /**
   * `getAllProducts`: one page of the product table read in ascending id
   * order. It is exactly the clipped slice of the id-ordered table, at most
   * `limit` rows, and nothing once `offset` is past its end.
   */
  function GetAllProducts(table: seq<Product>, input: ProductsInput): (page: seq<Product>)
    ensures var n, o, l := |table|, EffectiveOffset(input), EffectiveLimit(input);
      page == IdOrdered(table)[Min(o, n) .. Min(o + l, n)]
      && |page| <= l
      && (o >= n ==> page == [])
  {
    SelectPageIsSlice(IdOrdered(table), input);
    SelectPage(IdOrdered(table), input)
  }

  /** The page is exactly the clipped slice of the rows, empty past their end. */
  lemma SelectPageIsSlice(store: seq<Product>, input: ProductsInput)
    ensures var n, o, l := |store|, EffectiveOffset(input), EffectiveLimit(input);
      SelectPage(store, input) == store[Min(o, n) .. Min(o + l, n)]
      && (o >= n ==> SelectPage(store, input) == [])
  {
    LimitOffsetIsSlice(store, EffectiveLimit(input), EffectiveOffset(input));
  }

  /** A call with neither field returns the first 20 rows by id. */
  lemma GetAllProductsDefaults(table: seq<Product>)
    ensures GetAllProducts(table, ProductsInput(None, None)) == IdOrdered(table)[..Min(20, |table|)]
    ensures GetAllProducts(table, ProductsInput(None, None)) == GetAllProducts(table, ProductsInput(Some(20), Some(0)))
  {
  }

  /** Every page is in ascending id order and holds rows of the table, each at most as often as the table does. */
  lemma PageIsSortedRun(table: seq<Product>, input: ProductsInput)
    ensures SortedBy(GetAllProducts(table, input), Id)
    ensures multiset(GetAllProducts(table, input)) <= multiset(table)
  {
    LimitOffsetKeepsOrder(IdOrdered(table), EffectiveLimit(input), EffectiveOffset(input), Id);
    LimitOffsetRows(IdOrdered(table), EffectiveLimit(input), EffectiveOffset(input));
  }

  /** With `id` a primary key, every page lists strictly increasing ids. */
  lemma PageIdsStrictlyIncrease(table: seq<Product>, input: ProductsInput)
    requires UniqueKeys(table, Id)
    ensures StrictlySortedBy(GetAllProducts(table, input), Id)
  {
    OrderByStrict(table, Id);
    LimitOffsetKeepsStrictOrder(IdOrdered(table), EffectiveLimit(input), EffectiveOffset(input), Id);
  }

  /**
   * Pagination is stable: the page depends on the rows of the table and not
   * on the order the rows are stored in.
   */
  lemma GetAllProductsIgnoresStorageOrder(t1: seq<Product>, t2: seq<Product>, input: ProductsInput)
    requires UniqueKeys(t1, Id)
    requires multiset(t1) == multiset(t2)
    ensures GetAllProducts(t1, input) == GetAllProducts(t2, input)
  {
    OrderByStrict(t1, Id);
    SortedPermutationUnique(IdOrdered(t1), IdOrdered(t2), Id);
  }

  /** The first row of a sort of `table` by `key`, if any: `ORDER BY key LIMIT 1`. */
  function FirstBy(table: seq<ProductStats>, key: ProductStats -> int): (r: Option<ProductStats>)
    ensures r.None? <==> table == []
    ensures r.Some? ==> r.value in table && forall s :: s in table ==> key(r.value) <= key(s)
  {
    var rows := LimitOffset(OrderBy(table, key), 1, 0);
    if rows == [] then None
    else
      var sorted := OrderBy(table, key);
      SortedHeadIsLeast(sorted, key);
      assert rows[0] == sorted[0] && sorted[0] in multiset(table);
      assert forall s :: s in table ==> s in multiset(sorted);
      Some(rows[0])
  }

  /**
   * `getLatestProductStats` as written: the stats rows ordered by
   * `created_at` ASCENDING, the first one, or null. It answers the EARLIEST
   * snapshot (see README, "Findings").
   */
  function GetLatestProductStats(statsTable: seq<ProductStats>): (r: StatsResponse)
    ensures r.stats.None? <==> statsTable == []
    ensures r.stats.Some? ==> r.stats.value in statsTable
    ensures r.stats.Some? ==> forall s :: s in statsTable ==> r.stats.value.createdAt <= s.createdAt
  {
    StatsResponse(FirstBy(statsTable, CreatedAt))
  }

  /** Of two snapshots, the procedure as written answers the older one, in either storage order. */
  lemma {:induction false} LatestStatsIsEarliest(older: ProductStats, newer: ProductStats)
    requires older.createdAt < newer.createdAt
    ensures GetLatestProductStats([older, newer]).stats == Some(older)
    ensures GetLatestProductStats([newer, older]).stats == Some(older)
  {
    assert newer in [older, newer] && newer in [newer, older];
  }

  /**
   * `getLatestProductStats` as evidently intended: ordered by `created_at`
   * descending, so the answer is the snapshot with the greatest `created_at`.
   */
  function GetNewestProductStats(statsTable: seq<ProductStats>): (r: StatsResponse)
    ensures r.stats.None? <==> statsTable == []
    ensures r.stats.Some? ==> r.stats.value in statsTable
    ensures r.stats.Some? ==> forall s :: s in statsTable ==> s.createdAt <= r.stats.value.createdAt
  {
    StatsResponse(FirstBy(statsTable, CreatedAtDescending))
  }

  /** Of two snapshots, the corrected procedure answers the newer one, in either storage order. */
  lemma {:induction false} NewestStatsIsLatest(older: ProductStats, newer: ProductStats)
    requires older.createdAt < newer.createdAt
    ensures GetNewestProductStats([older, newer]).stats == Some(newer)
    ensures GetNewestProductStats([newer, older]).stats == Some(newer)
  {
    assert older in [older, newer] && older in [newer, older];
  }
}
