/**
 * The client's infinite products table: the `getNextPageParam` cursor rule,
 * the flattening of loaded pages into the rendered row list, the guard on
 * virtual row indices, and the sentinel-driven loading of page after page.
 * The server answers every request with `Router.SelectPage` over `store`,
 * the product table in ascending id order (`Router.IdOrdered`), which
 * stays fixed while the table loads.
 */
module ProductsTable {
  import opened Wrappers
  import opened Query
  import opened Router

  /** Every request the table issues asks for 50 rows. */
  const PageSize: nat := 50

  /** The query's base input `{ limit: 50 }`: the first request leaves `offset` out. */
  const FirstPageInput: ProductsInput := ProductsInput(Some(PageSize), None)

  /** The number of rows in all pages together. */
  function TotalLength(pages: seq<seq<Product>>): (n: nat) {
    if pages == [] then 0 else |pages[0]| + TotalLength(pages[1..])
  }

  /** `pages.flat()`: the pages concatenated in fetch order. */
  function Flatten(pages: seq<seq<Product>>): (rows: seq<Product>) {
    if pages == [] then [] else pages[0] + Flatten(pages[1..])
  }

  /** Flattening loses and adds no row. */
  lemma {:induction false} FlattenLength(pages: seq<seq<Product>>)
    ensures |Flatten(pages)| == TotalLength(pages)
  {
    if pages != [] {
      FlattenLength(pages[1..]);
    }
  }

  /** Flattening keeps fetch order: row `j` of page `i` sits after the rows of the earlier pages. */
  lemma {:induction false} FlattenAt(pages: seq<seq<Product>>, i: nat, j: nat)
    requires i < |pages| && j < |pages[i]|
    ensures TotalLength(pages[..i]) + j < |Flatten(pages)|
    ensures Flatten(pages)[TotalLength(pages[..i]) + j] == pages[i][j]
  {
    if i == 0 {
      assert pages[..0] == [];
    } else {
      FlattenAt(pages[1..], i - 1, j);
      assert pages[..i][1..] == pages[1..][..i - 1];
      assert pages[..i][0] == pages[0];
    }
  }

  /** Appending a page appends its rows. */
  lemma {:induction false} FlattenAppend(pages: seq<seq<Product>>, page: seq<Product>)
    ensures Flatten(pages + [page]) == Flatten(pages) + page
  {
    if pages == [] {
      assert [page][1..] == [];
    } else {
      assert (pages + [page])[1..] == pages[1..] + [page];
      FlattenAppend(pages[1..], page);
    }
  }

  /**
   * `getNextPageParam`: a next request exists exactly when the last page
   * is non-empty (a short page still yields one); its offset is the number
   * of rows loaded so far.
   */
  function GetNextPageParam(lastPage: seq<Product>, pages: seq<seq<Product>>): (r: Option<ProductsInput>)
    ensures r.Some? <==> lastPage != []
    ensures r.Some? ==> r.value == ProductsInput(Some(PageSize), Some(TotalLength(pages)))
  {
    FlattenLength(pages);
    var offset := |Flatten(pages)|;
    if |lastPage| != 0 then Some(ProductsInput(Some(PageSize), Some(offset))) else None
  }

  /** `data?.pages.flat() ?? []`: no rows before the first page arrives. */
  function AllProducts(data: Option<seq<seq<Product>>>): (r: seq<Product>)
    ensures |r| == if data.Some? then TotalLength(data.value) else 0
  {
    match data
    case None => []
    case Some(pages) => FlattenLength(pages); Flatten(pages)
  }

  /**
   * The product a virtual row renders: `allProducts[index]`, or nothing when
   * the index is at or past the loaded count.
   */
  function RowAt(allProducts: seq<Product>, index: nat): (r: Option<Product>)
    ensures r.None? <==> index >= |allProducts|
    ensures r.Some? ==> r.value == allProducts[index]
  {
    if index < |allProducts| then Some(allProducts[index]) else None
  }

  /**
   * The virtualizer's `count`, `allProducts.length`: nothing before data
   * arrives, and exactly the virtual indices below it render a product.
   */
  function VirtualCount(data: Option<seq<seq<Product>>>): (count: nat)
    ensures data.None? ==> count == 0
    ensures forall i: nat :: RowAt(AllProducts(data), i).Some? <==> i < count
  {
    |AllProducts(data)|
  }

  /**
   * One `fetchNextPage`. With nothing loaded it is the initial load of the
   * base input; otherwise it issues the request `getNextPageParam` yields
   * and appends the page, and does nothing when that rule yields none.
   */
  function FetchNextPage(store: seq<Product>, pages: seq<seq<Product>>): (r: seq<seq<Product>>)
  {
    if pages == [] then [SelectPage(store, FirstPageInput)]
    else
      match GetNextPageParam(pages[|pages| - 1], pages)
      case None => pages
      case Some(input) => pages + [SelectPage(store, input)]
  }

  /**
   * A fetch keeps the pages already loaded in place; it adds none exactly
   * when the last loaded page is empty.
   */
  lemma FetchNextPageAppends(store: seq<Product>, pages: seq<seq<Product>>)
    ensures pages <= FetchNextPage(store, pages)
    ensures FetchNextPage(store, pages) == pages <==> (pages != [] && pages[|pages| - 1] == [])
  {
  }

  /** The pages held after `m` sentinel-triggered fetches. */
  function PagesAfter(store: seq<Product>, m: nat): (pages: seq<seq<Product>>)
  {
    if m == 0 then [] else FetchNextPage(store, PagesAfter(store, m - 1))
  }

  /** The fetches loading `n` rows take: one per page of 50 rows, one for a short rest, one that comes back empty. */
  function FetchBudget(n: nat): (fetches: nat) {
    if n == 0 then 1 else if n <= PageSize then 2 else 1 + FetchBudget(n - PageSize)
  }

  /** The budget is ⌈n/50⌉ + 1. */
  lemma {:induction false} FetchBudgetIsCeiling(n: nat)
    ensures FetchBudget(n) == (n + PageSize - 1) / PageSize + 1
  {
    if n > PageSize {
      FetchBudgetIsCeiling(n - PageSize);
    }
  }

  /** Fetch `m` is within the budget exactly when rows remain after `m - 1` full pages. */
  lemma {:induction false} BudgetBounds(n: nat, m: nat)
    requires m >= 1
    ensures n <= PageSize * (m - 1) ==> FetchBudget(n) <= m
    ensures n > PageSize * (m - 1) ==> FetchBudget(n) > m
  {
    if n > PageSize && m > 1 {
      BudgetBounds(n - PageSize, m - 1);
    }
  }

  /**
   * A fetch after a non-empty last page, with the first `k` rows loaded,
   * appends the next run of at most 50 rows.
   */
  lemma FetchAfterNonEmptyPage(store: seq<Product>, pages: seq<seq<Product>>, k: nat)
    requires pages != [] && pages[|pages| - 1] != []
    requires k <= |store| && Flatten(pages) == store[..k]
    ensures FetchNextPage(store, pages) == pages + [store[k .. Min(k + PageSize, |store|)]]
    ensures Flatten(FetchNextPage(store, pages)) == store[..Min(k + PageSize, |store|)]
  {
    var hi := Min(k + PageSize, |store|);
    FlattenLength(pages);
    var input := ProductsInput(Some(PageSize), Some(k));
    assert GetNextPageParam(pages[|pages| - 1], pages) == Some(input);
    SelectPageIsSlice(store, input);
    FlattenAppend(pages, store[k .. hi]);
    PrefixThenSlice(store, k, hi);
  }

  /**
   * What `m` fetches leave behind: the rendered rows are exactly the first
   * min(50·m, n) rows of the store (no gap, no duplicate),
   * `min(m, ⌈n/50⌉ + 1)` pages are held, and the last page is empty
   * exactly once the whole store has been loaded.
   */
  ghost predicate LoadedAfter(store: seq<Product>, m: nat) {
    var pages, n := PagesAfter(store, m), |store|;
    |pages| == Min(m, FetchBudget(n))
    && Flatten(pages) == store[..Min(PageSize * m, n)]
    && (m > 0 ==> (pages[|pages| - 1] == [] <==> n <= PageSize * (m - 1)))
  }

  /** The initial load fetches the first 50 rows. */
  lemma InitialLoad(store: seq<Product>)
    ensures LoadedAfter(store, 1)
  {
    var first := SelectPage(store, FirstPageInput);
    SelectPageIsSlice(store, FirstPageInput);
    assert PagesAfter(store, 1) == [first];
    assert Flatten([first]) == first + Flatten([]);
  }

  /** Each further fetch keeps the description of the loaded state. */
  lemma NextLoad(store: seq<Product>, m: nat)
    requires m >= 1 && LoadedAfter(store, m)
    ensures LoadedAfter(store, m + 1)
  {
    var n := |store|;
    BudgetBounds(n, m);
    BudgetBounds(n, m + 1);
    var pages := PagesAfter(store, m);
    if pages[|pages| - 1] == [] {
      assert PagesAfter(store, m + 1) == pages;
    } else {
      var k := Min(PageSize * m, n);
      FetchAfterNonEmptyPage(store, pages, k);
      assert Min(k + PageSize, n) == Min(PageSize * (m + 1), n);
    }
  }

  /** Every number of fetches leaves the state `LoadedAfter` describes. */
  lemma {:induction false} LoadedIsPrefix(store: seq<Product>, m: nat)
    ensures LoadedAfter(store, m)
  {
    if m == 1 {
      InitialLoad(store);
    } else if m > 1 {
      LoadedIsPrefix(store, m - 1);
      NextLoad(store, m - 1);
    }
  }

  /**
   * While the cursor rule yields a request after `m` fetches, the request
   * asks for 50 rows from the loaded count min(50·m, n), the next fetch
   * appends its answer, and the budget is not yet spent; once it yields
   * none, the budget is spent.
   */
  lemma CursorAfter(store: seq<Product>, m: nat)
    requires m >= 1
    ensures var pages := PagesAfter(store, m);
      pages != [] &&
      var next := GetNextPageParam(pages[|pages| - 1], pages);
      (next.Some? ==>
        (m < FetchBudget(|store|) && |pages| == m
         && next.value == ProductsInput(Some(PageSize), Some(Min(PageSize * m, |store|)))
         && PagesAfter(store, m + 1) == pages + [SelectPage(store, next.value)]))
      && (next.None? ==> FetchBudget(|store|) <= m)
  {
    LoadedIsPrefix(store, m);
    BudgetBounds(|store|, m);
    FlattenLength(PagesAfter(store, m));
  }

  /** Past the budget the last page is already empty, so a fetch changes nothing. */
  lemma FetchPastBudgetIsNoOp(store: seq<Product>, m: nat)
    requires m > FetchBudget(|store|)
    ensures PagesAfter(store, m) == PagesAfter(store, m - 1)
  {
    var pages := PagesAfter(store, m - 1);
    assert pages != [] && pages[|pages| - 1] == [] by {
      LoadedIsPrefix(store, m - 1);
      BudgetBounds(|store|, m - 1);
    }
    FetchNextPageAppends(store, pages);
  }

  /** Fetches `b + 1` to `m` change nothing when each of them, on its own, changes nothing. */
  lemma {:induction false} SameFromBudgetOn(store: seq<Product>, b: nat, m: nat)
    requires b <= m
    requires forall k: nat :: b < k <= m ==> PagesAfter(store, k) == PagesAfter(store, k - 1)
    ensures PagesAfter(store, m) == PagesAfter(store, b)
  {
    if b < m {
      SameFromBudgetOn(store, b, m - 1);
    }
  }

  /** From the budget on, a sentinel trigger changes nothing. */
  lemma FetchesPastBudget(store: seq<Product>, m: nat)
    requires m >= FetchBudget(|store|)
    ensures PagesAfter(store, m) == PagesAfter(store, FetchBudget(|store|))
  {
    forall k: nat | FetchBudget(|store|) < k <= m
      ensures PagesAfter(store, k) == PagesAfter(store, k - 1)
    {
      FetchPastBudgetIsNoOp(store, k);
    }
    SameFromBudgetOn(store, FetchBudget(|store|), m);
  }

  /** At the budget the last page is empty, so one more fetch changes nothing. */
  lemma FetchAtBudgetIsNoOp(store: seq<Product>)
    ensures var pages := PagesAfter(store, FetchBudget(|store|));
      FetchNextPage(store, pages) == pages
  {
    LastPageEmptyAtBudget(store);
  }

  /** The fetch that uses up the budget returns an empty page. */
  lemma LastPageEmptyAtBudget(store: seq<Product>)
    ensures var pages := PagesAfter(store, FetchBudget(|store|));
      pages != [] && pages[|pages| - 1] == []
  {
    var m := FetchBudget(|store|);
    LoadedIsPrefix(store, m);
    BudgetBounds(|store|, m);
  }

  /**
   * Once ⌈n/50⌉ + 1 fetches are done the whole store is loaded, the last
   * page is empty, and further sentinel triggers change nothing.
   */
  lemma LoadingCompletes(store: seq<Product>, m: nat)
    requires m >= FetchBudget(|store|)
    ensures var pages := PagesAfter(store, m);
      pages == PagesAfter(store, FetchBudget(|store|))
      && Flatten(pages) == store
      && pages[|pages| - 1] == []
      && FetchNextPage(store, pages) == pages
  {
    FetchesPastBudget(store, m);
    FetchAtBudgetIsNoOp(store);
    LoadedIsPrefix(store, m);
    BudgetBounds(|store|, m);
  }

  /** The row a virtual index renders is the product at that position of the store, or nothing past the loaded count. */
  lemma RenderedRowIsStoreRow(store: seq<Product>, m: nat, index: nat)
    ensures RowAt(AllProducts(Some(PagesAfter(store, m))), index)
      == if index < Min(PageSize * m, |store|) then Some(store[index]) else None
  {
    LoadedIsPrefix(store, m);
  }

  /**
   * Against the product table read in id order, as the server does, with
   * `id` a primary key, the loaded rows have strictly increasing, hence
   * distinct, ids, page `i` is what `getAllProducts` answers to request
   * `i`, and the whole table is eventually shown.
   */
  lemma LoadedFromTable(table: seq<Product>, m: nat)
    requires UniqueKeys(table, Id)
    ensures StrictlySortedBy(Flatten(PagesAfter(IdOrdered(table), m)), Id)
    ensures m <= FetchBudget(|table|) ==>
      |PagesAfter(IdOrdered(table), m)| == m
      && forall i :: 0 <= i < m ==> PagesAfter(IdOrdered(table), m)[i] == GetAllProducts(table, RequestAt(i, |table|))
    ensures m >= FetchBudget(|table|) ==> multiset(Flatten(PagesAfter(IdOrdered(table), m))) == multiset(table)
  {
    var store := IdOrdered(table);
    LoadedIsPrefix(store, m);
    OrderByStrict(table, Id);
    var shown := Flatten(PagesAfter(store, m));
    forall i, j | 0 <= i < j < |shown| ensures Id(shown[i]) < Id(shown[j]) {
      assert shown[i] == store[i] && shown[j] == store[j];
    }
    if m >= FetchBudget(|table|) {
      LoadingCompletes(store, m);
    }
    if m <= FetchBudget(|table|) {
      PagesAnswerRequests(store, m);
    }
  }

  /** 120 products: fetches show 50, 100, 120 rows, the fourth fetch returns nothing, and loading stops. */
  lemma OneHundredTwentyRows(store: seq<Product>)
    requires |store| == 120
    ensures |Flatten(PagesAfter(store, 1))| == 50
    ensures |Flatten(PagesAfter(store, 2))| == 100
    ensures |Flatten(PagesAfter(store, 3))| == 120
    ensures PagesAfter(store, 3)[2] != []
    ensures |PagesAfter(store, 4)| == 4 && PagesAfter(store, 4)[3] == []
    ensures FetchNextPage(store, PagesAfter(store, 4)) == PagesAfter(store, 4)
  {
    LoadedIsPrefix(store, 1);
    LoadedIsPrefix(store, 2);
    LoadedIsPrefix(store, 3);
    LoadingCompletes(store, 4);
  }

  /**
   * The request of fetch `i` (from 0): the base input `{ limit: 50 }` first,
   * then `{ limit: 50, offset }` with the rows loaded so far, min(50·i, n).
   */
  function RequestAt(i: nat, n: nat): (r: ProductsInput)
    ensures r.limit == Some(PageSize)
    ensures r.offset.None? <==> i == 0
  {
    if i == 0 then FirstPageInput else ProductsInput(Some(PageSize), Some(Min(PageSize * i, n)))
  }

  /** Within the budget, the next fetch follows a non-empty page and appends the answer to `RequestAt(m, n)`. */
  lemma FetchWithinBudget(store: seq<Product>, m: nat)
    requires 1 <= m < FetchBudget(|store|)
    ensures var pages := PagesAfter(store, m);
      |pages| == m && pages[m - 1] != []
      && PagesAfter(store, m + 1) == pages + [SelectPage(store, RequestAt(m, |store|))]
  {
    LoadedIsPrefix(store, m);
    BudgetBounds(|store|, m);
    CursorAfter(store, m);
  }

  /**
   * Within the budget, fetch `i` answered `RequestAt(i, n)`, and every page
   * but the last is non-empty.
   */
  lemma {:induction false} PagesAnswerRequests(store: seq<Product>, m: nat)
    requires m <= FetchBudget(|store|)
    ensures var pages := PagesAfter(store, m);
      |pages| == m
      && (forall i :: 0 <= i < m ==> pages[i] == SelectPage(store, RequestAt(i, |store|)))
      && (forall i :: 0 <= i < m - 1 ==> pages[i] != [])
  {
    if m == 1 {
      assert PagesAfter(store, 1) == [SelectPage(store, RequestAt(0, |store|))];
    } else if m > 1 {
      PagesAnswerRequests(store, m - 1);
      FetchWithinBudget(store, m - 1);
      var before, after := PagesAfter(store, m - 1), PagesAfter(store, m);
      forall i | 0 <= i < m ensures after[i] == SelectPage(store, RequestAt(i, |store|)) {
        if i < m - 1 {
          assert after[i] == before[i];
        }
      }
    }
  }

  /** Page `i` is the server's answer to request `i`, and request `i` is `RequestAt(i, n)`. */
  ghost predicate AnswersRequests(store: seq<Product>, pages: seq<seq<Product>>, requests: seq<ProductsInput>) {
    |requests| == |pages|
    && forall i :: 0 <= i < |pages| ==>
      requests[i] == RequestAt(i, |store|) && pages[i] == SelectPage(store, requests[i])
  }

  /** Appending the answer to the next request keeps every page answering its request. */
  lemma AnswerAppended(store: seq<Product>, pages: seq<seq<Product>>, requests: seq<ProductsInput>, input: ProductsInput)
    requires AnswersRequests(store, pages, requests) && input == RequestAt(|pages|, |store|)
    ensures AnswersRequests(store, pages + [SelectPage(store, input)], requests + [input])
  {
  }

  /** Within the budget, pages that answer the requests in order are the pages held after that many fetches. */
  lemma AnswersArePagesAfter(store: seq<Product>, pages: seq<seq<Product>>, requests: seq<ProductsInput>)
    requires |pages| <= FetchBudget(|store|) && AnswersRequests(store, pages, requests)
    ensures pages == PagesAfter(store, |pages|)
  {
    var after := PagesAfter(store, |pages|);
    PagesAnswerRequests(store, |pages|);
    assert |after| == |pages|;
    forall i | 0 <= i < |pages| ensures after[i] == pages[i] {
      assert after[i] == SelectPage(store, RequestAt(i, |store|));
    }
  }

  /** After a non-empty last page the cursor rule yields the next request, and the budget is not spent. */
  lemma NextRequest(store: seq<Product>, pages: seq<seq<Product>>, requests: seq<ProductsInput>)
    requires 1 <= |pages| <= FetchBudget(|store|) && AnswersRequests(store, pages, requests)
    requires pages[|pages| - 1] != []
    ensures |pages| < FetchBudget(|store|)
    ensures GetNextPageParam(pages[|pages| - 1], pages) == Some(RequestAt(|pages|, |store|))
  {
    AnswersArePagesAfter(store, pages, requests);
    CursorAfter(store, |pages|);
  }

  /**
   * Once the last page is empty the loop has made exactly the budgeted
   * fetches, and its pages and requests have the properties
   * `LoadAllPages` promises.
   */
  lemma LoadedPages(store: seq<Product>, pages: seq<seq<Product>>, requests: seq<ProductsInput>)
    requires 1 <= |pages| <= FetchBudget(|store|) && AnswersRequests(store, pages, requests)
    requires pages[|pages| - 1] == []
    ensures |pages| == FetchBudget(|store|)
    ensures pages == PagesAfter(store, |pages|)
    ensures Flatten(pages) == store
    ensures forall i :: 0 <= i < |pages| - 1 ==> pages[i] != []
  {
    AnswersArePagesAfter(store, pages, requests);
    assert |pages| == FetchBudget(|store|) by {
      CursorAfter(store, |pages|);
    }
    LoadingCompletes(store, |pages|);
    PagesAnswerRequests(store, |pages|);
  }

  /**
   * The table's loading loop: the initial load, then one fetch per
   * sentinel trigger while `getNextPageParam` yields a request. Returns the
   * pages and the requests in fetch order: ⌈n/50⌉ + 1 of each, fetch `i`
   * answering `RequestAt(i, n)`, all pages but the last non-empty, the last
   * one empty, and the pages together the whole store.
   */
  method LoadAllPages(store: seq<Product>) returns (pages: seq<seq<Product>>, requests: seq<ProductsInput>)
    ensures |pages| == |requests| == FetchBudget(|store|)
    ensures pages == PagesAfter(store, |pages|)
    ensures Flatten(pages) == store && pages[|pages| - 1] == []
    ensures forall i :: 0 <= i < |pages| - 1 ==> pages[i] != []
    ensures forall i :: 0 <= i < |requests| ==>
      requests[i] == RequestAt(i, |store|) && pages[i] == SelectPage(store, requests[i])
  {
    var n := |store|;
    requests := [FirstPageInput];
    pages := [SelectPage(store, FirstPageInput)];
    var next := GetNextPageParam(pages[0], pages);
    while next.Some?
      invariant 1 <= |pages| <= FetchBudget(n)
      invariant AnswersRequests(store, pages, requests)
      invariant next == GetNextPageParam(pages[|pages| - 1], pages)
      decreases FetchBudget(n) - |pages|
    {
      NextRequest(store, pages, requests);
      var input := next.value;
      var page := SelectPage(store, input);
      AnswerAppended(store, pages, requests, input);
      pages := pages + [page];
      requests := requests + [input];
      next := GetNextPageParam(page, pages);
    }
    LoadedPages(store, pages, requests);
  }

  /**
   * The request that reaches the server when the RPC client passes the page
   * parameter as the `cursor` key of the base input `{ limit: 50 }`. The
   * input schema drops that key, so the server sees the base input.
   */
  function SentRequest(pageParam: Option<ProductsInput>): (input: ProductsInput)
    ensures input == FirstPageInput
  {
    ParseProductsInput(RawProductsInput(Some(PageSize), None, pageParam))
  }

  /**
   * One `fetchNextPage` as written, with the page parameter sent as a
   * `cursor` the schema does not declare: the same cursor rule, but every
   * request is answered as the base input.
   */
  function FetchNextPageAsSent(store: seq<Product>, pages: seq<seq<Product>>): (r: seq<seq<Product>>)
  {
    if pages == [] then [SelectPage(store, SentRequest(None))]
    else
      match GetNextPageParam(pages[|pages| - 1], pages)
      case None => pages
      case Some(param) => pages + [SelectPage(store, SentRequest(Some(param)))]
  }

  /** The pages held after `m` fetches as written. */
  function PagesAfterAsSent(store: seq<Product>, m: nat): (pages: seq<seq<Product>>)
    ensures |pages| <= m
  {
    if m == 0 then [] else FetchNextPageAsSent(store, PagesAfterAsSent(store, m - 1))
  }

  /** With a dropped cursor, a fetch after copies of the non-empty first page appends one more copy. */
  lemma DroppedCursorStep(store: seq<Product>, pages: seq<seq<Product>>)
    requires pages != [] && SelectPage(store, FirstPageInput) != []
    requires forall i :: 0 <= i < |pages| ==> pages[i] == SelectPage(store, FirstPageInput)
    ensures FetchNextPageAsSent(store, pages) == pages + [SelectPage(store, FirstPageInput)]
  {
    var first := SelectPage(store, FirstPageInput);
    assert pages[|pages| - 1] == first;
    var param := GetNextPageParam(first, pages);
    assert param.Some?;
    assert SentRequest(param) == FirstPageInput;
  }

  /** The first fetch as written loads the first page. */
  lemma DroppedCursorFirstFetch(store: seq<Product>)
    ensures PagesAfterAsSent(store, 1) == [SelectPage(store, FirstPageInput)]
  {
    assert PagesAfterAsSent(store, 0) == [];
  }

  /** `m` copies of the first page, followed by one more fetch as written, are `m + 1` copies. */
  lemma DroppedCursorNextFetch(store: seq<Product>, m: nat)
    requires m >= 1 && SelectPage(store, FirstPageInput) != []
    requires |PagesAfterAsSent(store, m)| == m
    requires forall i :: 0 <= i < m ==> PagesAfterAsSent(store, m)[i] == SelectPage(store, FirstPageInput)
    ensures PagesAfterAsSent(store, m + 1) == PagesAfterAsSent(store, m) + [SelectPage(store, FirstPageInput)]
  {
    DroppedCursorStep(store, PagesAfterAsSent(store, m));
  }

  /**
   * With a dropped cursor and at least one product, every fetch appends
   * the first page again: after `m` fetches there are `m` pages, each one
   * rows 1 to 50 of the store.
   */
  lemma {:induction false} DroppedCursorRepeatsFirstPage(store: seq<Product>, m: nat)
    requires store != []
    ensures |PagesAfterAsSent(store, m)| == m
    ensures forall i :: 0 <= i < m ==> PagesAfterAsSent(store, m)[i] == SelectPage(store, FirstPageInput)
  {
    var first := SelectPage(store, FirstPageInput);
    assert first[0] == store[0];
    if m == 1 {
      DroppedCursorFirstFetch(store);
    } else if m > 1 {
      DroppedCursorRepeatsFirstPage(store, m - 1);
      DroppedCursorNextFetch(store, m - 1);
      var before := PagesAfterAsSent(store, m - 1);
      forall i | 0 <= i < m ensures PagesAfterAsSent(store, m)[i] == first {
        assert (before + [first])[i] == if i < m - 1 then before[i] else first;
      }
    }
  }

  /** With a dropped cursor and at least one product, no page is empty, so every fetch adds a page and loading never stops. */
  lemma DroppedCursorNeverStops(store: seq<Product>, m: nat)
    requires store != []
    ensures forall i :: 0 <= i < |PagesAfterAsSent(store, m)| ==> PagesAfterAsSent(store, m)[i] != []
    ensures |PagesAfterAsSent(store, m + 1)| == m + 1
  {
    var first := SelectPage(store, FirstPageInput);
    assert first[0] == store[0];
    DroppedCursorRepeatsFirstPage(store, m);
    DroppedCursorRepeatsFirstPage(store, m + 1);
  }

  /** For 60 products the second fetch as written shows rows 1 to 50 twice, not rows 1 to 60. */
  lemma DroppedCursorShowsDuplicates(store: seq<Product>)
    requires |store| == 60
    ensures |Flatten(PagesAfterAsSent(store, 2))| == 100
    ensures |Flatten(PagesAfter(store, 2))| == 60
  {
    DroppedCursorRepeatsFirstPage(store, 2);
    FlattenLength(PagesAfterAsSent(store, 2));
    FlattenLength(PagesAfterAsSent(store, 2)[1..]);
    LoadedIsPrefix(store, 2);
  }
}
