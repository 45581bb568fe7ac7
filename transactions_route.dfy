/**
 * `GET /api/user/transactions`: one page of a user's ledger entries,
 * optionally narrowed by type and currency, newest first, with the paging
 * figures.  The query reads the ledger; `log` is its content.
 */
module TransactionsRoute {
  import opened Wrappers
  import opened Database
  import Sorting
  import Text

  const DEFAULT_PAGE: int := 1
  const DEFAULT_LIMIT: int := 20

  datatype Pagination = Pagination(
    page: int,
    limit: int,
    totalCount: nat,
    totalPages: nat,
    hasNextPage: bool,
    hasPrevPage: bool)

  /** `(page - 1) * limit`: how many entries precede the page. */
  function Skip(page: int, limit: int): (skip: int)
    requires limit >= 1
    ensures skip >= 0 <==> page >= 1
    ensures page == 1 ==> skip == 0
    ensures skip + limit == page * limit
  {
    (page - 1) * limit
  }

  /** `Math.ceil(totalCount / limit)`: the fewest pages of `limit` entries that hold them all. */
  function TotalPages(totalCount: nat, limit: int): (pages: nat)
    requires limit >= 1
    ensures pages * limit >= totalCount
    ensures pages == 0 || (pages - 1) * limit < totalCount
    ensures totalCount == 0 <==> pages == 0
  {
    (totalCount + limit - 1) / limit
  }

  /** The paging figures of the response. */
  function Paginate(page: int, limit: int, totalCount: nat): (p: Pagination)
    requires limit >= 1
    ensures p.totalPages == TotalPages(totalCount, limit)
    ensures p.hasNextPage <==> page < p.totalPages
    ensures p.hasPrevPage <==> page > 1
    ensures totalCount == 0 ==> !p.hasNextPage || page < 0
    ensures p.page == page && p.limit == limit && p.totalCount == totalCount
  {
    var totalPages := TotalPages(totalCount, limit);
    Pagination(page, limit, totalCount, totalPages, page < totalPages, page > 1)
  }

  /**
   * The numbered pages 1 .. totalPages are exactly the ones that start
   * inside the result: every one of them holds at least one entry, and a
   * page after the last is empty.
   */
  lemma PagesCoverResult(page: int, limit: int, totalCount: nat)
    requires limit >= 1
    ensures 1 <= page <= TotalPages(totalCount, limit) ==> Skip(page, limit) < totalCount
    ensures page > TotalPages(totalCount, limit) ==> Skip(page, limit) >= totalCount
  {
    var pages := TotalPages(totalCount, limit);
    if 1 <= page <= pages {
      assert (page - 1) * limit <= (pages - 1) * limit by {
        MulMonotone(page - 1, pages - 1, limit);
      }
    }
    if page > pages {
      assert pages * limit <= (page - 1) * limit by {
        MulMonotone(pages, page - 1, limit);
      }
    }
  }

  lemma MulMonotone(a: int, b: int, k: nat)
    requires a <= b
    ensures a * k <= b * k
  {
    assert b * k - a * k == (b - a) * k;
  }

  /** Whether a ledger entry is one the request asks for. */
  predicate Matches(tx: Transaction, userId: string, txType: Option<TransactionType>, currency: Option<string>) {
    && tx.userId == userId
    && (txType.Some? ==> tx.txType == txType.value)
    && (Truthy(currency) ==> tx.currency == currency.value)
  }

  /** The entries of `log` the request asks for, in ledger order. */
  function Matching(log: seq<Transaction>, userId: string, txType: Option<TransactionType>,
                    currency: Option<string>): (r: seq<Transaction>)
    ensures forall tx :: tx in r <==> tx in log && Matches(tx, userId, txType, currency)
    ensures |r| <= |log|
  {
    if log == [] then []
    else
      var rest := Matching(log[1..], userId, txType, currency);
      assert forall tx :: tx in log <==> tx == log[0] || tx in log[1..];
      if Matches(log[0], userId, txType, currency) then [log[0]] + rest else rest
  }

  /** The ordering key of `orderBy: { timestamp: 'desc' }`: newest first. */
  function Newest(tx: Transaction): int {
    -tx.timestamp
  }

  datatype TransactionsResponse = TransactionsResponse(
    status: int,
    transactions: seq<Transaction>,
    pagination: Option<Pagination>)

  /**
   * The route: 400 without a wallet, 500 for a page below 1 (the database
   * rejects a negative `skip`); otherwise the page of the user's matching
   * entries, newest first, and the paging figures over all of them.  The
   * user is the lowercased wallet; a type narrows the result only when
   * given, a currency only when non-empty.
   */
  function Transactions(log: seq<Transaction>, walletAddress: Option<string>, page: Option<int>,
                        limit: Option<int>, txType: Option<TransactionType>,
                        currency: Option<string>): (r: TransactionsResponse)
    requires limit.GetOr(DEFAULT_LIMIT) >= 1
    ensures r.status == 400 <==> !Truthy(walletAddress)
    ensures r.status == 500 <==> Truthy(walletAddress) && page.GetOr(DEFAULT_PAGE) < 1
    ensures r.status == 200 <==> Truthy(walletAddress) && page.GetOr(DEFAULT_PAGE) >= 1
    ensures r.status == 200 ==>
      var userId := Text.Lower(walletAddress.value);
      var total := |Matching(log, userId, txType, currency)|;
      var n := page.GetOr(DEFAULT_PAGE);
      var size := limit.GetOr(DEFAULT_LIMIT);
      && r.pagination == Some(Paginate(n, size, total))
      && |r.transactions| <= size
      && (forall tx :: tx in r.transactions ==> tx in log && Matches(tx, userId, txType, currency))
      && (forall i, j :: 0 <= i < j < |r.transactions| ==>
            r.transactions[i].timestamp >= r.transactions[j].timestamp)
      && (n <= r.pagination.value.totalPages ==> |r.transactions| > 0)
      && (n > r.pagination.value.totalPages ==> r.transactions == [])
      && |r.transactions| == (if Skip(n, size) >= total then 0
                              else if Skip(n, size) + size <= total then size
                              else total - Skip(n, size))
      && multiset(r.transactions) <= multiset(Matching(log, userId, txType, currency))
      && (forall i :: 0 <= i < |r.transactions| ==>
            0 <= Skip(n, size) + i < total
            && r.transactions[i] == Sorting.SortBy(Matching(log, userId, txType, currency), Newest)[Skip(n, size) + i])
  {
    var n := page.GetOr(DEFAULT_PAGE);
    var size := limit.GetOr(DEFAULT_LIMIT);
    if !Truthy(walletAddress) then TransactionsResponse(400, [], None)
    else if Skip(n, size) < 0 then TransactionsResponse(500, [], None)
    else
      var userId := Text.Lower(walletAddress.value);
      var matching := Matching(log, userId, txType, currency);
      var key := Newest;
      var result := Sorting.Window(Sorting.SortBy(matching, key), Skip(n, size), size);
      Sorting.WindowOfSorted(matching, key, Skip(n, size), size);
      Sorting.WindowSubMultiset(Sorting.SortBy(matching, key), Skip(n, size), size);
      PagesCoverResult(n, size, |matching|);
      TransactionsResponse(200, result, Some(Paginate(n, size, |matching|)))
  }
}
