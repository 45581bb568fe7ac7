/**
 * `GET /api/games/mines/history`: a user's finished mines games, newest
 * first and paged, with per-game profit and aggregate statistics.  The
 * query reads the game table; `rows` is that table's content.
 */
module MinesHistory {
  import opened Wrappers
  import opened Database
  import Sorting

  /** A stored game with its id. */
  type Row = (nat, MinesGame)

  /** Games of `userId` that are over (any status but active), in table order. */
  function Finished(rows: seq<Row>, userId: string): (r: seq<Row>)
    ensures forall x :: x in r <==> x in rows && x.1.userId == userId && x.1.gameStatus != Active
    ensures |r| <= |rows|
  {
    if rows == [] then []
    else
      var rest := Finished(rows[1..], userId);
      assert forall x :: x in rows <==> x == rows[0] || x in rows[1..];
      if rows[0].1.userId == userId && rows[0].1.gameStatus != Active then [rows[0]] + rest else rest
  }

  /** Ordered by `createdAt`, newest first. */
  function NewestFirst(rows: seq<Row>): seq<Row> {
    Sorting.SortBy(rows, (x: Row) => -x.1.createdAt)
  }

  datatype HistoryItem = HistoryItem(
    id: nat,
    betAmount: int,
    minesCount: int,
    gameStatus: GameStatus,
    cashOutMultiplier: Option<real>,
    winAmount: Option<int>,
    profit: int,
    revealedCount: nat,
    createdAt: int)

  /** One listed game: its selected fields, its profit and how many cells it uncovered. */
  function ToItem(row: Row): (item: HistoryItem)
    ensures item.profit == row.1.winAmount.GetOr(0) - row.1.betAmount
    ensures item.revealedCount == |row.1.revealedCells|
    ensures item.id == row.0 && item.gameStatus == row.1.gameStatus && item.createdAt == row.1.createdAt
  {
    var g := row.1;
    HistoryItem(row.0, g.betAmount, g.minesCount, g.gameStatus, g.cashOutMultiplier, g.winAmount,
                g.winAmount.GetOr(0) - g.betAmount, |g.revealedCells|, g.createdAt)
  }

  function ToItems(rows: seq<Row>): (items: seq<HistoryItem>)
    ensures |items| == |rows|
    ensures forall i :: 0 <= i < |rows| ==> items[i] == ToItem(rows[i])
  {
    if rows == [] then [] else [ToItem(rows[0])] + ToItems(rows[1..])
  }

  /** Sum of the bets (`_sum.betAmount`). */
  function SumBets(rows: seq<Row>): int {
    if rows == [] then 0 else rows[0].1.betAmount + SumBets(rows[1..])
  }

  /** Sum of the win amounts, games without one adding nothing (`_sum.winAmount || 0`). */
  function SumWon(rows: seq<Row>): int {
    if rows == [] then 0 else rows[0].1.winAmount.GetOr(0) + SumWon(rows[1..])
  }

  function SumProfits(items: seq<HistoryItem>): int {
    if items == [] then 0 else items[0].profit + SumProfits(items[1..])
  }

  /** Games of `userId` that were won or cashed out. */
  function CountWins(rows: seq<Row>, userId: string): nat {
    if rows == [] then 0
    else
      (if rows[0].1.userId == userId && (rows[0].1.gameStatus == Won || rows[0].1.gameStatus == CashedOut)
       then 1 else 0) + CountWins(rows[1..], userId)
  }

  /** Every win is a finished game, so wins never outnumber finished games. */
  lemma {:induction false} WinsAtMostFinished(rows: seq<Row>, userId: string)
    ensures CountWins(rows, userId) <= |Finished(rows, userId)|
  {
    if rows != [] {
      WinsAtMostFinished(rows[1..], userId);
    }
  }

  /** The profits of the listed games add up to what they won minus what they staked. */
  lemma {:induction false} ProfitsSum(rows: seq<Row>)
    ensures SumProfits(ToItems(rows)) == SumWon(rows) - SumBets(rows)
  {
    if rows != [] {
      ProfitsSum(rows[1..]);
      assert ToItems(rows)[1..] == ToItems(rows[1..]);
    }
  }

  /** `(wins / totalGames) * 100`: a percentage when wins are among the games. */
  function WinRate(wins: nat, totalGames: nat): (r: real)
    requires 0 < totalGames && wins <= totalGames
    ensures 0.0 <= r <= 100.0
    ensures wins == totalGames ==> r == 100.0
  {
    var q := wins as real / totalGames as real;
    assert q * totalGames as real == wins as real;
    assert (1.0 - q) * totalGames as real == (totalGames - wins) as real;
    q * 100.0
  }

  datatype Stats = Stats(totalGames: nat, totalBet: int, totalWon: int, netProfit: int, winRate: real)

  /**
   * The statistics over all of the user's finished games: their number,
   * total staked, total won, net profit and the percentage won.
   */
  function ComputeStats(rows: seq<Row>, userId: string): (s: Stats)
    ensures s.totalGames == |Finished(rows, userId)|
    ensures s.totalBet == SumBets(Finished(rows, userId))
    ensures s.totalWon == SumWon(Finished(rows, userId))
    ensures s.totalGames > 0 ==>
      s.winRate == CountWins(rows, userId) as real / s.totalGames as real * 100.0
    ensures s.netProfit == s.totalWon - s.totalBet
    ensures s.netProfit == SumProfits(ToItems(Finished(rows, userId)))
    ensures s.totalGames == 0 ==> s.winRate == 0.0
    ensures 0.0 <= s.winRate <= 100.0
  {
    var finished := Finished(rows, userId);
    var totalBet := SumBets(finished);
    var totalWon := SumWon(finished);
    var wins := CountWins(rows, userId);
    WinsAtMostFinished(rows, userId);
    ProfitsSum(finished);
    var rate := if |finished| > 0 then WinRate(wins, |finished|) else 0.0;
    Stats(|finished|, totalBet, totalWon, totalWon - totalBet, rate)
  }

  /**
   * A game that is still active, or that belongs to someone else, changes
   * none of the statistics.
   */
  lemma OtherGamesIgnored(x: Row, rows: seq<Row>, userId: string)
    requires x.1.userId != userId || x.1.gameStatus == Active
    ensures ComputeStats([x] + rows, userId) == ComputeStats(rows, userId)
  {
    assert ([x] + rows)[1..] == rows;
    assert Finished([x] + rows, userId) == Finished(rows, userId);
    assert CountWins([x] + rows, userId) == CountWins(rows, userId);
  }

  function RowId(x: Row): nat {
    x.0
  }

  /** No two rows share an id, as in a table keyed by id. */
  ghost predicate UniqueIds(rows: seq<Row>) {
    Sorting.DistinctBy(rows, RowId)
  }

  lemma {:induction false} FinishedKeepsUniqueIds(rows: seq<Row>, userId: string)
    requires UniqueIds(rows)
    ensures UniqueIds(Finished(rows, userId))
  {
    if rows != [] {
      assert UniqueIds(rows[1..]) by {
        forall i, j | 0 <= i < j < |rows[1..]|
          ensures RowId(rows[1..][i]) != RowId(rows[1..][j])
        {
          assert rows[1..][i] == rows[i + 1] && rows[1..][j] == rows[j + 1];
        }
      }
      FinishedKeepsUniqueIds(rows[1..], userId);
      var rest := Finished(rows[1..], userId);
      forall y | y in rest
        ensures y.0 != rows[0].0
      {
        var k :| 0 <= k < |rows[1..]| && rows[1..][k] == y;
        assert y == rows[k + 1];
      }
      if rows[0].1.userId == userId && rows[0].1.gameStatus != Active {
        var r := [rows[0]] + rest;
        forall i, j | 0 <= i < j < |r|
          ensures RowId(r[i]) != RowId(r[j])
        {
          assert r[j] == rest[j - 1];
          if i > 0 {
            assert r[i] == rest[i - 1];
          }
        }
      }
    }
  }

  /** The listed games: the user's finished games, newest first, from `offset`, at most `limit`. */
  function Page(rows: seq<Row>, userId: string, limit: nat, offset: nat): seq<HistoryItem> {
    ToItems(Sorting.Window(NewestFirst(Finished(rows, userId)), offset, limit))
  }

  /**
   * The page lists finished games of the user, newest first; its `i`-th
   * item is the game at position `offset + i` of that order, and it holds
   * `limit` of them, or what is left after `offset` when fewer remain.
   */
  lemma PageShape(rows: seq<Row>, userId: string, limit: nat, offset: nat)
    ensures var items := Page(rows, userId, limit, offset);
      var total := |Finished(rows, userId)|;
      && |items| <= limit
      && (forall i :: 0 <= i < |items| ==>
            exists x :: x in rows && x.1.userId == userId && x.1.gameStatus != Active && items[i] == ToItem(x))
      && (forall i, j :: 0 <= i < j < |items| ==> items[i].createdAt >= items[j].createdAt)
      && |items| == (if offset >= total then 0 else if offset + limit <= total then limit else total - offset)
      && (forall i :: 0 <= i < |items| ==>
            offset + i < total && items[i] == ToItem(NewestFirst(Finished(rows, userId))[offset + i]))
  {
    var finished := Finished(rows, userId);
    var ordered := NewestFirst(finished);
    var page := Sorting.Window(ordered, offset, limit);
    var items := ToItems(page);
    assert |ordered| == |finished|;
    Sorting.WindowOfSorted(finished, (x: Row) => -x.1.createdAt, offset, limit);
    forall i | 0 <= i < |items|
      ensures exists x :: x in rows && x.1.userId == userId && x.1.gameStatus != Active && items[i] == ToItem(x)
    {
      assert page[i] in finished;
    }
  }

  /** The listed page of a table with unique ids lists no game twice. */
  lemma PageKeepsUniqueIds(rows: seq<Row>, userId: string, limit: nat, offset: nat)
    ensures UniqueIds(rows) ==>
      var items := Page(rows, userId, limit, offset);
      forall i, j :: 0 <= i < j < |items| ==> items[i].id != items[j].id
  {
    if UniqueIds(rows) {
      var finished := Finished(rows, userId);
      var ordered := NewestFirst(finished);
      var page := Sorting.Window(ordered, offset, limit);
      var items := ToItems(page);
      FinishedKeepsUniqueIds(rows, userId);
      Sorting.SortByKeepsDistinctBy(finished, (x: Row) => -x.1.createdAt, RowId);
      forall i, j | 0 <= i < j < |items|
        ensures items[i].id != items[j].id
      {
        assert page[i] == ordered[offset + i] && page[j] == ordered[offset + j];
      }
    }
  }

  datatype HistoryResponse = HistoryResponse(status: int, games: seq<HistoryItem>, total: nat, stats: Stats)

  /**
   * The route: 400 without a user id; otherwise at most `limit` finished
   * games of the user, newest first from position `offset`, their total
   * number and the statistics.
   */
  function History(rows: seq<Row>, userId: Option<string>, limit: nat, offset: nat): (r: HistoryResponse)
    ensures r.status == 400 <==> !Truthy(userId)
    ensures r.status == 200 <==> Truthy(userId)
    ensures r.status == 200 ==>
      && |r.games| <= limit
      && r.total == |Finished(rows, userId.value)|
      && r.stats == ComputeStats(rows, userId.value)
      && (forall i :: 0 <= i < |r.games| ==>
            exists x :: x in rows && x.1.userId == userId.value && x.1.gameStatus != Active && r.games[i] == ToItem(x))
      && (forall i, j :: 0 <= i < j < |r.games| ==> r.games[i].createdAt >= r.games[j].createdAt)
      && |r.games| == (if offset >= r.total then 0
                       else if offset + limit <= r.total then limit
                       else r.total - offset)
      && (forall i :: 0 <= i < |r.games| ==>
            offset + i < r.total && r.games[i] == ToItem(NewestFirst(Finished(rows, userId.value))[offset + i]))
    ensures r.status == 200 && UniqueIds(rows) ==>
      forall i, j :: 0 <= i < j < |r.games| ==> r.games[i].id != r.games[j].id
  {
    if !Truthy(userId) then HistoryResponse(400, [], 0, Stats(0, 0, 0, 0, 0.0))
    else
      PageShape(rows, userId.value, limit, offset);
      PageKeepsUniqueIds(rows, userId.value, limit, offset);
      HistoryResponse(200, Page(rows, userId.value, limit, offset), |Finished(rows, userId.value)|,
                      ComputeStats(rows, userId.value))
  }
}
