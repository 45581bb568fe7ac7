/**
 * The server's persistent state: the user, mines game, event and transaction
 * tables that the API routes read and write.  Each route is one method over a
 * `Db`; requests are taken one at a time, so each route body is atomic.
 */
module Database {
  import opened Wrappers
  import Text

  /** Cells on the mines board (a 5 x 5 grid). */
  const GRID_SIZE: int := 25

  /**
   * A user row.  Both creating routes store the lowercased wallet as `id` and
   * as `walletAddress`, so the table is keyed by that string.
   */
  datatype User = User(
    id: string,
    walletAddress: string,
    points: int,
    cryptoBalance: real,
    isAdmin: bool,
    isFirstLogin: bool,
    createdAt: int,
    lastLoginAt: Option<int>)

  /** The status of a mines game (`GameStatus` of the mines types). */
  datatype GameStatus = Idle | Active | Won | Lost | CashedOut

  datatype MinesGame = MinesGame(
    userId: string,
    betAmount: int,
    autoCashOut: Option<real>,
    minesCount: int,
    minePositions: seq<int>,
    revealedCells: seq<int>,
    gameStatus: GameStatus,
    currentMultiplier: real,
    cashOutMultiplier: Option<real>,
    winAmount: Option<int>,
    createdAt: int)

  datatype TransactionType = PointsWithdrawal | Reward | MinesBet | TradeBuy | TradeSell

  /** A ledger entry; `amount` is signed (a debit is negative). */
  datatype Transaction = Transaction(
    userId: string,
    txType: TransactionType,
    amount: int,
    currency: string,
    timestamp: int)

  datatype EventStatus = Open | TradingClosed | Settled

  datatype Outcome = Outcome(name: string, description: string)

  datatype Event = Event(
    title: string,
    description: Option<string>,
    outcomeType: Option<string>,
    status: EventStatus,
    eventDateTime: int,
    settlementDateTime: int,
    creatorId: string,
    outcomes: seq<Outcome>,
    currentYesPrice: real,
    currentNoPrice: real,
    totalYesShares: real,
    totalNoShares: real,
    createdAt: int)

  predicate InGrid(cell: int) {
    0 <= cell < GRID_SIZE
  }

  predicate Distinct(s: seq<int>) {
    forall i, j :: 0 <= i < j < |s| ==> s[i] != s[j]
  }

  /**
   * What every stored game satisfies: its mines are `minesCount` distinct
   * board cells, its revealed cells are distinct board cells, and a won game
   * has every safe cell of the board revealed.
   */
  ghost predicate WellFormedGame(g: MinesGame) {
    && 0 <= g.minesCount <= GRID_SIZE
    && |g.minePositions| == g.minesCount
    && Distinct(g.minePositions)
    && (forall c :: c in g.minePositions ==> InGrid(c))
    && Distinct(g.revealedCells)
    && (forall c :: c in g.revealedCells ==> InGrid(c))
    && (g.gameStatus == Won ==> forall c :: InGrid(c) && c !in g.minePositions ==> c in g.revealedCells)
  }

  /** `Math.floor(betAmount * multiplier)`: the whole points a bet pays at a multiplier. */
  function WinAmount(betAmount: int, multiplier: real): (w: int)
    ensures w as real <= betAmount as real * multiplier < w as real + 1.0
  {
    (betAmount as real * multiplier).Floor
  }

  /** The cells listed in `s`. */
  function Elements(s: seq<int>): set<int> {
    set x | x in s
  }

  /** The cells 0 .. n-1. */
  function Range(n: int): set<int>
    decreases n
  {
    if n <= 0 then {} else Range(n - 1) + {n - 1}
  }

  lemma {:induction false} RangeSize(n: nat)
    ensures |Range(n)| == n
    ensures forall c :: c in Range(n) <==> 0 <= c < n
  {
    if n > 0 {
      RangeSize(n - 1);
    }
  }

  /** A subset is no larger than the set that holds it. */
  lemma SubsetSize(a: set<int>, b: set<int>)
    requires a <= b
    ensures |a| <= |b|
  {
    assert b == a + (b - a);
    assert a * (b - a) == {};
  }

  /** A subset as large as the set that holds it is that set. */
  lemma SubsetOfSameSize(a: set<int>, b: set<int>)
    requires a <= b && |a| == |b|
    ensures a == b
  {
    assert b == a + (b - a);
    assert a * (b - a) == {};
    assert |b - a| == 0;
  }

  /** A list names at most as many cells as it is long, exactly as many when it has no repeats. */
  lemma {:induction false} ElementsSize(s: seq<int>)
    ensures |Elements(s)| <= |s|
    ensures Distinct(s) ==> |Elements(s)| == |s|
  {
    if s == [] {
      assert Elements(s) == {};
    } else {
      ElementsSize(s[1..]);
      assert Elements(s) == Elements(s[1..]) + {s[0]};
      if Distinct(s) {
        assert Distinct(s[1..]);
        assert s[0] !in Elements(s[1..]);
      }
    }
  }

  /** Distinct cells taken from 0 .. n-1 are at most n. */
  lemma CellsBound(cells: set<int>, n: nat)
    requires forall c :: c in cells ==> 0 <= c < n
    ensures |cells| <= n
  {
    RangeSize(n);
    forall c | c in cells
      ensures c in Range(n)
    {
    }
    SubsetSize(cells, Range(n));
  }

  /** The sum of the signed amounts of `txs`. */
  function SumAmounts(txs: seq<Transaction>): int {
    if txs == [] then 0 else txs[0].amount + SumAmounts(txs[1..])
  }

  lemma {:induction false} SumAmountsAppend(a: seq<Transaction>, b: seq<Transaction>)
    ensures SumAmounts(a + b) == SumAmounts(a) + SumAmounts(b)
  {
    if a != [] {
      assert (a + b)[1..] == a[1..] + b;
      SumAmountsAppend(a[1..], b);
    } else {
      assert a + b == b;
    }
  }

  class Db {
    var users: map<string, User>
    var games: map<nat, MinesGame>
    var nextGameId: nat
    var events: map<nat, Event>
    var nextEventId: nat
    var transactions: seq<Transaction>

    ghost predicate Valid()
      reads this
    {
      && (forall k :: k in users ==> users[k].id == k && users[k].walletAddress == k && Text.Lower(k) == k)
      && (forall g :: g in games ==> g < nextGameId && games[g].userId in users && WellFormedGame(games[g]))
      && (forall e :: e in events ==> e < nextEventId)
    }

    constructor ()
      ensures Valid()
      ensures users == map[] && games == map[] && events == map[] && transactions == []
    {
      users, games, events := map[], map[], map[];
      nextGameId, nextEventId := 0, 0;
      transactions := [];
    }

    /** Replaces the row of an existing user, keeping its key fields. */
    method UpdateUser(key: string, u: User)
      requires Valid()
      requires key in users && u.id == key && u.walletAddress == key
      modifies this
      ensures Valid()
      ensures users == old(users)[key := u]
      ensures KeepsGames() && KeepsEvents() && transactions == old(transactions)
    {
      users := users[key := u];
    }

    /** Appends one entry to the ledger. */
    method Log(tx: Transaction)
      requires Valid()
      modifies this
      ensures Valid()
      ensures transactions == old(transactions) + [tx]
      ensures users == old(users) && KeepsGames() && KeepsEvents()
    {
      transactions := transactions + [tx];
    }

    /** Adds a user under a key no user has yet. */
    method AddUser(u: User)
      requires Valid()
      requires u.id !in users && u.walletAddress == u.id && Text.Lower(u.id) == u.id
      modifies this
      ensures Valid()
      ensures users == old(users)[u.id := u]
      ensures KeepsGames() && KeepsEvents() && transactions == old(transactions)
    {
      users := users[u.id := u];
    }

    /** Stores a new game under the next free id. */
    method AddGame(g: MinesGame) returns (id: nat)
      requires Valid()
      requires g.userId in users && WellFormedGame(g)
      modifies this
      ensures Valid()
      ensures id == old(nextGameId) && id !in old(games)
      ensures games == old(games)[id := g] && nextGameId == old(nextGameId) + 1
      ensures users == old(users) && KeepsEvents() && transactions == old(transactions)
    {
      id := nextGameId;
      games := games[id := g];
      nextGameId := nextGameId + 1;
    }

    /** Replaces a stored game, keeping its owner. */
    method UpdateGame(id: nat, g: MinesGame)
      requires Valid()
      requires id in games && g.userId == games[id].userId && WellFormedGame(g)
      modifies this
      ensures Valid()
      ensures games == old(games)[id := g] && nextGameId == old(nextGameId)
      ensures users == old(users) && KeepsEvents() && transactions == old(transactions)
    {
      games := games[id := g];
    }

    /** Stores a new event under the next free id. */
    method AddEvent(e: Event) returns (id: nat)
      requires Valid()
      modifies this
      ensures Valid()
      ensures id == old(nextEventId) && id !in old(events)
      ensures events == old(events)[id := e] && nextEventId == old(nextEventId) + 1
      ensures users == old(users) && KeepsGames() && transactions == old(transactions)
    {
      id := nextEventId;
      events := events[id := e];
      nextEventId := nextEventId + 1;
    }

    /** The game table and its id counter are as they were. */
    twostate predicate KeepsGames()
      reads this
    {
      games == old(games) && nextGameId == old(nextGameId)
    }

    /** The event table and its id counter are as they were. */
    twostate predicate KeepsEvents()
      reads this
    {
      events == old(events) && nextEventId == old(nextEventId)
    }
  }

  /**
   * The rows of a table read out in some order (`findMany` without
   * `orderBy`): every entry exactly once.
   */
  method Entries<K, V>(m: map<K, V>) returns (rows: seq<(K, V)>)
    ensures |rows| == |m|
    ensures forall k :: k in m ==> (k, m[k]) in rows
    ensures forall r :: r in rows ==> r.0 in m && m[r.0] == r.1
    ensures forall i, j :: 0 <= i < j < |rows| ==> rows[i].0 != rows[j].0
  {
    rows := [];
    var remaining := m.Keys;
    while remaining != {}
      invariant remaining <= m.Keys
      invariant |rows| + |remaining| == |m|
      invariant forall k :: k in m && k !in remaining ==> (k, m[k]) in rows
      invariant forall r :: r in rows ==> r.0 in m && m[r.0] == r.1 && r.0 !in remaining
      invariant forall i, j :: 0 <= i < j < |rows| ==> rows[i].0 != rows[j].0
    {
      var k :| k in remaining;
      rows := rows + [(k, m[k])];
      remaining := remaining - {k};
    }
  }
}
