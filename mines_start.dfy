/**
 * `POST /api/games/mines/start`: validates the request, places the mines,
 * and in one database transaction creates the game, debits the bet and logs
 * it.
 */
module MinesStart {
  import opened Wrappers
  import opened Database

  /** Bet bounds of the route. */
  const MIN_BET: int := 10
  const MAX_BET: int := 10000

  /** The mine count used when the request names none. */
  const DEFAULT_MINES: int := 5

  /**
   * There is a cell of 0 .. gridSize-1 that `positions` does not list yet:
   * otherwise the gridSize cells would all be among fewer entries.
   */
  lemma FreshCellExists(positions: seq<int>, gridSize: nat)
    requires Distinct(positions) && |positions| < gridSize
    ensures exists c :: 0 <= c < gridSize && c !in positions
  {
    if forall c :: 0 <= c < gridSize ==> c in positions {
      RangeSize(gridSize);
      ElementsSize(positions);
      forall c | c in Range(gridSize)
        ensures c in Elements(positions)
      {
      }
      SubsetSize(Range(gridSize), Elements(positions));
      assert false;
    }
  }

  /**
   * `generateMinePositions`: `count` distinct cells of 0 .. gridSize-1, in
   * the order they were drawn (a negative count gives none).  The random
   * draw is modelled as a choice among the cells not drawn yet, which is
   * all a draw can add to the set; the loop ends only when such a cell
   * exists at every step, that is when `count <= gridSize`.
   */
  method GenerateMinePositions(count: int, gridSize: nat) returns (positions: seq<int>)
    requires count <= gridSize
    ensures |positions| == if count > 0 then count else 0
    ensures Distinct(positions)
    ensures forall p :: p in positions ==> 0 <= p < gridSize
  {
    positions := [];
    while |positions| < count
      invariant |positions| <= if count > 0 then count else 0
      invariant Distinct(positions)
      invariant forall p :: p in positions ==> 0 <= p < gridSize
      decreases count - |positions|
    {
      FreshCellExists(positions, gridSize);
      var c :| 0 <= c < gridSize && c !in positions;
      positions := positions + [c];
    }
  }

  /**
   * The loop of `generateMinePositions` as written, asked for more mines
   * than the board has cells: whatever distinct board cells it has
   * collected, its guard `positions.size < count` still holds, so it never
   * returns.
   */
  lemma PositionsNeverReachCount(positions: seq<int>, count: int)
    requires count > GRID_SIZE
    requires Distinct(positions)
    requires forall p :: p in positions ==> InGrid(p)
    ensures |positions| < count
  {
    ElementsSize(positions);
    CellsBound(Elements(positions), GRID_SIZE);
  }

  /**
   * Whether a start request for a user holding `points` gets past the
   * checks: a bet the user can cover, within 10 .. 10000, and a mine count
   * the board can hold.
   */
  predicate Acceptable(points: int, betAmount: Option<int>, minesCount: Option<int>) {
    && betAmount.Some?
    && points >= betAmount.value
    && MIN_BET <= betAmount.value <= MAX_BET
    && 0 <= minesCount.GetOr(DEFAULT_MINES) <= GRID_SIZE
  }

  /** The record a successful start stores. */
  function NewGame(userId: string, betAmount: int, autoCashOut: Option<real>, minesCount: int,
                   minePositions: seq<int>, now: int): (g: MinesGame)
    ensures g.gameStatus == Active && g.revealedCells == [] && g.currentMultiplier == 1.0
    ensures g.cashOutMultiplier == None && g.winAmount == None
    ensures g.userId == userId && g.betAmount == betAmount && g.minesCount == minesCount
    ensures g.minePositions == minePositions && g.autoCashOut == autoCashOut && g.createdAt == now
  {
    MinesGame(userId, betAmount, autoCashOut, minesCount, minePositions, [], Active, 1.0, None, None, now)
  }

  /**
   * The route.  The user is looked up by `userId` exactly as sent (no
   * lowering).  400 without a user id, 404 for an unknown one, 400 when the
   * bet is not covered, missing, below 10 or above 10000, or when the mine
   * count is outside 0 .. 25; none of these writes anything.  Otherwise the
   * game is created active with the mines placed, the bet is debited and a
   * `MINES_BET` entry of minus the bet is logged.
   */
  method Start(db: Db, minesCount: Option<int>, betAmount: Option<int>, autoCashOut: Option<real>,
               userId: Option<string>, now: int)
    returns (status: int, gameId: nat, userPoints: int)
    requires db.Valid()
    modifies db
    ensures db.Valid()
    ensures status == 200 || status == 400 || status == 404
    ensures !Truthy(userId) ==> status == 400
    ensures Truthy(userId) && userId.value !in old(db.users) ==> status == 404
    ensures Truthy(userId) && userId.value in old(db.users) ==>
      (status == 200 <==> Acceptable(old(db.users)[userId.value].points, betAmount, minesCount))
    ensures (Truthy(userId) && userId.value in old(db.users) &&
             !Acceptable(old(db.users)[userId.value].points, betAmount, minesCount)) ==> status == 400
    ensures status != 200 ==> unchanged(db)
    ensures status == 200 ==>
      var key := userId.value;
      var bet := betAmount.value;
      var mines := minesCount.GetOr(DEFAULT_MINES);
      && key in old(db.users)
      && gameId == old(db.nextGameId) && gameId !in old(db.games)
      && gameId in db.games
      && db.games == old(db.games)[gameId := NewGame(key, bet, autoCashOut, mines,
                                                     db.games[gameId].minePositions, now)]
      && |db.games[gameId].minePositions| == mines
      && Distinct(db.games[gameId].minePositions)
      && (forall p :: p in db.games[gameId].minePositions ==> InGrid(p))
      && db.users == old(db.users)[key := old(db.users)[key].(points := old(db.users)[key].points - bet)]
      && db.transactions == old(db.transactions) + [Transaction(key, MinesBet, -bet, "POINTS", now)]
      && userPoints == db.users[key].points
      && userPoints >= 0
    ensures db.KeepsEvents()
  {
    if !Truthy(userId) {
      return 400, 0, 0;
    }
    var key := userId.value;
    if key !in db.users {
      return 404, 0, 0;
    }
    var user := db.users[key];
    if betAmount.Some? && user.points < betAmount.value {
      return 400, 0, 0;
    }
    if betAmount.None? || betAmount.value < MIN_BET || betAmount.value > MAX_BET {
      return 400, 0, 0;
    }
    var mines := minesCount.GetOr(DEFAULT_MINES);
    if mines < 0 || mines > GRID_SIZE {
      return 400, 0, 0;
    }
    var bet := betAmount.value;
    var positions := GenerateMinePositions(mines, GRID_SIZE);
    gameId := db.AddGame(NewGame(user.id, bet, autoCashOut, mines, positions, now));
    db.UpdateUser(key, user.(points := user.points - bet));
    db.Log(Transaction(user.id, MinesBet, -bet, "POINTS", now));
    status, userPoints := 200, db.users[key].points;
  }
}
