/**
 * `POST /api/games/mines/reveal`: uncovers one cell of an active game.  A
 * mine loses the game; a safe cell raises the multiplier and wins the game
 * once every safe cell of the board is uncovered.
 */
module MinesReveal {
  import opened Wrappers
  import opened Database

  /**
   * `calculateMultiplier`: 1.0 while no safe cell is uncovered.  Beyond
   * that the value comes from a floating-point formula that is not part of
   * this model; `curve` supplies it.
   */
  function CalculateMultiplier(revealedSafeCells: int, curve: int -> real): (r: real)
    ensures revealedSafeCells == 0 ==> r == 1.0
    ensures revealedSafeCells != 0 ==> r == curve(revealedSafeCells)
  {
    if revealedSafeCells == 0 then 1.0 else curve(revealedSafeCells)
  }

  /** The entries of `cells` that are not mines, in order. */
  function SafeCells(cells: seq<int>, mines: seq<int>): seq<int> {
    if cells == [] then []
    else if cells[0] in mines then SafeCells(cells[1..], mines)
    else [cells[0]] + SafeCells(cells[1..], mines)
  }

  /** `revealedCells.filter(cell => !minePositions.includes(cell)).length`. */
  function SafeCount(cells: seq<int>, mines: seq<int>): nat {
    |SafeCells(cells, mines)|
  }

  lemma {:induction false} SafeCellsMembers(cells: seq<int>, mines: seq<int>)
    ensures forall x :: x in SafeCells(cells, mines) <==> x in cells && x !in mines
    ensures Distinct(cells) ==> Distinct(SafeCells(cells, mines))
  {
    if cells != [] {
      SafeCellsMembers(cells[1..], mines);
      assert forall x :: x in cells <==> x == cells[0] || x in cells[1..];
      if Distinct(cells) {
        assert Distinct(cells[1..]);
        assert cells[0] !in cells[1..];
      }
    }
  }

  /** With no repeats, the safe count is the number of distinct uncovered safe cells. */
  lemma SafeCountIsSize(cells: seq<int>, mines: seq<int>)
    requires Distinct(cells)
    ensures SafeCount(cells, mines) == |Elements(cells) - Elements(mines)|
  {
    SafeCellsMembers(cells, mines);
    ElementsSize(SafeCells(cells, mines));
    assert Elements(SafeCells(cells, mines)) == Elements(cells) - Elements(mines);
  }

  /** A board with `|mines|` distinct mines has 25 - |mines| safe cells. */
  lemma SafeBoardSize(mines: seq<int>)
    requires Distinct(mines)
    requires forall c :: c in mines ==> InGrid(c)
    ensures |Range(GRID_SIZE) - Elements(mines)| == GRID_SIZE - |mines|
  {
    RangeSize(GRID_SIZE);
    ElementsSize(mines);
    var board := Range(GRID_SIZE);
    var used := Elements(mines);
    forall c | c in used
      ensures c in board
    {
    }
    assert board == (board - used) + used;
    assert (board - used) * used == {};
  }

  /** What a reveal request does to a game. */
  datatype RevealOutcome = NotActive | OutOfGrid | AlreadyRevealed | HitMine | SafeContinue | SafeWin

  /**
   * The route's decision as written: any cell index that is neither
   * uncovered nor a mine counts as a safe cell, whether or not it is on
   * the board.
   */
  function RevealDecisionAsWritten(g: MinesGame, cell: int): RevealOutcome {
    if g.gameStatus != Active then NotActive
    else if cell in g.revealedCells then AlreadyRevealed
    else if cell in g.minePositions then HitMine
    else if SafeCount(g.revealedCells + [cell], g.minePositions) == GRID_SIZE - g.minesCount then SafeWin
    else SafeContinue
  }

  /**
   * A game started as written with a negative mine count: the loop of
   * `generateMinePositions` never runs, so the game is stored with that
   * count and no mines.  It is not a well-formed game, and the as-written
   * win test `safeCount === 25 - minesCount` asks for more than 25 safe
   * cells, so no sequence of distinct board cells ever wins it.
   */
  lemma NegativeMinesNeverWin(g: MinesGame, cell: int)
    requires g.minesCount < 0 && g.minePositions == []
    requires Distinct(g.revealedCells + [cell])
    requires forall c :: c in g.revealedCells + [cell] ==> InGrid(c)
    ensures !WellFormedGame(g)
    ensures RevealDecisionAsWritten(g, cell) != SafeWin
  {
    var cells := g.revealedCells + [cell];
    SafeCountIsSize(cells, g.minePositions);
    ElementsSize(cells);
    CellsBound(Elements(cells), GRID_SIZE);
    assert Elements(cells) - Elements(g.minePositions) == Elements(cells);
  }

  /** The decision with cells off the 25-cell board rejected first. */
  function RevealDecision(g: MinesGame, cell: int): RevealOutcome {
    if g.gameStatus == Active && !InGrid(cell) then OutOfGrid
    else RevealDecisionAsWritten(g, cell)
  }

  /**
   * Counterexample to the as-written decision: with 24 mines on cells
   * 0 .. 23, uncovering the non-existent cell 99 wins the game although
   * the one safe cell, 24, is still covered.  The guarded decision
   * rejects it.
   */
  lemma OutOfGridRevealWins()
    ensures var g := MinesGame("player", 100, None, 24, seq(24, i => i), [], Active, 1.0, None, None, 0);
      && WellFormedGame(g)
      && RevealDecisionAsWritten(g, 99) == SafeWin
      && InGrid(24) && 24 !in g.minePositions && 24 !in g.revealedCells + [99]
      && RevealDecision(g, 99) == OutOfGrid
  {
    var g := MinesGame("player", 100, None, 24, seq(24, i => i), [], Active, 1.0, None, None, 0);
    assert 99 !in g.minePositions;
    assert g.revealedCells + [99] == [99];
    assert SafeCells([99], g.minePositions) == [99] + SafeCells([], g.minePositions);
    assert 24 !in g.minePositions;
  }

  /** The safe cells of the board and the safe cells among `revealed`, as sets. */
  lemma SafeSets(mines: seq<int>, revealed: seq<int>)
    requires Distinct(mines) && (forall c :: c in mines ==> InGrid(c))
    requires Distinct(revealed) && (forall c :: c in revealed ==> InGrid(c))
    ensures Elements(revealed) - Elements(mines) <= Range(GRID_SIZE) - Elements(mines)
    ensures |Range(GRID_SIZE) - Elements(mines)| == GRID_SIZE - |mines|
    ensures SafeCount(revealed, mines) == |Elements(revealed) - Elements(mines)|
    ensures forall c :: c in Range(GRID_SIZE) <==> InGrid(c)
  {
    RangeSize(GRID_SIZE);
    SafeBoardSize(mines);
    SafeCountIsSize(revealed, mines);
    forall c | c in Elements(revealed) - Elements(mines)
      ensures c in Range(GRID_SIZE) - Elements(mines)
    {
      assert c in revealed;
    }
  }

  /** Once the safe count reaches the number of safe cells, every safe cell is uncovered. */
  lemma FullCountClearsBoard(mines: seq<int>, revealed: seq<int>)
    requires Distinct(mines) && (forall c :: c in mines ==> InGrid(c))
    requires Distinct(revealed) && (forall c :: c in revealed ==> InGrid(c))
    requires SafeCount(revealed, mines) == GRID_SIZE - |mines|
    ensures forall c :: InGrid(c) && c !in mines ==> c in revealed
  {
    SafeSets(mines, revealed);
    var board := Range(GRID_SIZE) - Elements(mines);
    var safe := Elements(revealed) - Elements(mines);
    SubsetOfSameSize(safe, board);
    forall c | InGrid(c) && c !in mines
      ensures c in revealed
    {
      assert c in board;
    }
  }

  /** Once every safe cell is uncovered, the safe count is the number of safe cells. */
  lemma ClearedBoardFullCount(mines: seq<int>, revealed: seq<int>)
    requires Distinct(mines) && (forall c :: c in mines ==> InGrid(c))
    requires Distinct(revealed) && (forall c :: c in revealed ==> InGrid(c))
    requires forall c :: InGrid(c) && c !in mines ==> c in revealed
    ensures SafeCount(revealed, mines) == GRID_SIZE - |mines|
  {
    SafeSets(mines, revealed);
    var board := Range(GRID_SIZE) - Elements(mines);
    var safe := Elements(revealed) - Elements(mines);
    forall c | c in board
      ensures c in safe
    {
      assert InGrid(c);
    }
    assert safe == board;
  }

  /**
   * With cells off the board rejected, a safe reveal wins exactly when
   * every safe cell of the board is uncovered afterwards.
   */
  lemma WinIffBoardCleared(g: MinesGame, cell: int)
    requires WellFormedGame(g)
    requires RevealDecision(g, cell) == SafeContinue || RevealDecision(g, cell) == SafeWin
    ensures RevealDecision(g, cell) == SafeWin <==>
      forall c :: InGrid(c) && c !in g.minePositions ==> c in g.revealedCells + [cell]
  {
    var revealed := g.revealedCells + [cell];
    assert Distinct(revealed);
    assert forall c :: c in revealed ==> InGrid(c);
    if RevealDecision(g, cell) == SafeWin {
      FullCountClearsBoard(g.minePositions, revealed);
    }
    if forall c :: InGrid(c) && c !in g.minePositions ==> c in revealed {
      ClearedBoardFullCount(g.minePositions, revealed);
    }
  }

  /**
   * The game after an accepted safe reveal: the cell is appended, the
   * multiplier recomputed, and the game won, with floor(bet * multiplier)
   * as its win amount, exactly when every safe cell is uncovered.
   * Nothing else changes, and the game stays well formed.
   */
  function AfterSafeReveal(g: MinesGame, cell: int, curve: int -> real): (r: MinesGame)
    requires WellFormedGame(g)
    requires RevealDecision(g, cell) == SafeContinue || RevealDecision(g, cell) == SafeWin
    ensures r.revealedCells == g.revealedCells + [cell]
    ensures r.gameStatus == Won || r.gameStatus == Active
    ensures r.gameStatus == Won <==> RevealDecision(g, cell) == SafeWin
    ensures r.gameStatus == Won <==>
      forall c :: InGrid(c) && c !in g.minePositions ==> c in r.revealedCells
    ensures r.currentMultiplier == CalculateMultiplier(SafeCount(r.revealedCells, g.minePositions), curve)
    ensures r.winAmount == if r.gameStatus == Won then Some(WinAmount(g.betAmount, r.currentMultiplier))
                           else g.winAmount
    ensures r == g.(revealedCells := r.revealedCells, gameStatus := r.gameStatus,
                    currentMultiplier := r.currentMultiplier, winAmount := r.winAmount)
    ensures WellFormedGame(r)
  {
    var revealed := g.revealedCells + [cell];
    var safe := SafeCount(revealed, g.minePositions);
    var mult := CalculateMultiplier(safe, curve);
    WinIffBoardCleared(g, cell);
    if safe == GRID_SIZE - g.minesCount then
      g.(revealedCells := revealed, gameStatus := Won, currentMultiplier := mult,
         winAmount := Some(WinAmount(g.betAmount, mult)))
    else
      g.(revealedCells := revealed, gameStatus := Active, currentMultiplier := mult)
  }

  /** The answer to an accepted reveal. */
  datatype RevealResponse = RevealResponse(
    isMine: bool,
    cellIndex: int,
    gameStatus: GameStatus,
    revealedCount: int,
    currentMultiplier: real,
    minePositions: Option<seq<int>>)

  /**
   * The route.  500 without a game id (the lookup throws), 404 for an
   * unknown game, 400 with nothing written for a game that is not active,
   * a cell off the board or a cell already uncovered.  A mine marks the
   * game lost and answers 400 with the mines; the stored multiplier and
   * win amount are kept.  A safe cell is appended to the uncovered cells
   * and sets the multiplier; it wins the game, with a win amount of
   * floor(bet * multiplier), when the last safe cell is uncovered.  Mine
   * positions are sent only once the game is over, and user points never
   * change here.
   */
  method Reveal(db: Db, gameId: Option<nat>, cellIndex: int, curve: int -> real)
    returns (status: int, response: Option<RevealResponse>)
    requires db.Valid()
    modifies db
    ensures db.Valid()
    ensures db.users == old(db.users) && db.transactions == old(db.transactions)
    ensures db.nextGameId == old(db.nextGameId) && db.KeepsEvents()
    ensures gameId.None? ==> status == 500 && response.None? && unchanged(db)
    ensures gameId.Some? && gameId.value !in old(db.games) ==>
      status == 404 && response.None? && unchanged(db)
    ensures gameId.Some? && gameId.value in old(db.games) ==>
      var id := gameId.value;
      var g := old(db.games)[id];
      var d := RevealDecision(g, cellIndex);
      var revealed := g.revealedCells + [cellIndex];
      && (d == NotActive || d == OutOfGrid || d == AlreadyRevealed ==>
            status == 400 && response.None? && unchanged(db))
      && (d == HitMine ==>
            && status == 400
            && db.games == old(db.games)[id := g.(revealedCells := revealed, gameStatus := Lost)]
            && response == Some(RevealResponse(true, cellIndex, Lost, |revealed|, 0.0, Some(g.minePositions))))
      && (d == SafeContinue || d == SafeWin ==>
            var r := AfterSafeReveal(g, cellIndex, curve);
            && status == 200
            && db.games == old(db.games)[id := r]
            && response == Some(RevealResponse(false, cellIndex, r.gameStatus, |revealed|,
                 r.currentMultiplier, if r.gameStatus == Won then Some(g.minePositions) else None)))
  {
    if gameId.None? {
      return 500, None;
    }
    var id := gameId.value;
    if id !in db.games {
      return 404, None;
    }
    var g := db.games[id];
    if g.gameStatus != Active {
      assert RevealDecision(g, cellIndex) == NotActive;
      return 400, None;
    }
    if !InGrid(cellIndex) {
      assert RevealDecision(g, cellIndex) == OutOfGrid;
      return 400, None;
    }
    if cellIndex in g.revealedCells {
      assert RevealDecision(g, cellIndex) == AlreadyRevealed;
      return 400, None;
    }
    var newRevealed := g.revealedCells + [cellIndex];
    if cellIndex in g.minePositions {
      assert RevealDecision(g, cellIndex) == HitMine;
      db.UpdateGame(id, g.(revealedCells := newRevealed, gameStatus := Lost));
      return 400, Some(RevealResponse(true, cellIndex, Lost, |newRevealed|, 0.0, Some(g.minePositions)));
    }
    var safeCellsRevealed := SafeCount(newRevealed, g.minePositions);
    var currentMultiplier := CalculateMultiplier(safeCellsRevealed, curve);
    var gameStatus := Active;
    var winAmount := g.winAmount;
    if safeCellsRevealed == GRID_SIZE - g.minesCount {
      gameStatus := Won;
      winAmount := Some(WinAmount(g.betAmount, currentMultiplier));
    }
    var updated := g.(revealedCells := newRevealed, gameStatus := gameStatus,
                      currentMultiplier := currentMultiplier, winAmount := winAmount);
    assert updated == AfterSafeReveal(g, cellIndex, curve);
    db.UpdateGame(id, updated);
    status := 200;
    response := Some(RevealResponse(false, cellIndex, gameStatus, |newRevealed|, currentMultiplier,
                                    if gameStatus != Active then Some(g.minePositions) else None));
  }
}
