/**
 * `POST /api/games/mines/cashout`: ends an active game at its current
 * multiplier and credits the owner with floor(bet * multiplier) points.
 */
module MinesCashout {
  import opened Wrappers
  import opened Database

  datatype CashoutResponse = CashoutResponse(
    winAmount: int,
    multiplier: real,
    profit: int,
    userPoints: int,
    minePositions: seq<int>)

  /**
   * The route.  400 without a game id or user id, 404 for an unknown game,
   * 403 when `userId` is not exactly the owner's wallet, 400 for a game that
   * is not active or has a zero bet; none of these writes anything.
   * Otherwise, in one transaction, the game becomes cashed out recording
   * the multiplier and the win amount, and the owner's points grow by that
   * amount.  No ledger entry is written.
   */
  method Cashout(db: Db, gameId: Option<nat>, userId: Option<string>)
    returns (status: int, response: Option<CashoutResponse>)
    requires db.Valid()
    modifies db
    ensures db.Valid()
    ensures db.transactions == old(db.transactions) && db.nextGameId == old(db.nextGameId) && db.KeepsEvents()
    ensures status == 200 || status == 400 || status == 403 || status == 404
    ensures status != 200 ==> response.None? && unchanged(db)
    ensures gameId.None? || !Truthy(userId) ==> status == 400
    ensures gameId.Some? && Truthy(userId) && gameId.value !in old(db.games) ==> status == 404
    ensures gameId.Some? && Truthy(userId) && gameId.value in old(db.games) ==>
      var g := old(db.games)[gameId.value];
      && (g.userId != userId.value ==> status == 403)
      && (g.userId == userId.value ==>
            status == if g.gameStatus == Active && g.betAmount != 0 then 200 else 400)
    ensures status == 200 ==>
      var id := gameId.value;
      var g := old(db.games)[id];
      var owner := g.userId;
      var win := WinAmount(g.betAmount, g.currentMultiplier);
      && id in old(db.games)
      && owner == userId.value
      && g.gameStatus == Active
      && db.games == old(db.games)[id := g.(gameStatus := CashedOut,
                                            cashOutMultiplier := Some(g.currentMultiplier),
                                            winAmount := Some(win))]
      && db.users == old(db.users)[owner := old(db.users)[owner].(points := old(db.users)[owner].points + win)]
      && response == Some(CashoutResponse(win, g.currentMultiplier, win - g.betAmount,
                                          db.users[owner].points, g.minePositions))
  {
    if gameId.None? || !Truthy(userId) {
      return 400, None;
    }
    var id := gameId.value;
    if id !in db.games {
      return 404, None;
    }
    var game := db.games[id];
    var user := db.users[game.userId];
    if user.walletAddress != userId.value {
      return 403, None;
    }
    if game.gameStatus != Active {
      return 400, None;
    }
    if game.betAmount == 0 {
      return 400, None;
    }
    var winAmount := WinAmount(game.betAmount, game.currentMultiplier);
    db.UpdateGame(id, game.(gameStatus := CashedOut, cashOutMultiplier := Some(game.currentMultiplier),
                            winAmount := Some(winAmount)));
    db.UpdateUser(user.id, user.(points := user.points + winAmount));
    var updatedUser := db.users[user.id];
    status := 200;
    response := Some(CashoutResponse(winAmount, game.currentMultiplier, winAmount - game.betAmount,
                                     updatedUser.points, game.minePositions));
  }

  /**
   * A game that has been cashed out cannot be cashed out again: the second
   * request finds it no longer active and is refused without a write.
   */
  method CashoutTwice(db: Db, gameId: nat, userId: string)
    returns (first: int, second: int)
    requires db.Valid()
    modifies db
    ensures first == 200 ==> second == 400
    ensures db.Valid()
  {
    var response;
    first, response := Cashout(db, Some(gameId), Some(userId));
    second, response := Cashout(db, Some(gameId), Some(userId));
  }
}
