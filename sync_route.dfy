/**
 * `POST /api/user/sync`: finds the user of a wallet, creating it on first
 * contact, and records the login.
 */
module SyncRoute {
  import opened Wrappers
  import opened Database
  import Text

  /** Points a new user starts with. */
  const INITIAL_POINTS: int := 1000

  /** The fields the route answers with. */
  datatype SyncResponse = SyncResponse(id: string, walletAddress: string, points: int,
                                       cryptoBalance: real, isAdmin: bool)

  function Summary(u: User): SyncResponse {
    SyncResponse(u.id, u.walletAddress, u.points, u.cryptoBalance, u.isAdmin)
  }

  /**
   * 400 without a wallet.  The wallet is lowercased and used as the id.  An
   * unknown wallet gets a new user with 1000 points, no crypto, no admin
   * flag and `isFirstLogin` set; a known one keeps its points and balance,
   * loses `isFirstLogin` and records the login time.  No other user
   * changes.
   */
  method Sync(db: Db, rawWalletAddress: Option<string>, now: int)
    returns (status: int, response: Option<SyncResponse>)
    requires db.Valid()
    modifies db
    ensures db.Valid()
    ensures db.transactions == old(db.transactions) && db.KeepsGames() && db.KeepsEvents()
    ensures status == 400 <==> !Truthy(rawWalletAddress)
    ensures status == 200 || status == 400
    ensures status == 400 ==> unchanged(db) && response.None?
    ensures status == 200 ==>
      var w := Text.Lower(rawWalletAddress.value);
      && w in db.users
      && db.users.Keys == old(db.users).Keys + {w}
      && (forall k :: k in old(db.users) && k != w ==> db.users[k] == old(db.users)[k])
      && (w !in old(db.users) ==>
            db.users[w] == User(w, w, INITIAL_POINTS, 0.0, false, true, now, None))
      && (w in old(db.users) ==>
            db.users[w] == old(db.users)[w].(isFirstLogin := false, lastLoginAt := Some(now)))
      && db.users[w].points == (if w in old(db.users) then old(db.users)[w].points else INITIAL_POINTS)
      && response == Some(Summary(db.users[w]))
  {
    if !Truthy(rawWalletAddress) {
      return 400, None;
    }
    var walletAddress := Text.Lower(rawWalletAddress.value);
    Text.LowerIdempotent(rawWalletAddress.value);
    var user: User;
    if walletAddress !in db.users {
      user := User(walletAddress, walletAddress, INITIAL_POINTS, 0.0, false, true, now, None);
      db.AddUser(user);
    } else {
      user := db.users[walletAddress].(isFirstLogin := false, lastLoginAt := Some(now));
      db.UpdateUser(walletAddress, user);
    }
    status, response := 200, Some(Summary(user));
  }
}
