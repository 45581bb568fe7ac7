/**
 * `POST /api/auth/login`: finds or creates the user of a wallet, granting a
 * new user its 1000-point welcome bonus.
 */
module LoginRoute {
  import opened Wrappers
  import opened Database
  import Text

  /** The welcome bonus of a new user. */
  const BONUS_POINTS: int := 1000

  const NEW_USER_MESSAGE: string := "Welcome! You received 1000 bonus points!"
  const RETURNING_USER_MESSAGE: string := "Welcome back!"

  datatype LoginResponse = LoginResponse(user: User, isNewUser: bool, message: string)

  /**
   * 400 without a wallet.  The lowercased wallet is looked up; when no
   * user has it, one is created with it as id and wallet, 1000 points and
   * the login time, and the answer says `isNewUser` with the bonus
   * message.  A known user only gets its login time recorded and
   * `isFirstLogin` cleared, and is welcomed back.
   */
  method Login(db: Db, walletAddress: Option<string>, now: int)
    returns (status: int, response: Option<LoginResponse>)
    requires db.Valid()
    modifies db
    ensures db.Valid()
    ensures db.transactions == old(db.transactions) && db.KeepsGames() && db.KeepsEvents()
    ensures status == 400 <==> !Truthy(walletAddress)
    ensures status == 200 || status == 400
    ensures status == 400 ==> unchanged(db) && response.None?
    ensures status == 200 ==>
      var w := Text.Lower(walletAddress.value);
      && response.Some?
      && w in db.users
      && db.users.Keys == old(db.users).Keys + {w}
      && (forall k :: k in old(db.users) && k != w ==> db.users[k] == old(db.users)[k])
      && (response.value.isNewUser <==> w !in old(db.users))
      && (response.value.message == NEW_USER_MESSAGE <==> response.value.isNewUser)
      && (w !in old(db.users) ==>
            db.users[w] == User(w, w, BONUS_POINTS, 0.0, false, false, now, Some(now)))
      && (w in old(db.users) ==>
            db.users[w] == old(db.users)[w].(isFirstLogin := false, lastLoginAt := Some(now)))
      && response.value.user == db.users[w]
  {
    if !Truthy(walletAddress) {
      return 400, None;
    }
    var key := Text.Lower(walletAddress.value);
    Text.LowerIdempotent(walletAddress.value);
    var user: User;
    var isNewUser := false;
    if key !in db.users {
      user := User(key, key, BONUS_POINTS, 0.0, false, false, now, Some(now));
      db.AddUser(user);
      isNewUser := true;
    } else {
      user := db.users[key].(lastLoginAt := Some(now), isFirstLogin := false);
      db.UpdateUser(key, user);
    }
    var message := if isNewUser then NEW_USER_MESSAGE else RETURNING_USER_MESSAGE;
    status, response := 200, Some(LoginResponse(user, isNewUser, message));
  }
}
