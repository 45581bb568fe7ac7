/**
 * `/api/admin/users`: `PUT` grants or revokes another user's admin flag,
 * `GET` lists every user, newest first.  Both are for authenticated admins
 * only.
 */
module AdminUsersRoute {
  import opened Wrappers
  import opened Database
  import Sorting
  import Text
  import PrivyAuth

  /**
   * The first checks both handlers share: 401 unless the header
   * authenticates, 403 unless the caller is a stored admin, else 200.
   */
  function AdminCheck(users: map<string, User>, header: Option<string>): (status: int)
    ensures status == 401 <==> !Truthy(header)
    ensures status == 200 <==>
      Truthy(header) && Text.Lower(header.value) in users && users[Text.Lower(header.value)].isAdmin
    ensures status == 200 || status == 401 || status == 403
  {
    var auth := PrivyAuth.ValidatePrivyAuth(header);
    if !auth.authenticated || !Truthy(auth.walletAddress) then 401
    else if auth.walletAddress.value !in users || !users[auth.walletAddress.value].isAdmin then 403
    else 200
  }

  /**
   * `PUT`: after the admin check, 400 without a target or a boolean flag,
   * 403 when the lowercased target is the caller, 500 when no user has
   * that id (the update throws, so the route's 404 branch is never taken);
   * otherwise only the target's `isAdmin` changes.
   */
  method Put(db: Db, header: Option<string>, targetWalletAddress: Option<string>, isAdmin: Option<bool>)
    returns (status: int, updated: Option<User>)
    requires db.Valid()
    modifies db
    ensures db.Valid()
    ensures db.transactions == old(db.transactions) && db.KeepsGames() && db.KeepsEvents()
    ensures status != 200 ==> unchanged(db) && updated.None?
    ensures AdminCheck(old(db.users), header) != 200 ==> status == AdminCheck(old(db.users), header)
    ensures AdminCheck(old(db.users), header) == 200 ==>
      var caller := Text.Lower(header.value);
      && (!Truthy(targetWalletAddress) || isAdmin.None? ==> status == 400)
      && (Truthy(targetWalletAddress) && isAdmin.Some? ==>
            var target := Text.Lower(targetWalletAddress.value);
            && (target == caller ==> status == 403)
            && (target != caller && target !in old(db.users) ==> status == 500)
            && (target != caller && target in old(db.users) ==>
                  && status == 200
                  && db.users == old(db.users)[target := old(db.users)[target].(isAdmin := isAdmin.value)]
                  && updated == Some(db.users[target])))
  {
    var check := AdminCheck(db.users, header);
    if check != 200 {
      return check, None;
    }
    var caller := PrivyAuth.ValidatePrivyAuth(header).walletAddress.value;
    if !Truthy(targetWalletAddress) || isAdmin.None? {
      return 400, None;
    }
    var normalizedTargetAddress := Text.Lower(targetWalletAddress.value);
    if normalizedTargetAddress == caller {
      return 403, None;
    }
    if normalizedTargetAddress !in db.users {
      return 500, None;
    }
    var user := db.users[normalizedTargetAddress];
    db.UpdateUser(normalizedTargetAddress, user.(isAdmin := isAdmin.value));
    status, updated := 200, Some(db.users[normalizedTargetAddress]);
  }

  /** Ordered by `createdAt`, newest first. */
  function NewestFirst(users: seq<User>): seq<User> {
    Sorting.SortBy(users, (u: User) => -u.createdAt)
  }

  /** The rows of the user table, in the order the table yields them. */
  method AllUsers(db: Db) returns (rows: seq<User>)
    ensures |rows| == |db.users|
    ensures forall u :: u in rows <==> u in db.users.Values
  {
    var entries := Entries(db.users);
    rows := [];
    var i := 0;
    while i < |entries|
      invariant 0 <= i <= |entries|
      invariant |rows| == i
      invariant forall k :: 0 <= k < i ==> rows[k] == entries[k].1
    {
      rows := rows + [entries[i].1];
      i := i + 1;
    }
    forall u | u in db.users.Values
      ensures u in rows
    {
      var k :| k in db.users && db.users[k] == u;
      assert (k, u) in entries;
      var j :| 0 <= j < |entries| && entries[j] == (k, u);
      assert rows[j] == u;
    }
  }

  /**
   * `GET`: after the admin check, every user exactly once, ordered by
   * creation time, newest first.
   */
  method Get(db: Db, header: Option<string>) returns (status: int, users: seq<User>)
    ensures status == AdminCheck(db.users, header)
    ensures status != 200 ==> users == []
    ensures status == 200 ==>
      && |users| == |db.users|
      && (forall u :: u in users <==> u in db.users.Values)
      && (forall i, j :: 0 <= i < j < |users| ==> users[i].createdAt >= users[j].createdAt)
  {
    status := AdminCheck(db.users, header);
    if status != 200 {
      return status, [];
    }
    var rows := AllUsers(db);
    users := NewestFirst(rows);
    forall u
      ensures u in users <==> u in rows
    {
      Sorting.SortByMembers(rows, (u: User) => -u.createdAt, u);
    }
  }
}
