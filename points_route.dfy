/**
 * `/api/user/points`: `GET` reads a user's points, `PUT` adds to, subtracts
 * from or overwrites them.  Both look the user up by the lowercased wallet.
 */
module PointsRoute {
  import opened Wrappers
  import opened Database
  import Text

  datatype PointsResponse = PointsResponse(status: int, points: int)

  /** `GET`: 400 without a wallet, 404 for an unknown one, else the stored points. */
  function Get(db: Db, walletAddress: Option<string>): (r: PointsResponse)
    reads db
    ensures r.status == 400 <==> !Truthy(walletAddress)
    ensures r.status == 404 <==> Truthy(walletAddress) && Text.Lower(walletAddress.value) !in db.users
    ensures r.status == 200 <==> Truthy(walletAddress) && Text.Lower(walletAddress.value) in db.users
    ensures r.status == 200 ==> r.points == db.users[Text.Lower(walletAddress.value)].points
  {
    if !Truthy(walletAddress) then PointsResponse(400, 0)
    else
      var key := Text.Lower(walletAddress.value);
      if key !in db.users then PointsResponse(404, 0)
      else PointsResponse(200, db.users[key].points)
  }

  /** Wallets that differ only in letter case read the same record. */
  lemma GetIgnoresCase(db: Db, w1: string, w2: string)
    requires Text.SameIgnoringCase(w1, w2)
    ensures Get(db, Some(w1)) == Get(db, Some(w2))
  {
    Text.LowerAt(w1);
    Text.LowerAt(w2);
  }

  /**
   * The balance `PUT` computes from the stored `current` one: "add" adds,
   * "subtract" subtracts but never goes below zero, and "set" or any other
   * operation (or none) overwrites.
   */
  function ApplyOperation(operation: Option<string>, current: int, amount: int): (r: int)
    ensures operation == Some("add") ==> r == current + amount
    ensures operation == Some("subtract") ==>
      r >= 0 && r >= current - amount && (r == 0 || r == current - amount)
    ensures operation != Some("add") && operation != Some("subtract") ==> r == amount
  {
    if operation == Some("add") then current + amount
    else if operation == Some("subtract") then (if current - amount > 0 then current - amount else 0)
    else amount
  }

  /** The `points` field of a `PUT` body: missing, `null`, or a number. */
  datatype PointsField = Undefined | Null | Number(value: int)

  /** "add" and "subtract" only compute with `points`; any other operation stores it. */
  predicate Arithmetic(operation: Option<string>) {
    operation == Some("add") || operation == Some("subtract")
  }

  /** The number JavaScript arithmetic takes `points` to be: `null` counts as 0. */
  function Amount(points: PointsField): (n: int)
    requires !points.Undefined?
    ensures points.Null? ==> n == 0
    ensures points.Number? ==> n == points.value
  {
    if points.Null? then 0 else points.value
  }

  /** Adding or subtracting `null` leaves a non-negative balance as it was. */
  lemma NullAmountKeepsBalance(current: int)
    requires current >= 0
    ensures ApplyOperation(Some("add"), current, Amount(Null)) == current
    ensures ApplyOperation(Some("subtract"), current, Amount(Null)) == current
  {
  }

  /**
   * `PUT`: 400 without a wallet or when `points` is missing (only
   * `undefined` is refused), 404 for an unknown wallet.  A `null` amount
   * counts as 0 for "add" and "subtract"; any other operation tries to
   * store `null`, which the database refuses, and the route answers 500.
   * Otherwise only that user's points change, to the value the response
   * echoes.
   */
  method Put(db: Db, walletAddress: Option<string>, points: PointsField, operation: Option<string>)
    returns (status: int, newPoints: int)
    requires db.Valid()
    modifies db
    ensures db.Valid()
    ensures status == 400 <==> !Truthy(walletAddress) || points.Undefined?
    ensures status == 404 <==>
      Truthy(walletAddress) && !points.Undefined? && Text.Lower(walletAddress.value) !in old(db.users)
    ensures status == 500 <==>
      && Truthy(walletAddress) && points.Null? && Text.Lower(walletAddress.value) in old(db.users)
      && !Arithmetic(operation)
    ensures status == 200 || status == 400 || status == 404 || status == 500
    ensures status != 200 ==> db.users == old(db.users)
    ensures status == 200 ==>
      var key := Text.Lower(walletAddress.value);
      && key in old(db.users)
      && db.users == old(db.users)[key := old(db.users)[key].(points :=
           ApplyOperation(operation, old(db.users)[key].points, Amount(points)))]
      && newPoints == db.users[key].points
    ensures db.KeepsGames() && db.KeepsEvents() && db.transactions == old(db.transactions)
  {
    if !Truthy(walletAddress) || points.Undefined? {
      return 400, 0;
    }
    var key := Text.Lower(walletAddress.value);
    if key !in db.users {
      return 404, 0;
    }
    if points.Null? && !Arithmetic(operation) {
      return 500, 0;
    }
    var user := db.users[key];
    var updated := ApplyOperation(operation, user.points, Amount(points));
    db.users := db.users[key := user.(points := updated)];
    status, newPoints := 200, db.users[key].points;
  }
}
