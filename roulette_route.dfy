/**
 * `POST /api/games/roulette/spin`: a spin costs 100 points; the prize the
 * client reports is then credited.  Each balance change is logged.
 */
module RouletteRoute {
  import opened Wrappers
  import opened Database
  import Text

  const SPIN_COST: int := 100

  /** What a spin credits: the prize when it is positive, nothing otherwise. */
  function Prize(prizeValue: int): (r: int)
    ensures r >= 0 && r >= prizeValue
    ensures r == 0 || r == prizeValue
  {
    if prizeValue > 0 then prizeValue else 0
  }

  /** The ledger entries a successful spin appends: the cost, then the prize if there is one. */
  function SpinEntries(userId: string, prizeValue: int, now: int): (r: seq<Transaction>)
    ensures |r| == if prizeValue > 0 then 2 else 1
    ensures r[0] == Transaction(userId, PointsWithdrawal, -SPIN_COST, "POINTS", now)
    ensures prizeValue > 0 ==> r[1] == Transaction(userId, Reward, prizeValue, "POINTS", now)
  {
    var debit := Transaction(userId, PointsWithdrawal, -SPIN_COST, "POINTS", now);
    if prizeValue > 0 then [debit, Transaction(userId, Reward, prizeValue, "POINTS", now)]
    else [debit]
  }

  /** The entries of a spin add up to its net change: the prize minus the cost. */
  lemma SpinEntriesSum(userId: string, prizeValue: int, now: int)
    ensures SumAmounts(SpinEntries(userId, prizeValue, now)) == Prize(prizeValue) - SPIN_COST
  {
    var r := SpinEntries(userId, prizeValue, now);
    assert SumAmounts(r) == r[0].amount + SumAmounts(r[1..]);
    if prizeValue > 0 {
      assert SumAmounts(r[1..]) == r[1].amount + SumAmounts(r[1..][1..]);
      assert r[1..][1..] == [];
    } else {
      assert r[1..] == [];
    }
  }

  /**
   * 400 without a wallet or with fewer than 100 points, 404 for an unknown
   * wallet, all three without any write.  A spin takes 100 points, credits a
   * positive prize, appends the matching entries to the ledger and reports
   * a net change equal to what it appended.
   */
  method Spin(db: Db, walletAddress: Option<string>, prizeValue: int, now: int)
    returns (status: int, netChange: int, userPoints: int)
    requires db.Valid()
    modifies db
    ensures db.Valid()
    ensures status == 400 <==>
      !Truthy(walletAddress) ||
      (Text.Lower(walletAddress.value) in old(db.users) &&
       old(db.users)[Text.Lower(walletAddress.value)].points < SPIN_COST)
    ensures status == 404 <==> Truthy(walletAddress) && Text.Lower(walletAddress.value) !in old(db.users)
    ensures status == 200 || status == 400 || status == 404
    ensures status != 200 ==> unchanged(db)
    ensures status == 200 ==>
      var key := Text.Lower(walletAddress.value);
      && key in old(db.users)
      && old(db.users)[key].points >= SPIN_COST
      && db.users == old(db.users)[key := old(db.users)[key].(points :=
           old(db.users)[key].points - SPIN_COST + Prize(prizeValue))]
      && db.transactions == old(db.transactions) + SpinEntries(key, prizeValue, now)
      && netChange == SumAmounts(db.transactions[|old(db.transactions)|..])
      && db.users[key].points == old(db.users)[key].points + netChange
      && userPoints == db.users[key].points
      && userPoints >= 0
    ensures db.KeepsGames() && db.KeepsEvents()
  {
    if !Truthy(walletAddress) {
      return 400, 0, 0;
    }
    var key := Text.Lower(walletAddress.value);
    if key !in db.users {
      return 404, 0, 0;
    }
    var user := db.users[key];
    if user.points < SPIN_COST {
      return 400, 0, 0;
    }
    ghost var before := db.transactions;
    // first unit of work: the cost and its ledger entry
    db.UpdateUser(key, user.(points := user.points - SPIN_COST));
    db.Log(Transaction(user.id, PointsWithdrawal, -SPIN_COST, "POINTS", now));
    userPoints := db.users[key].points;
    netChange := -SPIN_COST;
    if prizeValue > 0 {
      // second unit of work: the prize and its ledger entry
      var charged := db.users[key];
      db.UpdateUser(key, charged.(points := charged.points + prizeValue));
      db.Log(Transaction(user.id, Reward, prizeValue, "POINTS", now));
      userPoints := db.users[key].points;
      netChange := prizeValue - SPIN_COST;
    }
    status := 200;
    assert db.transactions[|before|..] == SpinEntries(key, prizeValue, now);
    SpinEntriesSum(key, prizeValue, now);
  }
}
