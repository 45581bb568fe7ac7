/**
 * `/api/events`: `GET` lists the events still open or awaiting settlement,
 * soonest first; `POST` creates an event with its two outcomes, "Yes" and
 * "No", at even prices.
 */
module EventsRoute {
  import opened Wrappers
  import opened Database
  import Sorting
  import PrivyAuth

  /** A stored event with its id. */
  type Row = (nat, Event)

  /** Listed events: those that can still be traded or are waiting for settlement. */
  predicate Listed(e: Event) {
    e.status == Open || e.status == TradingClosed
  }

  function ListedRows(rows: seq<Row>): (r: seq<Row>)
    ensures forall x :: x in r <==> x in rows && Listed(x.1)
  {
    if rows == [] then []
    else
      var rest := ListedRows(rows[1..]);
      assert forall x :: x in rows <==> x == rows[0] || x in rows[1..];
      if Listed(rows[0].1) then [rows[0]] + rest else rest
  }

  function RowId(x: Row): nat {
    x.0
  }

  /** Filtering rows with distinct ids leaves rows with distinct ids. */
  lemma {:induction false} ListedKeepsDistinctIds(rows: seq<Row>)
    requires Sorting.DistinctBy(rows, RowId)
    ensures Sorting.DistinctBy(ListedRows(rows), RowId)
  {
    if rows != [] {
      assert Sorting.DistinctBy(rows[1..], RowId) by {
        forall i, j | 0 <= i < j < |rows[1..]|
          ensures RowId(rows[1..][i]) != RowId(rows[1..][j])
        {
          assert rows[1..][i] == rows[i + 1] && rows[1..][j] == rows[j + 1];
        }
      }
      ListedKeepsDistinctIds(rows[1..]);
      var rest := ListedRows(rows[1..]);
      forall y | y in rest
        ensures y.0 != rows[0].0
      {
        var k :| 0 <= k < |rows[1..]| && rows[1..][k] == y;
        assert y == rows[k + 1];
      }
      if Listed(rows[0].1) {
        var r := [rows[0]] + rest;
        forall i, j | 0 <= i < j < |r|
          ensures RowId(r[i]) != RowId(r[j])
        {
          assert r[j] == rest[j - 1];
          if i > 0 {
            assert r[i] == rest[i - 1];
          }
        }
      }
    }
  }

  /**
   * `GET`: every open or trading-closed event exactly as stored, each
   * once, none settled, ordered by event date, soonest first.
   */
  method Get(db: Db) returns (status: int, events: seq<Row>)
    ensures status == 200
    ensures forall x :: x in events <==> x.0 in db.events && db.events[x.0] == x.1 && Listed(x.1)
    ensures forall x :: x in events ==> x.1.status != Settled
    ensures forall i, j :: 0 <= i < j < |events| ==> events[i].1.eventDateTime <= events[j].1.eventDateTime
    ensures forall i, j :: 0 <= i < j < |events| ==> events[i].0 != events[j].0
  {
    var rows := Entries(db.events);
    var key := (x: Row) => x.1.eventDateTime;
    var listed := ListedRows(rows);
    assert Sorting.DistinctBy(rows, RowId);
    ListedKeepsDistinctIds(rows);
    Sorting.SortByKeepsDistinctBy(listed, key, RowId);
    events := Sorting.SortBy(listed, key);
    forall x
      ensures x in events <==> x in listed
    {
      Sorting.SortByMembers(listed, key, x);
    }
    status := 200;
  }

  /** The outcomes every new event is created with. */
  const DEFAULT_OUTCOMES: seq<Outcome> :=
    [Outcome("Yes", "The event will happen."), Outcome("No", "The event will not happen.")]

  /** A request value that JavaScript treats as true: present and not zero. */
  predicate TruthyNumber(n: Option<int>) {
    n.Some? && n.value != 0
  }

  /** The record `POST` stores: open, two outcomes, prices 0.5 / 0.5 and no shares yet. */
  function NewEvent(title: string, description: Option<string>, outcomeType: Option<string>,
                    eventDateTime: int, settlementDateTime: int, creatorId: string, now: int): (e: Event)
    ensures e.status == Open
    ensures |e.outcomes| == 2 && e.outcomes[0].name == "Yes" && e.outcomes[1].name == "No"
    ensures e.currentYesPrice == 0.5 && e.currentNoPrice == 0.5
    ensures e.currentYesPrice + e.currentNoPrice == 1.0
    ensures e.totalYesShares == 0.0 && e.totalNoShares == 0.0
    ensures e.title == title && e.creatorId == creatorId
    ensures e.eventDateTime == eventDateTime && e.settlementDateTime == settlementDateTime
  {
    Event(title, description, outcomeType, Open, eventDateTime, settlementDateTime, creatorId,
          DEFAULT_OUTCOMES, 0.5, 0.5, 0.0, 0.0, now)
  }

  /**
   * `POST`: 401 unless the header authenticates (the caller's admin flag
   * is not consulted), 400 without a title or either date; otherwise a new
   * event created by the caller's lowercased wallet, answered with 201.
   */
  method Post(db: Db, header: Option<string>, title: Option<string>, description: Option<string>,
              outcomeType: Option<string>, eventDateTime: Option<int>, settlementDateTime: Option<int>,
              now: int)
    returns (status: int, eventId: nat)
    requires db.Valid()
    modifies db
    ensures db.Valid()
    ensures db.users == old(db.users) && db.transactions == old(db.transactions) && db.KeepsGames()
    ensures status == 401 <==> !Truthy(header)
    ensures status == 400 <==>
      Truthy(header) && (!Truthy(title) || !TruthyNumber(eventDateTime) || !TruthyNumber(settlementDateTime))
    ensures status == 201 || status == 400 || status == 401
    ensures status != 201 ==> unchanged(db)
    ensures status == 201 ==>
      && eventId == old(db.nextEventId) && eventId !in old(db.events)
      && db.events == old(db.events)[eventId := NewEvent(title.value, description, outcomeType,
           eventDateTime.value, settlementDateTime.value,
           PrivyAuth.ValidatePrivyAuth(header).walletAddress.value, now)]
  {
    var auth := PrivyAuth.ValidatePrivyAuth(header);
    if !auth.authenticated || !Truthy(auth.walletAddress) {
      return 401, 0;
    }
    if !Truthy(title) || !TruthyNumber(eventDateTime) || !TruthyNumber(settlementDateTime) {
      return 400, 0;
    }
    var creatorId := auth.walletAddress.value;
    eventId := db.AddEvent(NewEvent(title.value, description, outcomeType, eventDateTime.value,
                                    settlementDateTime.value, creatorId, now));
    status := 201;
  }
}
