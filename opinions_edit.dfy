/**
 * The admin page for editing opinion events: a case-insensitive search
 * over the listed events and the counts shown under the list.
 */
module OpinionsEdit {
  import opened Wrappers
  import Text

  /** The fields of a listed event the page searches and counts; an event may have no description. */
  datatype ListedEvent = ListedEvent(id: string, title: string, description: Option<string>, status: string)

  /**
   * `event.description.toLowerCase()` on an event without a description
   * throws.  The test reaches the description only when the title does not
   * contain the term, since `||` stops at the first true operand.
   */
  predicate Throws(e: ListedEvent, searchTerm: string) {
    !Text.Contains(Text.Lower(e.title), Text.Lower(searchTerm)) && e.description.None?
  }

  /** The search term, lowered, occurs in the lowered title, description or status. */
  predicate Matches(e: ListedEvent, searchTerm: string) {
    var term := Text.Lower(searchTerm);
    || Text.Contains(Text.Lower(e.title), term)
    || (e.description.Some? && Text.Contains(Text.Lower(e.description.value), term))
    || Text.Contains(Text.Lower(e.status), term)
  }

  /**
   * `events.filter(...)`: the matching events, in list order, or `None`
   * when the test throws on some event, in which case the page fails to
   * render.
   */
  function FilteredEvents(events: seq<ListedEvent>, searchTerm: string): (r: Option<seq<ListedEvent>>)
    ensures r.None? <==> exists e :: e in events && Throws(e, searchTerm)
    ensures r.Some? ==> forall e :: e in r.value <==> e in events && Matches(e, searchTerm)
    ensures r.Some? ==> |r.value| <= |events|
  {
    if events == [] then Some([])
    else if Throws(events[0], searchTerm) then None
    else
      var rest := FilteredEvents(events[1..], searchTerm);
      assert forall e :: e in events <==> e == events[0] || e in events[1..];
      if rest.None? then None
      else if Matches(events[0], searchTerm) then Some([events[0]] + rest.value)
      else rest
  }

  /**
   * An event without a description whose title does not hold the term
   * makes the search throw; the same event is found by its title.
   */
  lemma MissingDescriptionThrows()
    ensures FilteredEvents([ListedEvent("1", "BTC", None, "OPEN")], "x").None?
    ensures FilteredEvents([ListedEvent("1", "BTC", None, "OPEN")], "b")
         == Some([ListedEvent("1", "BTC", None, "OPEN")])
  {
    var e := ListedEvent("1", "BTC", None, "OPEN");
    assert Text.Lower("x") == "x";
    assert Text.Lower("BTC") == "btc" by {
      assert Text.Lower("C") == "c";
      assert Text.Lower("TC") == "tc";
    }
    assert !Text.Contains("btc", "x") by {
      assert "btc"[1..] == "tc" && "tc"[1..] == "c" && "c"[1..] == "";
      assert !Text.Contains("", "x");
      assert !Text.Contains("c", "x");
      assert !Text.Contains("tc", "x");
    }
    assert Throws(e, "x");
    assert Text.Lower("b") == "b";
    assert Text.StartsWith("btc", "b");
    assert !Throws(e, "b") && Matches(e, "b");
    assert [e][1..] == [];
    assert FilteredEvents([e][1..], "b") == Some([]);
    assert [e] + [] == [e];
  }

  /** `r` is `s` with some elements dropped and the rest in their order. */
  predicate IsSubsequence<T(==)>(r: seq<T>, s: seq<T>)
    decreases |s|
  {
    if r == [] then true
    else if s == [] then false
    else (r[0] == s[0] && IsSubsequence(r[1..], s[1..])) || IsSubsequence(r, s[1..])
  }

  /** The filter keeps the events it keeps in the order of the list. */
  lemma {:induction false} FilteredIsSubsequence(events: seq<ListedEvent>, searchTerm: string)
    ensures FilteredEvents(events, searchTerm).Some? ==>
      IsSubsequence(FilteredEvents(events, searchTerm).value, events)
  {
    if events != [] && FilteredEvents(events, searchTerm).Some? {
      FilteredIsSubsequence(events[1..], searchTerm);
      var rest := FilteredEvents(events[1..], searchTerm).value;
      if Matches(events[0], searchTerm) {
        assert ([events[0]] + rest)[1..] == rest;
      } else if rest != [] {
        assert IsSubsequence(rest, events[1..]);
      }
    }
  }

  /**
   * Filtering a concatenation throws when filtering either part does, and
   * otherwise filters each part and keeps them in order.
   */
  lemma {:induction false} FilterAppend(a: seq<ListedEvent>, b: seq<ListedEvent>, searchTerm: string)
    ensures FilteredEvents(a + b, searchTerm).None? <==>
      FilteredEvents(a, searchTerm).None? || FilteredEvents(b, searchTerm).None?
    ensures FilteredEvents(a, searchTerm).Some? && FilteredEvents(b, searchTerm).Some? ==>
      FilteredEvents(a + b, searchTerm).value
        == FilteredEvents(a, searchTerm).value + FilteredEvents(b, searchTerm).value
  {
    if a != [] {
      assert (a + b)[1..] == a[1..] + b;
      FilterAppend(a[1..], b, searchTerm);
    } else {
      assert a + b == b;
    }
  }

  /** An empty search throws on nothing and shows every event. */
  lemma {:induction false} EmptySearchKeepsAll(events: seq<ListedEvent>)
    ensures FilteredEvents(events, "") == Some(events)
  {
    if events != [] {
      Text.ContainsEmpty(Text.Lower(events[0].title));
      assert Text.Lower("") == "";
      EmptySearchKeepsAll(events[1..]);
      assert events == [events[0]] + events[1..];
    }
  }

  /** Terms that differ only in case find the same events, or both throw. */
  lemma {:induction false} SearchIgnoresCase(events: seq<ListedEvent>, term: string, other: string)
    requires Text.SameIgnoringCase(term, other)
    ensures FilteredEvents(events, term) == FilteredEvents(events, other)
  {
    if events != [] {
      SearchIgnoresCase(events[1..], term, other);
    }
  }

  /** `events.filter(e => e.status === status).length` */
  function CountStatus(events: seq<ListedEvent>, status: string): (n: nat)
    ensures n <= |events|
  {
    if events == [] then 0
    else (if events[0].status == status then 1 else 0) + CountStatus(events[1..], status)
  }

  /** No event is both open and settled, so the two counts never exceed the total. */
  lemma {:induction false} OpenAndSettledWithinTotal(events: seq<ListedEvent>)
    ensures CountStatus(events, "OPEN") + CountStatus(events, "SETTLED") <= |events|
  {
    if events != [] {
      OpenAndSettledWithinTotal(events[1..]);
    }
  }
}
