/**
 * Ordering of query results (`orderBy` in the database queries): a stable
 * insertion sort by an integer key, proved to return an ordered permutation.
 * A descending order is a sort by the negated key.  `Window` is the
 * `skip`/`take` paging applied to a sorted result.
 */
module Sorting {

  /** `s` is ordered by non-decreasing `key`. */
  ghost predicate SortedBy<T>(s: seq<T>, key: T -> int) {
    forall i, j :: 0 <= i < j < |s| ==> key(s[i]) <= key(s[j])
  }

  /** Inserts `x` into the ordered `s` before the first element whose key is not smaller. */
  function Insert<T>(x: T, s: seq<T>, key: T -> int): (r: seq<T>)
    requires SortedBy(s, key)
    ensures SortedBy(r, key)
    ensures multiset(r) == multiset(s) + multiset{x}
    ensures |r| == |s| + 1
  {
    if s == [] then [x]
    else if key(x) <= key(s[0]) then [x] + s
    else
      var rest := Insert(x, s[1..], key);
      assert forall k :: 0 <= k < |rest| ==> key(s[0]) <= key(rest[k]) by {
        forall k | 0 <= k < |rest| ensures key(s[0]) <= key(rest[k]) {
          assert rest[k] in multiset(rest);
          assert rest[k] == x || rest[k] in multiset(s[1..]);
          if rest[k] != x {
            var j :| 0 <= j < |s[1..]| && s[1..][j] == rest[k];
            assert s[j + 1] == rest[k];
          }
        }
      }
      assert s == [s[0]] + s[1..];
      [s[0]] + rest
  }

  /** `s` ordered by `key`, ties kept in their original order. */
  function SortBy<T>(s: seq<T>, key: T -> int): (r: seq<T>)
    ensures SortedBy(r, key)
    ensures multiset(r) == multiset(s)
    ensures |r| == |s|
  {
    if s == [] then []
    else
      assert s == [s[0]] + s[1..];
      Insert(s[0], SortBy(s[1..], key), key)
  }

  /** Sorting keeps exactly the elements it was given. */
  lemma SortByMembers<T>(s: seq<T>, key: T -> int, x: T)
    ensures x in SortBy(s, key) <==> x in s
  {
    var r := SortBy(s, key);
    assert x in r <==> x in multiset(r);
    assert x in s <==> x in multiset(s);
  }

  /** A result page (`skip: offset, take: limit`): at most `limit` elements, starting at `offset`. */
  function Window<T>(s: seq<T>, offset: nat, limit: nat): (r: seq<T>)
    ensures |r| <= limit
    ensures offset + |r| <= |s| || r == []
    ensures forall i :: 0 <= i < |r| ==> r[i] == s[offset + i]
    ensures offset + limit <= |s| ==> |r| == limit
    ensures offset <= |s| ==> |r| == if offset + limit <= |s| then limit else |s| - offset
  {
    if offset >= |s| then []
    else if offset + limit <= |s| then s[offset..offset + limit]
    else s[offset..]
  }

  /** A page of a sorted result holds elements of the input, still in order. */
  lemma WindowOfSorted<T>(s: seq<T>, key: T -> int, offset: nat, limit: nat)
    ensures forall x :: x in Window(SortBy(s, key), offset, limit) ==> x in s
    ensures SortedBy(Window(SortBy(s, key), offset, limit), key)
  {
    var ordered := SortBy(s, key);
    var page := Window(ordered, offset, limit);
    forall x | x in page
      ensures x in s
    {
      var i :| 0 <= i < |page| && page[i] == x;
      assert x == ordered[offset + i];
      SortByMembers(s, key, x);
    }
    forall i, j | 0 <= i < j < |page|
      ensures key(page[i]) <= key(page[j])
    {
      assert page[i] == ordered[offset + i] && page[j] == ordered[offset + j];
    }
  }

  /** A page holds no element more often than the list it was cut from. */
  lemma WindowSubMultiset<T>(s: seq<T>, offset: nat, limit: nat)
    ensures multiset(Window(s, offset, limit)) <= multiset(s)
  {
    if offset < |s| {
      var end := if offset + limit <= |s| then offset + limit else |s|;
      assert s == s[..offset] + s[offset..end] + s[end..];
      assert Window(s, offset, limit) == s[offset..end];
    }
  }

  /** No two positions of `s` carry the same `id`. */
  ghost predicate DistinctBy<T, U>(s: seq<T>, id: T -> U) {
    forall i, j :: 0 <= i < j < |s| ==> id(s[i]) != id(s[j])
  }

  /** An element at two positions of a list is counted twice. */
  lemma RepeatCountsTwice<T>(s: seq<T>, i: int, j: int)
    requires 0 <= i < j < |s| && s[i] == s[j]
    ensures multiset(s)[s[i]] >= 2
  {
    assert s == s[..j] + [s[j]] + s[j + 1..];
    assert s[i] in s[..j];
  }

  /** An element counted twice sits at two positions. */
  lemma {:induction false} TwiceCountedRepeats<T>(s: seq<T>, x: T) returns (i: int, j: int)
    requires multiset(s)[x] >= 2
    ensures 0 <= i < j < |s| && s[i] == x && s[j] == x
  {
    assert s == [s[0]] + s[1..];
    if s[0] == x {
      assert x in multiset(s[1..]);
      var k :| 0 <= k < |s[1..]| && s[1..][k] == x;
      i, j := 0, k + 1;
    } else {
      var a, b := TwiceCountedRepeats(s[1..], x);
      i, j := a + 1, b + 1;
    }
  }

  /** Sorting keeps distinct ids distinct. */
  lemma SortByKeepsDistinctBy<T, U>(s: seq<T>, key: T -> int, id: T -> U)
    requires DistinctBy(s, id)
    ensures DistinctBy(SortBy(s, key), id)
  {
    var r := SortBy(s, key);
    forall i, j | 0 <= i < j < |r|
      ensures id(r[i]) != id(r[j])
    {
      if r[i] == r[j] {
        RepeatCountsTwice(r, i, j);
        var p, q := TwiceCountedRepeats(s, r[i]);
        assert false;
      } else {
        assert r[i] in multiset(s) && r[j] in multiset(s);
        var p :| 0 <= p < |s| && s[p] == r[i];
        var q :| 0 <= q < |s| && s[q] == r[j];
      }
    }
  }
}
