/**
 * `ORDER BY key ASC ... LIMIT n` over a result set whose row order is not
 * fixed: the rows come in some enumeration `order` (SQLite's scan order, or
 * the order `RANDOM()` happened to assign), are sorted stably by an integer
 * key and cut at the limit.  Every caller quantifies over the enumeration, so
 * any order among rows with equal keys is a possible outcome.
 */
module Ranking {

  predicate Distinct<T(==)>(s: seq<T>) {
    forall i, j :: 0 <= i < j < |s| ==> s[i] != s[j]
  }

  /** `s` lists every element of `elems` exactly once. */
  predicate IsEnumeration<T(==)>(s: seq<T>, elems: set<T>) {
    Distinct(s) && (forall x :: x in s ==> x in elems) && (forall x :: x in elems ==> x in s)
  }

  predicate SortedBy<T>(s: seq<T>, key: T -> int) {
    forall i, j :: 0 <= i < j < |s| ==> key(s[i]) <= key(s[j])
  }

  /** An enumeration is as long as the set it enumerates. */
  lemma {:induction false} EnumerationLength<T>(s: seq<T>, elems: set<T>)
    requires IsEnumeration(s, elems)
    ensures |s| == |elems|
  {
    if s != [] {
      var rest := elems - {s[0]};
      forall x | x in s[1..] ensures x in rest {
        var k :| 1 <= k < |s| && s[k] == x;
      }
      EnumerationLength(s[1..], rest);
    }
  }

  /** Every finite set has an enumeration. */
  lemma {:induction false} EnumerationExists<T>(elems: set<T>)
    ensures exists s :: IsEnumeration(s, elems)
  {
    if elems == {} {
      assert IsEnumeration([], elems);
    } else {
      var x :| x in elems;
      EnumerationExists(elems - {x});
      var s :| IsEnumeration(s, elems - {x});
      assert IsEnumeration([x] + s, elems);
    }
  }

  /** Puts `x` in front of the first element whose key is at least its own,
      so that `x` precedes the elements it ties with. */
  function Insert<T(==)>(x: T, s: seq<T>, key: T -> int): (r: seq<T>)
    ensures multiset(r) == multiset(s) + multiset{x}
  {
    if s == [] || key(x) <= key(s[0]) then
      [x] + s
    else
      assert s == [s[0]] + s[1..];
      [s[0]] + Insert(x, s[1..], key)
  }

  /** Every element of `Insert(x, s, key)` is `x` or an element of `s`. */
  lemma InsertFrom<T>(x: T, s: seq<T>, key: T -> int, y: T)
    requires y in Insert(x, s, key)
    ensures y == x || y in s
  {
    assert y in multiset(Insert(x, s, key));
  }

  lemma {:induction false} InsertSorted<T>(x: T, s: seq<T>, key: T -> int)
    requires SortedBy(s, key)
    ensures SortedBy(Insert(x, s, key), key)
  {
    if s != [] && key(x) > key(s[0]) {
      var tail := Insert(x, s[1..], key);
      InsertSorted(x, s[1..], key);
      forall k | 0 <= k < |tail| ensures key(s[0]) <= key(tail[k]) {
        InsertFrom(x, s[1..], key, tail[k]);
      }
    }
  }

  lemma {:induction false} InsertDistinct<T>(x: T, s: seq<T>, key: T -> int)
    requires Distinct(s) && x !in s
    ensures Distinct(Insert(x, s, key))
  {
    if s != [] && key(x) > key(s[0]) {
      var tail := Insert(x, s[1..], key);
      InsertDistinct(x, s[1..], key);
      forall k | 0 <= k < |tail| ensures s[0] != tail[k] {
        InsertFrom(x, s[1..], key, tail[k]);
      }
    }
  }

  lemma DistinctCons<T>(s: seq<T>)
    requires s != [] && Distinct(s)
    ensures s[0] !in s[1..] && Distinct(s[1..])
  {
    forall k | 0 <= k < |s| - 1 ensures s[1..][k] != s[0] {
      assert s[1..][k] == s[k + 1];
    }
  }

  /** Stable insertion sort by `key`, ascending. */
  function SortBy<T(==)>(s: seq<T>, key: T -> int): (r: seq<T>)
    ensures multiset(r) == multiset(s) && |r| == |s|
    ensures SortedBy(r, key)
    ensures Distinct(s) ==> Distinct(r)
  {
    if s == [] then
      []
    else
      assert s == [s[0]] + s[1..];
      var sorted := SortBy(s[1..], key);
      InsertSorted(s[0], sorted, key);
      if Distinct(s) then
        DistinctCons(s);
        assert s[0] !in sorted by {
          assert s[0] !in multiset(s[1..]);
        }
        InsertDistinct(s[0], sorted, key);
        Insert(s[0], sorted, key)
      else
        Insert(s[0], sorted, key)
  }

  /** SQLite's `LIMIT n`: the first `n` rows, or all of them when `n` is
      negative or at least the number of rows. */
  function Limit<T>(s: seq<T>, limit: int): (r: seq<T>)
    ensures |r| == if 0 <= limit < |s| then limit else |s|
    ensures r == s[..|r|]
    ensures multiset(r) <= multiset(s)
    ensures Distinct(s) ==> Distinct(r)
  {
    if 0 <= limit < |s| then
      assert s == s[..limit] + s[limit..];
      s[..limit]
    else s
  }

  /** `ORDER BY key ASC LIMIT limit` over the rows enumerated by `order`. */
  function Lowest<T(==)>(order: seq<T>, key: T -> int, limit: int): (r: seq<T>)
    ensures |r| == if 0 <= limit < |order| then limit else |order|
    ensures multiset(r) <= multiset(order)
    ensures (limit < 0 || limit >= |order|) ==> multiset(r) == multiset(order)
    ensures Distinct(order) ==> Distinct(r)
    ensures SortedBy(r, key)
    ensures forall x, y :: x in order && x !in r && y in r ==> key(y) <= key(x)
  {
    var sorted := SortBy(order, key);
    var r := Limit(sorted, limit);
    PrefixHoldsLowest(sorted, key, r);
    assert SortedBy(r, key);
    assert forall x :: x in order ==> x in sorted by {
      forall x | x in order ensures x in sorted {
        assert x in multiset(sorted);
      }
    }
    r
  }

  /** `Lowest` over an enumeration of `elems`, stated about `elems`: distinct
      members of `elems`, as many as the limit allows, the lowest keys, and
      all of `elems` when nothing is cut. */
  lemma LowestOfEnumeration<T>(order: seq<T>, elems: set<T>, key: T -> int, limit: int)
    requires IsEnumeration(order, elems)
    ensures var r := Lowest(order, key, limit);
            && Distinct(r) && (forall x :: x in r ==> x in elems)
            && |r| == (if 0 <= limit < |elems| then limit else |elems|)
            && (forall x, y :: x in elems && x !in r && y in r ==> key(y) <= key(x))
            && ((limit < 0 || limit >= |elems|) ==> forall x :: x in elems ==> x in r)
  {
    var r := Lowest(order, key, limit);
    EnumerationLength(order, elems);
    forall x | x in r ensures x in elems {
      assert x in multiset(r);
    }
    if limit < 0 || limit >= |elems| {
      forall x | x in elems ensures x in r {
        assert x in multiset(order);
      }
    }
  }

  /** A prefix of a sorted sequence holds its lowest keys. */
  lemma PrefixHoldsLowest<T>(sorted: seq<T>, key: T -> int, r: seq<T>)
    requires SortedBy(sorted, key) && |r| <= |sorted| && r == sorted[..|r|]
    ensures forall x, y :: x in sorted && x !in r && y in r ==> key(y) <= key(x)
  {
    forall x, y | x in sorted && x !in r && y in r ensures key(y) <= key(x) {
      var j :| 0 <= j < |sorted| && sorted[j] == x;
      var i :| 0 <= i < |r| && r[i] == y;
      assert sorted[i] == y;
      assert forall k :: 0 <= k < |r| ==> sorted[k] == r[k] && r[k] != x;
    }
  }

  lemma ConsAppend<T>(a: T, b: seq<T>, c: seq<T>)
    ensures [a] + (b + c) == ([a] + b) + c
  {
  }

  lemma SortByCons<T>(x: T, s: seq<T>, key: T -> int)
    ensures SortBy([x] + s, key) == Insert(x, SortBy(s, key), key)
  {
    assert ([x] + s)[0] == x && ([x] + s)[1..] == s;
  }

  /** A sorted run followed by rows whose keys are no smaller keeps its place
      at the front under the stable sort. */
  lemma {:induction false} SortByKeepsSortedPrefix<T>(front: seq<T>, rest: seq<T>, key: T -> int)
    requires SortedBy(front, key)
    requires forall x, y :: x in front && y in rest ==> key(x) <= key(y)
    ensures SortBy(front + rest, key) == front + SortBy(rest, key)
  {
    if front == [] {
      assert front + rest == rest;
    } else {
      var sr := SortBy(rest, key);
      TailKeepsOrder(front, rest, key);
      SortByKeepsSortedPrefix(front[1..], rest, key);
      HeadGoesFirst(front, rest, sr, key);
      SortByConsFront(front, rest, sr, key);
    }
  }

  /** One step of `SortByKeepsSortedPrefix`: a head no larger than what
      follows it stays in front. */
  lemma SortByConsFront<T>(front: seq<T>, rest: seq<T>, sr: seq<T>, key: T -> int)
    requires front != [] && SortBy(front[1..] + rest, key) == front[1..] + sr
    requires var s := front[1..] + sr; s == [] || key(front[0]) <= key(s[0])
    ensures SortBy(front + rest, key) == front + sr
  {
    var f, tail := front[0], front[1..];
    assert front == [f] + tail;
    calc {
      SortBy(front + rest, key);
      { ConsAppend(f, tail, rest); }
      SortBy([f] + (tail + rest), key);
      { SortByCons(f, tail + rest, key); }
      Insert(f, tail + sr, key);
      [f] + (tail + sr);
      { ConsAppend(f, tail, sr); }
      front + sr;
    }
  }

  /** The premises of `SortByKeepsSortedPrefix` hold again without the head. */
  lemma TailKeepsOrder<T>(front: seq<T>, rest: seq<T>, key: T -> int)
    requires front != [] && SortedBy(front, key)
    requires forall x, y :: x in front && y in rest ==> key(x) <= key(y)
    ensures SortedBy(front[1..], key)
    ensures forall x, y :: x in front[1..] && y in rest ==> key(x) <= key(y)
  {
    forall x | x in front[1..] ensures x in front {
      var k :| 0 <= k < |front| - 1 && front[1..][k] == x;
      assert front[k + 1] == x;
    }
  }

  /** The head of a sorted run is no larger than what follows it. */
  lemma HeadGoesFirst<T>(front: seq<T>, rest: seq<T>, sr: seq<T>, key: T -> int)
    requires front != [] && SortedBy(front, key) && multiset(sr) == multiset(rest)
    requires forall x, y :: x in front && y in rest ==> key(x) <= key(y)
    ensures var s := front[1..] + sr; s == [] || key(front[0]) <= key(s[0])
  {
    var s := front[1..] + sr;
    if s != [] {
      if |front| > 1 {
        assert s[0] == front[1];
      } else {
        assert s[0] == sr[0];
        assert sr[0] in multiset(rest);
      }
    }
  }

  /** Distinct members of `elems` followed by an enumeration of the others
      enumerate `elems`. */
  lemma ConcatEnumeration<T>(pick: seq<T>, rest: seq<T>, elems: set<T>)
    requires Distinct(pick) && forall x :: x in pick ==> x in elems
    requires IsEnumeration(rest, elems - set x | x in pick)
    ensures IsEnumeration(pick + rest, elems)
  {
    var order := pick + rest;
    forall i, j | 0 <= i < j < |order| ensures order[i] != order[j] {
      if i < |pick| && j >= |pick| {
        assert order[i] == pick[i];
        assert order[j] == rest[j - |pick|] && rest[j - |pick|] in rest;
      } else if j < |pick| {
        assert order[i] == pick[i] && order[j] == pick[j];
      } else {
        assert order[i] == rest[i - |pick|] && order[j] == rest[j - |pick|];
      }
    }
    forall x | x in elems ensures x in order {
      if x !in pick { assert x in rest; }
    }
  }

  /** The tie-break is free: every selection that the properties of `Lowest`
      allow is the result of `Lowest` for some enumeration of the rows. */
  lemma LowestReachesEverySelection<T>(elems: set<T>, key: T -> int, limit: int, pick: seq<T>)
    requires Distinct(pick) && forall x :: x in pick ==> x in elems
    requires |pick| == if 0 <= limit < |elems| then limit else |elems|
    requires SortedBy(pick, key)
    requires forall x, y :: x in elems && x !in pick && y in pick ==> key(y) <= key(x)
    ensures exists order :: IsEnumeration(order, elems) && Lowest(order, key, limit) == pick
  {
    var others := elems - set x | x in pick;
    EnumerationExists(others);
    var rest :| IsEnumeration(rest, others);
    var order := pick + rest;
    ConcatEnumeration(pick, rest, elems);
    EnumerationLength(order, elems);
    PickBeforeRest(elems, key, pick, rest);
    SortByKeepsSortedPrefix(pick, rest, key);
    LowestIsSortedFront(order, key, limit, pick, SortBy(rest, key));
    assert IsEnumeration(order, elems) && Lowest(order, key, limit) == pick;
  }

  /** The rows left out of `pick` have keys no smaller than the picked ones. */
  lemma PickBeforeRest<T>(elems: set<T>, key: T -> int, pick: seq<T>, rest: seq<T>)
    requires forall x, y :: x in elems && x !in pick && y in pick ==> key(y) <= key(x)
    requires IsEnumeration(rest, elems - set x | x in pick)
    ensures forall x, y :: x in pick && y in rest ==> key(x) <= key(y)
  {
  }

  /** When the sort puts `pick` first and `pick` is as long as the limit
      allows, the limit cuts exactly `pick`. */
  lemma LowestIsSortedFront<T>(order: seq<T>, key: T -> int, limit: int, pick: seq<T>, tail: seq<T>)
    requires SortBy(order, key) == pick + tail
    requires |pick| == if 0 <= limit < |order| then limit else |order|
    ensures Lowest(order, key, limit) == pick
  {
    assert (pick + tail)[..|pick|] == pick;
  }
}
