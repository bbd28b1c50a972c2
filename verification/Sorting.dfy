/** Sorting by a key, as the library sort is relied on: the same elements, in order. */
module Sorting {
  type Key = (nat, nat)

  predicate Less(a: Key, b: Key) {
    a.0 < b.0 || (a.0 == b.0 && a.1 < b.1)
  }

  ghost predicate Sorted<T>(s: seq<T>, key: T -> Key) {
    forall i, j | 0 <= i < j < |s| :: !Less(key(s[j]), key(s[i]))
  }

  ghost predicate Distinct<T>(s: seq<T>, key: T -> Key) {
    forall i, j | 0 <= i < j < |s| :: key(s[i]) != key(s[j])
  }

  function Inserted<T(!new)>(s: seq<T>, x: T, key: T -> Key): (r: seq<T>)
    requires Sorted(s, key)
    ensures Sorted(r, key) && |r| == |s| + 1
    ensures forall y :: y in r <==> y in s || y == x
    ensures multiset(r) == multiset(s) + multiset{x}
    ensures Distinct(s + [x], key) ==> Distinct(r, key)
  {
    if s == [] then [x]
    else
      var init, last := s[..|s| - 1], s[|s| - 1];
      assert s == init + [last];
      if Less(key(x), key(last)) then
        var r := Inserted(init, x, key);
        assert Distinct(s + [x], key) ==> Distinct(init + [x], key) && Distinct(r + [last], key) by {
          InsertedDistinct(s, x, key, r);
        }
        InsertedSorted(s, x, key, r);
        r + [last]
      else s + [x]
  }

  lemma InsertedSorted<T(!new)>(s: seq<T>, x: T, key: T -> Key, r: seq<T>)
    requires s != [] && Sorted(s, key) && Sorted(r, key)
    requires Less(key(x), key(s[|s| - 1]))
    requires forall y :: y in r <==> y in s[..|s| - 1] || y == x
    ensures Sorted(r + [s[|s| - 1]], key)
  {
    var init, last := s[..|s| - 1], s[|s| - 1];
    forall i | 0 <= i < |r|
      ensures !Less(key(last), key(r[i]))
    {
      assert r[i] in r;
      if r[i] != x {
        var k :| 0 <= k < |init| && init[k] == r[i];
        assert s[k] == r[i];
      }
    }
  }

  lemma InsertedDistinct<T(!new)>(s: seq<T>, x: T, key: T -> Key, r: seq<T>)
    requires s != []
    requires forall y :: y in r <==> y in s[..|s| - 1] || y == x
    requires Distinct(s[..|s| - 1] + [x], key) ==> Distinct(r, key)
    ensures Distinct(s + [x], key) ==> Distinct(s[..|s| - 1] + [x], key) && Distinct(r + [s[|s| - 1]], key)
  {
    if Distinct(s + [x], key) {
      var init, last := s[..|s| - 1], s[|s| - 1];
      var all := s + [x];
      assert all[|s|] == x && all[|s| - 1] == last;
      forall i, j | 0 <= i < j < |init + [x]|
        ensures key((init + [x])[i]) != key((init + [x])[j])
      {
        assert (init + [x])[i] == all[i];
        assert (init + [x])[j] == all[if j < |init| then j else |s|];
      }
      forall i | 0 <= i < |r|
        ensures key(r[i]) != key(last)
      {
        assert r[i] in r;
        if r[i] != x {
          var k :| 0 <= k < |init| && init[k] == r[i];
          assert all[k] == r[i];
        }
      }
    }
  }

  function SortBy<T(!new)>(s: seq<T>, key: T -> Key): (r: seq<T>)
    ensures Sorted(r, key) && |r| == |s|
    ensures forall y :: y in r <==> y in s
    ensures multiset(r) == multiset(s)
    ensures Distinct(s, key) ==> Distinct(r, key)
  {
    if s == [] then []
    else
      var init, last := s[..|s| - 1], s[|s| - 1];
      assert s == init + [last];
      var r := SortBy(init, key);
      assert Distinct(s, key) ==> Distinct(r + [last], key) by {
        SortedDistinct(s, key, r);
      }
      Inserted(r, last, key)
  }

  lemma SortedDistinct<T(!new)>(s: seq<T>, key: T -> Key, r: seq<T>)
    requires s != []
    requires forall y :: y in r <==> y in s[..|s| - 1]
    requires Distinct(s[..|s| - 1], key) ==> Distinct(r, key)
    ensures Distinct(s, key) ==> Distinct(r + [s[|s| - 1]], key)
  {
    if Distinct(s, key) {
      var init, last := s[..|s| - 1], s[|s| - 1];
      forall i | 0 <= i < |r|
        ensures key(r[i]) != key(last)
      {
        assert r[i] in r;
        var k :| 0 <= k < |init| && init[k] == r[i];
        assert s[k] == r[i];
      }
    }
  }

  lemma SomeElement<T>(s: seq<T>)
    requires s != []
    ensures exists x :: x in s
  {
    assert s[0] in s;
  }

  lemma TailHas<T>(a: seq<T>, key: T -> int, x: T)
    requires a != [] && forall i, j | 0 <= i < j < |a| :: key(a[i]) < key(a[j])
    ensures x in a[1..] <==> x in a && x != a[0]
  {
    if x in a[1..] {
      var i :| 0 <= i < |a[1..]| && a[1..][i] == x;
      assert a[i + 1] == x;
    }
  }

  /** Elements in strictly ascending order are listed in only one way. */
  lemma {:induction false} AscendingOnce<T(!new)>(a: seq<T>, b: seq<T>, key: T -> int)
    requires forall i, j | 0 <= i < j < |a| :: key(a[i]) < key(a[j])
    requires forall i, j | 0 <= i < j < |b| :: key(b[i]) < key(b[j])
    requires forall x :: x in a <==> x in b
    ensures a == b
    decreases |a|
  {
    if a != [] {
      assert a[0] in b && (b != [] ==> b[0] in a);
      var i :| 0 <= i < |b| && b[i] == a[0];
      var j :| 0 <= j < |a| && a[j] == b[0];
      assert a[0] == b[0];
      forall x
        ensures x in a[1..] <==> x in b[1..]
      {
        TailHas(a, key, x);
        TailHas(b, key, x);
      }
      AscendingOnce(a[1..], b[1..], key);
    } else if b != [] {
      SomeElement(b);
      assert false;
    }
  }

  /** Pairs sorted by themselves. */
  function Itself(key: Key): Key {
    key
  }

  /** How many leading elements satisfy a predicate that, once false, stays false. */
  method PartitionPoint<T>(s: seq<T>, below: T -> bool) returns (r: nat)
    requires forall i, j | 0 <= i < j < |s| && below(s[j]) :: below(s[i])
    ensures r <= |s|
    ensures forall i | 0 <= i < |s| :: below(s[i]) <==> i < r
  {
    var lo, hi := 0, |s|;
    while lo < hi
      invariant 0 <= lo <= hi <= |s|
      invariant forall i | 0 <= i < lo :: below(s[i])
      invariant forall i | hi <= i < |s| :: !below(s[i])
    {
      var mid := lo + (hi - lo) / 2;
      if below(s[mid]) {
        lo := mid + 1;
      } else {
        hi := mid;
      }
    }
    r := lo;
  }
}
