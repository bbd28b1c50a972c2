/** Compilation units in the reader's id space: which unit an id belongs to. */
module Units {
  import opened RawTypes

  /** Each unit's root DIE, with the exclusive end of its range. */
  type Origins = map<nat, nat>

  lemma {:induction false} GreatestExists(s: set<nat>)
    requires s != {}
    ensures exists x :: x in s && forall y | y in s :: y <= x
    decreases s
  {
    var z :| z in s;
    if s != {z} {
      GreatestExists(s - {z});
      var x :| x in s - {z} && forall y | y in s - {z} :: y <= x;
      var w := if x <= z then z else x;
      assert forall y | y in s :: y == z || y in s - {z};
      assert w in s && forall y | y in s :: y <= w;
    }
  }

  function Greatest(s: set<nat>): (x: nat)
    requires s != {}
    ensures x in s && forall y | y in s :: y <= x
  {
    GreatestExists(s);
    var x :| x in s && forall y | y in s :: y <= x;
    x
  }

  /** The unit whose range holds `die`: the last one rooted at or before it, unless it ends
  before it. */
  function UnitOf(origins: Origins, die: nat): (r: Option<nat>)
  {
    var before := set start | start in origins && start <= die;
    if before == {} then None
    else
      var start := Greatest(before);
      if die < origins[start] then Some(start) else None
  }

  /** Ranges that do not overlap. */
  ghost predicate Disjoint(origins: Origins) {
    forall a, b | a in origins && b in origins && a < b :: origins[a] <= b
  }

  /** With disjoint ranges the answer is the one unit whose range holds the id, or none. */
  lemma UnitOfIsOwner(origins: Origins, die: nat, unit: nat)
    requires Disjoint(origins)
    ensures UnitOf(origins, die) == Some(unit) <==> unit in origins && unit <= die < origins[unit]
  {
    var before := set start | start in origins && start <= die;
    if unit in origins && unit <= die < origins[unit] {
      assert unit in before;
      var start := Greatest(before);
      assert start in before;
    }
  }
}
