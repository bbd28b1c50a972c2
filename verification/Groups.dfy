/** Partitioning one group of same-named types into layout classes. */
module Groups {
  import opened RawTypes
  import opened Substitution
  import opened Layout

  // ----- the order definitions are taken in: most detailed first, then lowest id

  predicate Before(detail: map<TypeId, nat>, x: TypeId, y: TypeId)
    requires x in detail && y in detail
  {
    detail[x] > detail[y] || (detail[x] == detail[y] && x < y)
  }

  predicate IsFirst(s: set<TypeId>, detail: map<TypeId, nat>, x: TypeId)
    requires s <= detail.Keys
  {
    x in s && forall y | y in s :: x == y || Before(detail, x, y)
  }

  lemma {:induction false} FirstExists(s: set<TypeId>, detail: map<TypeId, nat>)
    requires s != {} && s <= detail.Keys
    ensures exists x :: IsFirst(s, detail, x)
    decreases s
  {
    var z :| z in s;
    if s == {z} {
      assert IsFirst(s, detail, z);
    } else {
      FirstExists(s - {z}, detail);
      var x :| IsFirst(s - {z}, detail, x);
      var first := if Before(detail, x, z) then x else z;
      forall y | y in s
        ensures first == y || Before(detail, first, y)
      {
        assert y == z || y in s - {z};
      }
      assert IsFirst(s, detail, first);
    }
  }

  /** The members of a set in that order. */
  function Ordered(s: set<TypeId>, detail: map<TypeId, nat>): (r: seq<TypeId>)
    requires s <= detail.Keys
    ensures forall x :: x in r <==> x in s
    ensures forall i, j | 0 <= i < j < |r| :: r[i] in detail && r[j] in detail && Before(detail, r[i], r[j])
    decreases s
  {
    if s == {} then []
    else
      FirstExists(s, detail);
      var x :| IsFirst(s, detail, x);
      [x] + Ordered(s - {x}, detail)
  }

  function Level(s: set<TypeId>): map<TypeId, nat> {
    map x | x in s :: 0
  }

  /** A set in ascending order, as an ordered set iterates it. */
  function Ascending(s: set<TypeId>): (r: seq<TypeId>)
    ensures forall x :: x in r <==> x in s
    ensures forall i, j | 0 <= i < j < |r| :: r[i] < r[j]
  {
    Ordered(s, Level(s))
  }

  // ----- classes

  /** A class of compatible definitions, its canonical first. */
  type Class = c: seq<TypeId> | c != [] witness [0]

  datatype GroupResult = GroupResult(aliases: seq<Pair>, canonicals: nat)

  /** The first class from `from` on whose head is compatible with `id`. */
  function FindClass(p: Partition, classes: seq<Class>, id: TypeId, from: nat): (r: nat)
    requires from <= |classes|
    ensures from <= r <= |classes|
    ensures r < |classes| ==> p.CompatibleLayout(classes[r][0], id)
    ensures forall j | from <= j < r :: !p.CompatibleLayout(classes[j][0], id)
    decreases |classes| - from
  {
    if from == |classes| || p.CompatibleLayout(classes[from][0], id) then from
    else FindClass(p, classes, id, from + 1)
  }

  function Joined(p: Partition, classes: seq<Class>, id: TypeId): (r: seq<Class>)
  {
    var at := FindClass(p, classes, id, 0);
    if at < |classes| then classes[at := classes[at] + [id]] else classes + [[id]]
  }

  /** Each definition joins the first class its layout is compatible with, or starts one. */
  function Classes(p: Partition, definitions: seq<TypeId>): (r: seq<Class>)
  {
    if definitions == [] then []
    else Joined(p, Classes(p, definitions[..|definitions| - 1]), definitions[|definitions| - 1])
  }

  function DuplicatesOf(ids: seq<TypeId>, canonical: TypeId): seq<Pair> {
    if ids == [] then []
    else
      var last := ids[|ids| - 1];
      DuplicatesOf(ids[..|ids| - 1], canonical) + (if last != canonical then [(last, canonical)] else [])
  }

  function ClassAliases(classes: seq<Class>): seq<Pair>
  {
    if classes == [] then []
    else
      var last := classes[|classes| - 1];
      ClassAliases(classes[..|classes| - 1]) + DuplicatesOf(last, last[0])
  }

  /** Aliases from each class to its head, and from the declarations to the one head there is,
  or to the first of them when there is none; several heads get no declaration. */
  function Outcome(classes: seq<Class>, declarations: seq<TypeId>): GroupResult
  {
    var declared :=
      if |classes| == 1 then DuplicatesOf(declarations, classes[0][0])
      else if |classes| == 0 && declarations != [] then DuplicatesOf(declarations, declarations[0])
      else [];
    GroupResult(ClassAliases(classes) + declared,
                (if |classes| == 0 then 1 else |classes|) + (if |classes| > 1 then |declarations| else 0))
  }

  function Resolved(p: Partition, ids: seq<TypeId>): set<TypeId> {
    set i | 0 <= i < |ids| :: p.Canonical(ids[i])
  }

  function Definitions(p: Partition, ids: seq<TypeId>): set<TypeId> {
    set x | x in Resolved(p, ids) && x !in p.table.declarations
  }

  function Declarations(p: Partition, ids: seq<TypeId>): set<TypeId> {
    set x | x in Resolved(p, ids) && x in p.table.declarations
  }

  function Details(table: Table, ids: set<TypeId>): map<TypeId, nat> {
    map x | x in ids :: table.Detail(x)
  }

  function OrderedDefinitions(p: Partition, ids: seq<TypeId>): seq<TypeId> {
    Ordered(Definitions(p, ids), Details(p.table, Definitions(p, ids)))
  }

  /** One group's partition, as a function of the pass. A group of one id has nothing to
  alias it to. */
  function Result(p: Partition, ids: seq<TypeId>): GroupResult {
    if |ids| == 1 then GroupResult([], 1)
    else Outcome(Classes(p, OrderedDefinitions(p, ids)), Ascending(Declarations(p, ids)))
  }

  method ResolveAll(p: Partition, ids: seq<TypeId>) returns (resolved: set<TypeId>)
    ensures resolved == Resolved(p, ids)
  {
    resolved := {};
    for i := 0 to |ids|
      invariant resolved == set j | 0 <= j < i :: p.Canonical(ids[j])
    {
      var canonical := CanonicalizeIn(p.base, ids[i]);
      resolved := resolved + {canonical};
    }
  }

  method PartitionDefinitions(p: Partition, definitions: seq<TypeId>) returns (classes: seq<Class>)
    ensures classes == Classes(p, definitions)
  {
    classes := [];
    for i := 0 to |definitions|
      invariant classes == Classes(p, definitions[..i])
    {
      var id := definitions[i];
      var at := 0;
      while at < |classes| && !p.CompatibleLayout(classes[at][0], id)
        invariant at <= |classes|
        invariant FindClass(p, classes, id, at) == FindClass(p, classes, id, 0)
      {
        at := at + 1;
      }
      assert definitions[..i + 1][..i] == definitions[..i];
      if at < |classes| {
        classes := classes[at := classes[at] + [id]];
      } else {
        classes := classes + [[id]];
      }
    }
    assert definitions[..|definitions|] == definitions;
  }

  method CollectDuplicates(ids: seq<TypeId>, canonical: TypeId) returns (aliases: seq<Pair>)
    ensures aliases == DuplicatesOf(ids, canonical)
  {
    aliases := [];
    for i := 0 to |ids|
      invariant aliases == DuplicatesOf(ids[..i], canonical)
    {
      assert ids[..i + 1][..i] == ids[..i];
      if ids[i] != canonical {
        aliases := aliases + [(ids[i], canonical)];
      }
    }
    assert ids[..|ids|] == ids;
  }

  method Assemble(classes: seq<Class>, declarations: seq<TypeId>) returns (r: GroupResult)
    ensures r == Outcome(classes, declarations)
  {
    var between := if |classes| > 1 then |declarations| else 0;
    var aliases: seq<Pair> := [];
    for i := 0 to |classes|
      invariant aliases == ClassAliases(classes[..i])
    {
      var duplicates := CollectDuplicates(classes[i], classes[i][0]);
      assert classes[..i + 1][..i] == classes[..i];
      aliases := aliases + duplicates;
    }
    assert classes[..|classes|] == classes;
    if |classes| == 1 {
      var duplicates := CollectDuplicates(declarations, classes[0][0]);
      aliases := aliases + duplicates;
    } else if |classes| == 0 && declarations != [] {
      var duplicates := CollectDuplicates(declarations, declarations[0]);
      aliases := aliases + duplicates;
    }
    r := GroupResult(aliases, (if |classes| == 0 then 1 else |classes|) + between);
  }

  /** The loops that compute `Result`. */
  method CompatibleNamedAliases(p: Partition, ids: seq<TypeId>) returns (r: GroupResult)
    ensures r == Result(p, ids)
  {
    if |ids| == 1 {
      return GroupResult([], 1);
    }
    var resolved := ResolveAll(p, ids);
    var definitions := set x | x in resolved && x !in p.table.declarations;
    var declarations := set x | x in resolved && x in p.table.declarations;
    assert definitions == Definitions(p, ids) && declarations == Declarations(p, ids);
    var classes := PartitionDefinitions(p, Ordered(definitions, Details(p.table, definitions)));
    r := Assemble(classes, Ascending(declarations));
  }
}
