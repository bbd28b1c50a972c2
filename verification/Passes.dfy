/** The map a pass builds from the groups' results, and why it has no cycle. */
module Passes {
  import opened RawTypes
  import opened Substitution
  import opened Layout
  import opened Groups
  import opened GroupFacts

  // ----- edges go down

  /** A specification link or a placed declaration: to a definition from a declaration,
  otherwise to the lower id. */
  predicate LowerInBase(table: Table, y: TypeId, x: TypeId) {
    if x in table.declarations then y !in table.declarations || y < x
    else y !in table.declarations && y < x
  }

  ghost predicate BaseDescends(table: Table, base: map<TypeId, TypeId>) {
    forall x | x in base :: LowerInBase(table, base[x], x)
  }

  /** What every map of the named passes looks like: the base's links, and aliases between
  ids the base leaves alone. */
  ghost predicate Descends(table: Table, base: map<TypeId, TypeId>, m: map<TypeId, TypeId>) {
    && base.Keys <= m.Keys
    && forall x | x in m ::
         if x in base then m[x] == base[x]
         else Lower(table, m[x], x) && (m[x] in base ==> m[x] in table.declarations)
  }

  ghost function Any(ids: set<TypeId>): (x: TypeId)
    requires ids != {}
    ensures x in ids
  {
    var x :| x in ids;
    x
  }

  ghost function DetailBound(table: Table, ids: set<TypeId>): nat {
    if ids == {} then 0 else table.Detail(Any(ids)) + DetailBound(table, ids - {Any(ids)})
  }

  lemma {:induction false} DetailBounded(table: Table, ids: set<TypeId>, x: TypeId)
    requires x in ids
    ensures table.Detail(x) <= DetailBound(table, ids)
  {
    if x != Any(ids) {
      DetailBounded(table, ids - {Any(ids)}, x);
    }
  }

  ghost function RankIn(table: Table, base: map<TypeId, TypeId>, x: TypeId): Rank {
    var bound := DetailBound(table, table.types.Keys);
    if x in table.declarations then Rank(1, 0, 0, x)
    else if x in base then Rank(0, 1, 0, x)
    else Rank(0, 0, if table.Detail(x) <= bound then bound - table.Detail(x) else 0, x)
  }

  lemma DetailIsBounded(table: Table, x: TypeId)
    ensures table.Detail(x) <= DetailBound(table, table.types.Keys)
  {
    if x in table.types {
      DetailBounded(table, table.types.Keys, x);
    }
  }

  /** Every map of the named passes is acyclic, so chasing it ends. */
  lemma DescendingIsAcyclic(table: Table, base: map<TypeId, TypeId>, m: map<TypeId, TypeId>)
    requires BaseDescends(table, base) && Descends(table, base, m)
    ensures Acyclic(m)
  {
    var rank := (x: TypeId) => RankIn(table, base, x);
    forall x | x in m
      ensures Below(rank(m[x]), rank(x))
    {
      DetailIsBounded(table, x);
      DetailIsBounded(table, m[x]);
    }
    assert RankedBy(m, rank);
  }

  /** From a definition the chain runs through definitions. */
  lemma {:induction false} CanonOfDefinition(table: Table, base: map<TypeId, TypeId>, m: Subs, x: TypeId)
    requires BaseDescends(table, base) && Descends(table, base, m) && x !in table.declarations
    ensures Canon(m, x) !in table.declarations
    decreases RankOf(m)(x).a, RankOf(m)(x).b, RankOf(m)(x).c, RankOf(m)(x).d
  {
    if x in m {
      CanonOfDefinition(table, base, m, m[x]);
    }
  }

  lemma BaseIsAcyclic(table: Table, base: map<TypeId, TypeId>)
    requires BaseDescends(table, base)
    ensures Acyclic(base)
  {
    DescendingIsAcyclic(table, base, base);
  }

  // ----- the map of a pass

  /** The base, and over it every group's aliases but those of ids the base already maps. */
  ghost function MapOf(base: map<TypeId, TypeId>, results: seq<GroupResult>): map<TypeId, TypeId> {
    if results == [] then base
    else MapOf(base, results[..|results| - 1]) + (AliasMap(results[|results| - 1].aliases) - base.Keys)
  }

  ghost predicate Says(results: seq<GroupResult>, g: nat, x: TypeId, y: TypeId)
    requires g < |results|
  {
    x in AliasMap(results[g].aliases) && AliasMap(results[g].aliases)[x] == y
  }

  lemma {:induction false} MapOfEntries(base: map<TypeId, TypeId>, results: seq<GroupResult>, x: TypeId)
    ensures x in base ==> x in MapOf(base, results) && MapOf(base, results)[x] == base[x]
    ensures x in MapOf(base, results) && x !in base ==>
              exists g :: 0 <= g < |results| && Says(results, g, x, MapOf(base, results)[x])
    ensures x !in MapOf(base, results) ==>
              forall g | 0 <= g < |results| :: x !in AliasMap(results[g].aliases)
  {
    if results != [] {
      var init, last := results[..|results| - 1], results[|results| - 1];
      MapOfEntries(base, init, x);
      if x in MapOf(base, results) && x !in base {
        var y := MapOf(base, results)[x];
        if x in AliasMap(last.aliases) {
          assert Says(results, |results| - 1, x, y);
        } else {
          var g :| 0 <= g < |init| && Says(init, g, x, y);
          assert Says(results, g, x, y);
        }
      }
      if x !in MapOf(base, results) {
        forall g | 0 <= g < |results|
          ensures x !in AliasMap(results[g].aliases)
        {
          assert g < |init| ==> results[g] == init[g];
        }
      }
    }
  }

  /** The aliases of a result keep to ids some base, of which this one is an extension by
  declarations, leaves alone. */
  ghost predicate AliasesLower(table: Table, base: map<TypeId, TypeId>, result: GroupResult) {
    forall pair | pair in result.aliases ::
      && Lower(table, pair.1, pair.0)
      && (pair.1 in base ==> pair.1 in table.declarations)
      && (pair.0 in base ==> pair.0 in table.declarations)
  }

  lemma MapOfDescends(table: Table, base: map<TypeId, TypeId>, results: seq<GroupResult>)
    requires forall g | 0 <= g < |results| :: AliasesLower(table, base, results[g])
    ensures Descends(table, base, MapOf(base, results))
  {
    var m := MapOf(base, results);
    forall x | x in base
      ensures x in m
    {
      MapOfEntries(base, results, x);
    }
    forall x | x in m
      ensures if x in base then m[x] == base[x]
              else Lower(table, m[x], x) && (m[x] in base ==> m[x] in table.declarations)
    {
      MapOfEntries(base, results, x);
      if x !in base {
        var g :| 0 <= g < |results| && Says(results, g, x, m[x]);
        assert AliasesLower(table, base, results[g]);
        AliasMapHas(results[g].aliases, x);
        assert (x, m[x]) in results[g].aliases;
      }
    }
  }

  lemma ResultIsLower(p: Partition, ids: seq<TypeId>)
    ensures AliasesLower(p.table, p.base, Result(p, ids))
  {
    var result := Result(p, ids);
    forall pair | pair in result.aliases
      ensures Lower(p.table, pair.1, pair.0) && pair.1 !in p.base && pair.0 !in p.base
    {
      PairsDescend(p, ids, pair);
    }
  }

  // ----- whole passes

  ghost function ResultsOf(p: Partition, groups: seq<seq<TypeId>>): (r: seq<GroupResult>)
    ensures |r| == |groups|
    ensures forall g | 0 <= g < |groups| :: r[g] == Result(p, groups[g])
  {
    seq(|groups|, g requires 0 <= g < |groups| => Result(p, groups[g]))
  }

  ghost function PassMap(p: Partition, groups: seq<seq<TypeId>>): (m: Subs)
    requires BaseDescends(p.table, p.base)
    ensures m == MapOf(p.base, ResultsOf(p, groups))
    ensures Descends(p.table, p.base, m)
  {
    forall g | 0 <= g < |groups| ensures AliasesLower(p.table, p.base, ResultsOf(p, groups)[g]) {
      ResultIsLower(p, groups[g]);
    }
    MapOfDescends(p.table, p.base, ResultsOf(p, groups));
    DescendingIsAcyclic(p.table, p.base, MapOf(p.base, ResultsOf(p, groups)));
    MapOf(p.base, ResultsOf(p, groups))
  }

  /** The `k`th pass over every group: by name at first, then by the class the map of the
  pass before puts a reference in. */
  ghost function NthPass(table: Table, groups: seq<seq<TypeId>>, base: Subs, k: nat): (p: Partition)
    requires BaseDescends(table, base)
    ensures p.table == table && p.base == base
    decreases k, 0
  {
    Partition(table, base, if k == 0 then None else Some(NthMap(table, groups, base, k - 1)))
  }

  ghost function NthMap(table: Table, groups: seq<seq<TypeId>>, base: Subs, k: nat): (m: Subs)
    requires BaseDescends(table, base)
    ensures Descends(table, base, m)
    decreases k, 1
  {
    PassMap(NthPass(table, groups, base, k), groups)
  }

  /** A later pass compares by the map of the pass before. */
  lemma {:induction false} NextPass(table: Table, groups: seq<seq<TypeId>>, base: Subs, k: nat)
    requires BaseDescends(table, base) && k > 0
    ensures NthPass(table, groups, base, k) == Partition(table, base, Some(NthMap(table, groups, base, k - 1)))
  {
  }

  /** The map a pass by the classes of `m` builds. */
  ghost function After(table: Table, groups: seq<seq<TypeId>>, base: Subs, m: Subs): Subs
    requires BaseDescends(table, base)
  {
    PassMap(Partition(table, base, Some(m)), groups)
  }

  lemma {:induction false} NextMap(table: Table, groups: seq<seq<TypeId>>, base: Subs, k: nat)
    requires BaseDescends(table, base) && k > 0
    ensures NthMap(table, groups, base, k) == After(table, groups, base, NthMap(table, groups, base, k - 1))
  {
    NextPass(table, groups, base, k);
  }

  ghost function NthResults(table: Table, groups: seq<seq<TypeId>>, base: Subs, k: nat): (r: seq<GroupResult>)
    requires BaseDescends(table, base)
    ensures |r| == |groups|
    ensures forall g | 0 <= g < |groups| :: r[g] == Result(NthPass(table, groups, base, k), groups[g])
  {
    ResultsOf(NthPass(table, groups, base, k), groups)
  }
}
