/** The groups the passes run over, and how a pass's map keeps inside them. */
module Grouping {
  import opened RawTypes
  import opened Collections
  import opened Substitution
  import opened Layout
  import opened Groups
  import opened GroupFacts
  import opened Passes

  /** The groups are the named types by key, each key once. */
  ghost predicate Grouped(table: Table, groups: seq<seq<TypeId>>) {
    && (forall g | 0 <= g < |groups| :: groups[g] != [] && table.Key(groups[g][0]).Some?)
    && (forall g, x | 0 <= g < |groups| :: x in groups[g] <==> table.Key(x) == table.Key(groups[g][0]))
    && (forall g, h | 0 <= g < h < |groups| :: table.Key(groups[g][0]) != table.Key(groups[h][0]))
    && (forall x | table.IsNamed(x) :: exists g :: 0 <= g < |groups| && x in groups[g])
  }

  /** Links stay inside one group: what a named type is folded into goes by the same kind,
  namespace and name. */
  ghost predicate GroupClosed(table: Table, base: map<TypeId, TypeId>) {
    forall x | x in base && table.IsNamed(x) :: table.Key(base[x]) == table.Key(x)
  }

  ghost function OwnerOf(table: Table, groups: seq<seq<TypeId>>, x: TypeId): (g: nat)
    requires Grouped(table, groups) && table.IsNamed(x)
    ensures g < |groups| && x in groups[g]
  {
    var g :| 0 <= g < |groups| && x in groups[g];
    g
  }

  lemma OneOwner(table: Table, groups: seq<seq<TypeId>>, g: nat, h: nat, x: TypeId)
    requires Grouped(table, groups)
    requires g < |groups| && h < |groups| && x in groups[g] && x in groups[h]
    ensures g == h
  {
    assert table.Key(x) == table.Key(groups[g][0]) == table.Key(groups[h][0]);
  }

  lemma MembersNamed(table: Table, groups: seq<seq<TypeId>>, g: nat, x: TypeId)
    requires Grouped(table, groups) && g < |groups| && x in groups[g]
    ensures table.IsNamed(x)
  {
    assert table.Key(x) == table.Key(groups[g][0]);
  }

  /** What maps a group's ids to ids of the group. */
  ghost predicate KeepsGroup(m: map<TypeId, TypeId>, ids: seq<TypeId>) {
    forall x {:trigger m[x]} | x in m && x in ids :: m[x] in ids
  }

  lemma CanonKeepsGroup(m: Subs, ids: seq<TypeId>, x: TypeId)
    requires KeepsGroup(m, ids) && x in ids
    ensures Canon(m, x) in ids
  {
    CanonStaysIn(m, Elements(ids), x);
  }

  lemma BaseKeepsGroup(table: Table, groups: seq<seq<TypeId>>, base: map<TypeId, TypeId>, g: nat)
    requires Grouped(table, groups) && GroupClosed(table, base) && g < |groups|
    ensures KeepsGroup(base, groups[g])
  {
    forall x | x in base && x in groups[g]
      ensures base[x] in groups[g]
    {
      MembersNamed(table, groups, g, x);
    }
  }

  lemma ResolvedInGroup(p: Partition, groups: seq<seq<TypeId>>, g: nat)
    requires Grouped(p.table, groups) && GroupClosed(p.table, p.base) && g < |groups|
    ensures forall x | x in Resolved(p, groups[g]) :: x in groups[g] && x !in p.base
    ensures forall x | x in groups[g] && x !in p.base :: x in Resolved(p, groups[g])
  {
    BaseKeepsGroup(p.table, groups, p.base, g);
    forall x | x in Resolved(p, groups[g])
      ensures x in groups[g] && x !in p.base
    {
      var i :| 0 <= i < |groups[g]| && x == p.Canonical(groups[g][i]);
      CanonKeepsGroup(p.base, groups[g], groups[g][i]);
    }
    forall x | x in groups[g] && x !in p.base
      ensures x in Resolved(p, groups[g])
    {
      var i :| 0 <= i < |groups[g]| && groups[g][i] == x;
      assert p.Canonical(groups[g][i]) == x;
    }
  }

  /** Each group's aliases are between ids of the group. */
  ghost predicate OwnedBy(ids: seq<TypeId>, result: GroupResult) {
    forall x | x in AliasMap(result.aliases) :: x in ids && AliasMap(result.aliases)[x] in ids
  }

  ghost predicate Owned(groups: seq<seq<TypeId>>, results: seq<GroupResult>) {
    && |results| == |groups|
    && forall g | 0 <= g < |groups| :: OwnedBy(groups[g], results[g])
  }

  lemma ResultOwned(p: Partition, groups: seq<seq<TypeId>>, g: nat)
    requires Grouped(p.table, groups) && GroupClosed(p.table, p.base) && g < |groups|
    ensures OwnedBy(groups[g], Result(p, groups[g]))
  {
    ResolvedInGroup(p, groups, g);
    var m := AliasMap(Result(p, groups[g]).aliases);
    forall x | x in m
      ensures x in groups[g] && m[x] in groups[g]
    {
      AliasesDescend(p, groups[g], x);
    }
  }

  lemma ResultsOwned(p: Partition, groups: seq<seq<TypeId>>)
    requires Grouped(p.table, groups) && GroupClosed(p.table, p.base)
    ensures Owned(groups, ResultsOf(p, groups))
  {
    forall g | 0 <= g < |groups|
      ensures OwnedBy(groups[g], ResultsOf(p, groups)[g])
    {
      ResultOwned(p, groups, g);
    }
  }

  /** An id's entry in a pass's map comes from the base or from its own group's result. */
  lemma MapOfLookup(table: Table, groups: seq<seq<TypeId>>, base: map<TypeId, TypeId>, results: seq<GroupResult>,
                    g: nat, x: TypeId)
    requires Grouped(table, groups) && Owned(groups, results)
    requires g < |groups| && x in groups[g]
    ensures var m := MapOf(base, results);
            var own := AliasMap(results[g].aliases);
            && (x in m <==> x in base || x in own)
            && (x in base ==> m[x] == base[x])
            && (x !in base && x in own ==> m[x] == own[x])
  {
    MapOfEntries(base, results, x);
    var m := MapOf(base, results);
    if x in m && x !in base {
      var h :| 0 <= h < |results| && Says(results, h, x, m[x]);
      assert OwnedBy(groups[h], results[h]);
      OneOwner(table, groups, g, h, x);
    }
  }

  lemma MapOfKeepsGroup(table: Table, groups: seq<seq<TypeId>>, base: map<TypeId, TypeId>, results: seq<GroupResult>,
                        g: nat)
    requires Grouped(table, groups) && GroupClosed(table, base) && Owned(groups, results) && g < |groups|
    ensures KeepsGroup(MapOf(base, results), groups[g])
  {
    BaseKeepsGroup(table, groups, base, g);
    var m := MapOf(base, results);
    forall x | x in m && x in groups[g]
      ensures m[x] in groups[g]
    {
      MapOfLookup(table, groups, base, results, g, x);
      assert OwnedBy(groups[g], results[g]);
    }
  }

  /** Nothing outside the groups is mapped but by the base. */
  lemma MapOfStranger(table: Table, groups: seq<seq<TypeId>>, base: map<TypeId, TypeId>, results: seq<GroupResult>,
                      x: TypeId)
    requires Grouped(table, groups) && Owned(groups, results) && !table.IsNamed(x)
    ensures x in MapOf(base, results) <==> x in base
    ensures x in base ==> MapOf(base, results)[x] == base[x]
  {
    MapOfEntries(base, results, x);
    if x in MapOf(base, results) && x !in base {
      var h :| 0 <= h < |results| && Says(results, h, x, MapOf(base, results)[x]);
      assert OwnedBy(groups[h], results[h]);
      MembersNamed(table, groups, h, x);
    }
  }

  /** A group's aliases as the base lets them through. */
  ghost function Effective(base: map<TypeId, TypeId>, result: GroupResult): map<TypeId, TypeId> {
    AliasMap(result.aliases) - base.Keys
  }

  /** Maps agree where their groups' effective aliases do. */
  lemma MapsAgreeOnGroup(table: Table, groups: seq<seq<TypeId>>, base: map<TypeId, TypeId>,
                         r: seq<GroupResult>, s: seq<GroupResult>, g: nat)
    requires Grouped(table, groups) && Owned(groups, r) && Owned(groups, s) && g < |groups|
    requires Effective(base, r[g]) == Effective(base, s[g])
    ensures forall x | x in groups[g] ::
              && (x in MapOf(base, r) <==> x in MapOf(base, s))
              && (x in MapOf(base, r) ==> MapOf(base, r)[x] == MapOf(base, s)[x])
  {
    forall x | x in groups[g]
      ensures && (x in MapOf(base, r) <==> x in MapOf(base, s))
              && (x in MapOf(base, r) ==> MapOf(base, r)[x] == MapOf(base, s)[x])
    {
      MapOfLookup(table, groups, base, r, g, x);
      MapOfLookup(table, groups, base, s, g, x);
      assert x in Effective(base, r[g]) <==> x in AliasMap(r[g].aliases) && x !in base;
      assert x in Effective(base, s[g]) <==> x in AliasMap(s[g].aliases) && x !in base;
    }
  }

  lemma MapsEqual(table: Table, groups: seq<seq<TypeId>>, base: map<TypeId, TypeId>,
                  r: seq<GroupResult>, s: seq<GroupResult>)
    requires Grouped(table, groups) && Owned(groups, r) && Owned(groups, s)
    requires forall g | 0 <= g < |groups| :: Effective(base, r[g]) == Effective(base, s[g])
    ensures MapOf(base, r) == MapOf(base, s)
  {
    var m, n := MapOf(base, r), MapOf(base, s);
    forall x: TypeId
      ensures (x in m <==> x in n) && (x in m ==> m[x] == n[x])
    {
      if table.IsNamed(x) {
        MapsAgreeOnGroup(table, groups, base, r, s, OwnerOf(table, groups, x));
      } else {
        MapOfStranger(table, groups, base, r, x);
        MapOfStranger(table, groups, base, s, x);
      }
    }
  }
}
