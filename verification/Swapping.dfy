/** Replacing one group's aliases in the map of a pass. */
module Swapping {
  import opened RawTypes
  import opened Layout
  import opened Groups
  import opened GroupFacts
  import opened Passes
  import opened Grouping

  /** A map with some ids' entries taken back to what the base says of them. */
  ghost function Restored(base: map<TypeId, TypeId>, m: map<TypeId, TypeId>, ids: set<TypeId>): map<TypeId, TypeId> {
    (m - ids) + (map x | x in ids && x in base :: base[x])
  }

  /** One group's aliases out, another's in; the base keeps its own. */
  ghost function Swapped(base: map<TypeId, TypeId>, m: map<TypeId, TypeId>, outgoing: seq<Pair>,
                         incoming: seq<Pair>): map<TypeId, TypeId> {
    Restored(base, m, AliasMap(outgoing).Keys) + (AliasMap(incoming) - base.Keys)
  }

  lemma RestoredOneMore(base: map<TypeId, TypeId>, m: map<TypeId, TypeId>, ids: set<TypeId>, x: TypeId)
    ensures var r := Restored(base, m, ids);
            Restored(base, m, ids + {x}) == if x in base then r[x := base[x]] else r - {x}
  {
  }

  lemma AddedOneMore(base: map<TypeId, TypeId>, m: map<TypeId, TypeId>, a: seq<Pair>, pair: Pair)
    ensures var r := m + (AliasMap(a) - base.Keys);
            m + (AliasMap(a + [pair]) - base.Keys) == if pair.0 in base then r else r[pair.0 := pair.1]
  {
    AliasMapConcat(a, [pair]);
    assert AliasMap([pair]) == map[pair.0 := pair.1] by {
      assert [pair][..0] == [];
    }
  }

  lemma RestoredDescends(table: Table, base: map<TypeId, TypeId>, m: map<TypeId, TypeId>, ids: set<TypeId>)
    requires Descends(table, base, m)
    ensures Descends(table, base, Restored(base, m, ids))
  {
  }

  lemma AddedDescends(table: Table, base: map<TypeId, TypeId>, m: map<TypeId, TypeId>, result: GroupResult, n: nat)
    requires Descends(table, base, m) && AliasesLower(table, base, result) && n <= |result.aliases|
    ensures Descends(table, base, m + (AliasMap(result.aliases[..n]) - base.Keys))
  {
    var r := m + (AliasMap(result.aliases[..n]) - base.Keys);
    forall x | x in r
      ensures if x in base then r[x] == base[x]
              else Lower(table, r[x], x) && (r[x] in base ==> r[x] in table.declarations)
    {
      if x !in base && x in AliasMap(result.aliases[..n]) {
        AliasMapHas(result.aliases[..n], x);
        assert (x, r[x]) in result.aliases;
      }
    }
  }

  /** Swapping a group's result in the map is swapping it in the list of results. */
  lemma SwappedIsMapOf(table: Table, groups: seq<seq<TypeId>>, base: map<TypeId, TypeId>, results: seq<GroupResult>,
                       g: nat, result: GroupResult)
    requires Grouped(table, groups) && Owned(groups, results) && g < |groups| && OwnedBy(groups[g], result)
    ensures Owned(groups, results[g := result])
    ensures MapOf(base, results[g := result])
            == Swapped(base, MapOf(base, results), results[g].aliases, result.aliases)
  {
    var after := results[g := result];
    var m, n := MapOf(base, results), MapOf(base, after);
    var r := Swapped(base, m, results[g].aliases, result.aliases);
    forall x: TypeId
      ensures (x in n <==> x in r) && (x in n ==> n[x] == r[x])
    {
      SwappedEntry(table, groups, base, results, g, result, x);
    }
  }

  lemma SwappedAt(base: map<TypeId, TypeId>, m: map<TypeId, TypeId>, outgoing: seq<Pair>, incoming: seq<Pair>,
                  x: TypeId)
    requires x in base ==> x in m && m[x] == base[x]
    ensures var r := Swapped(base, m, outgoing, incoming);
            if x in base then x in r && r[x] == base[x]
            else if x in AliasMap(incoming) then x in r && r[x] == AliasMap(incoming)[x]
            else if x in AliasMap(outgoing) then x !in r
            else (x in r <==> x in m) && (x in m ==> r[x] == m[x])
  {
  }

  lemma SwappedEntry(table: Table, groups: seq<seq<TypeId>>, base: map<TypeId, TypeId>, results: seq<GroupResult>,
                     g: nat, result: GroupResult, x: TypeId)
    requires Grouped(table, groups) && Owned(groups, results) && g < |groups| && OwnedBy(groups[g], result)
    requires Owned(groups, results[g := result])
    ensures var n := MapOf(base, results[g := result]);
            var r := Swapped(base, MapOf(base, results), results[g].aliases, result.aliases);
            (x in n <==> x in r) && (x in n ==> n[x] == r[x])
  {
    MapOfEntries(base, results, x);
    SwappedAt(base, MapOf(base, results), results[g].aliases, result.aliases, x);
    if table.IsNamed(x) {
      var h := OwnerOf(table, groups, x);
      MapOfLookup(table, groups, base, results, h, x);
      MapOfLookup(table, groups, base, results[g := result], h, x);
      if h != g {
        NotIn(table, groups, results[g], g, h, x);
        NotIn(table, groups, result, g, h, x);
      }
    } else {
      MapOfStranger(table, groups, base, results, x);
      MapOfStranger(table, groups, base, results[g := result], x);
      StrangerNotIn(table, groups, results[g], g, x);
      StrangerNotIn(table, groups, result, g, x);
    }
  }

  lemma NotIn(table: Table, groups: seq<seq<TypeId>>, result: GroupResult, g: nat, h: nat, x: TypeId)
    requires Grouped(table, groups) && g < |groups| && h < |groups| && g != h
    requires OwnedBy(groups[g], result) && x in groups[h]
    ensures x !in AliasMap(result.aliases)
  {
    if x in groups[g] {
      OneOwner(table, groups, g, h, x);
    }
  }

  lemma StrangerNotIn(table: Table, groups: seq<seq<TypeId>>, result: GroupResult, g: nat, x: TypeId)
    requires Grouped(table, groups) && g < |groups| && OwnedBy(groups[g], result) && !table.IsNamed(x)
    ensures x !in AliasMap(result.aliases)
  {
    if x in groups[g] {
      MembersNamed(table, groups, g, x);
    }
  }
}
