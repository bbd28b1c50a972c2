/** The first pass: every group by name, the map that gives, and the referrer index. */
module FirstPass {
  import opened RawTypes
  import opened Substitution
  import opened Layout
  import opened Groups
  import opened GroupFacts
  import opened Passes
  import opened DependencyIndex
  import opened Swapping

  lemma {:induction false} ReachedInRange(table: Table, groups: seq<seq<TypeId>>, base: Subs, index: map<GroupKey, nat>,
                                          id: TypeId, n: nat)
    requires Indexes(table, groups, index)
    ensures Reached(table, base, index, id, n).Some? ==> Reached(table, base, index, id, n).value < |groups|
    decreases n
  {
    if n > 0 {
      var root := Canon(base, id);
      if table.Key(root).None? && root in table.types {
        if table.types[root].Pointer? {
          ReachedInRange(table, groups, base, index, table.types[root].target, n - 1);
        } else if table.types[root].Array? {
          ReachedInRange(table, groups, base, index, table.types[root].elem, n - 1);
        }
      }
    }
  }

  lemma DependencyInRange(table: Table, groups: seq<seq<TypeId>>, base: Subs, byName: GroupResult,
                          index: map<GroupKey, nat>, ids: seq<TypeId>, dep: nat)
    requires Indexes(table, groups, index) && DependsWithin(table, base, byName, index, ids, dep)
    ensures dep < |groups|
  {
    var i :| 0 <= i < |ids| && Walked(table, byName, Canon(base, ids[i]))
             && ReachesFrom(table, base, index, ReferencedTypes(table.types[Canon(base, ids[i])]), dep);
    var r :| r in ReferencedTypes(table.types[Canon(base, ids[i])])
             && Reached(table, base, index, r, CHAIN_BOUND) == Some(dep);
    ReachedInRange(table, groups, base, index, r, CHAIN_BOUND);
  }

  ghost predicate IsDependencies(p: Partition, groups: seq<seq<TypeId>>, index: map<GroupKey, nat>, deps: set<nat>,
                                 g: nat)
    requires g < |groups|
  {
    forall dep: nat :: dep in deps <==> DependsWithin(p.table, p.base, Result(p, groups[g]), index, groups[g], dep)
  }

  ghost predicate InRange(deps: set<nat>, n: nat) {
    forall dep | dep in deps :: dep < n
  }

  method PartitionOneByName(p: Partition, groups: seq<seq<TypeId>>, g: nat, index: map<GroupKey, nat>)
    returns (result: GroupResult, deps: set<nat>)
    requires g < |groups| && Indexes(p.table, groups, index)
    ensures result == Result(p, groups[g])
    ensures IsDependencies(p, groups, index, deps, g) && InRange(deps, |groups|)
  {
    result := CompatibleNamedAliases(p, groups[g]);
    deps := GroupDependencies(p.table, p.base, groups[g], result, index);
    forall dep | dep in deps
      ensures dep < |groups|
    {
      DependencyInRange(p.table, groups, p.base, result, index, groups[g], dep);
    }
  }

  lemma ResultsOneMore(p: Partition, groups: seq<seq<TypeId>>, g: nat)
    requires g < |groups|
    ensures ResultsOf(p, groups[..g + 1]) == ResultsOf(p, groups[..g]) + [Result(p, groups[g])]
  {
    var more, less := ResultsOf(p, groups[..g + 1]), ResultsOf(p, groups[..g]);
    forall h | 0 <= h < |more|
      ensures more[h] == (less + [Result(p, groups[g])])[h]
    {
      assert groups[..g + 1][h] == groups[h];
      if h < g {
        assert groups[..g][h] == groups[h];
      }
    }
  }

  ghost predicate AreDependencies(p: Partition, groups: seq<seq<TypeId>>, index: map<GroupKey, nat>,
                                  deps: seq<set<nat>>)
  {
    && |deps| <= |groups|
    && forall g | 0 <= g < |deps| :: IsDependencies(p, groups, index, deps[g], g) && InRange(deps[g], |groups|)
  }

  lemma DependenciesOneMore(p: Partition, groups: seq<seq<TypeId>>, index: map<GroupKey, nat>, deps: seq<set<nat>>,
                            more: set<nat>)
    requires AreDependencies(p, groups, index, deps) && |deps| < |groups|
    requires IsDependencies(p, groups, index, more, |deps|) && InRange(more, |groups|)
    ensures AreDependencies(p, groups, index, deps + [more])
  {
  }

  method PartitionByName(table: Table, groups: seq<seq<TypeId>>, base: Subs)
    returns (first: seq<GroupResult>, deps: seq<set<nat>>, ghost index: map<GroupKey, nat>)
    ensures first == ResultsOf(Partition(table, base, None), groups)
    ensures |deps| == |groups|
    ensures Indexes(table, groups, index)
    ensures AreDependencies(Partition(table, base, None), groups, index, deps)
  {
    var groupOf := GroupIndex(table, groups);
    index := groupOf;
    var p := Partition(table, base, None);
    first, deps := [], [];
    for g := 0 to |groups|
      invariant first == ResultsOf(p, groups[..g])
      invariant |deps| == g && AreDependencies(p, groups, index, deps)
    {
      var result, dependencies := PartitionOneByName(p, groups, g, groupOf);
      ResultsOneMore(p, groups, g);
      DependenciesOneMore(p, groups, index, deps, dependencies);
      first, deps := first + [result], deps + [dependencies];
    }
    assert groups[..|groups|] == groups;
  }

  /** Who references a group: the dependencies turned round. */
  ghost predicate Inverts(deps: seq<set<nat>>, referrers: seq<seq<nat>>) {
    && |referrers| == |deps|
    && forall dep, g | 0 <= dep < |deps| && 0 <= g < |deps| :: g in referrers[dep] <==> dep in deps[g]
  }

  ghost predicate ReferrersInRange(referrers: seq<seq<nat>>) {
    forall dep, g: nat | 0 <= dep < |referrers| && g in referrers[dep] :: g < |referrers|
  }

  method InvertDependencies(deps: seq<set<nat>>) returns (referrers: seq<seq<nat>>)
    requires forall g | 0 <= g < |deps| :: InRange(deps[g], |deps|)
    ensures Inverts(deps, referrers) && ReferrersInRange(referrers)
  {
    referrers := seq(|deps|, i => []);
    for g := 0 to |deps|
      invariant |referrers| == |deps|
      invariant forall dep, h: nat | 0 <= dep < |deps| :: h in referrers[dep] <==> h < g && dep in deps[h]
      invariant forall dep, h: nat | 0 <= dep < |deps| && h in referrers[dep] :: h < g
    {
      var left := deps[g];
      while left != {}
        invariant left <= deps[g]
        invariant |referrers| == |deps|
        invariant forall dep, h: nat | 0 <= dep < |deps| ::
                    h in referrers[dep] <==> (h < g && dep in deps[h]) || (h == g && dep in deps[g] && dep !in left)
        invariant forall dep, h: nat | 0 <= dep < |deps| && h in referrers[dep] :: h <= g
        decreases |left|
      {
        var dep :| dep in left;
        left := left - {dep};
        referrers := referrers[dep := referrers[dep] + [g]];
      }
    }
  }

  ghost predicate LeavesBase(base: map<TypeId, TypeId>, result: GroupResult) {
    forall pair | pair in result.aliases :: pair.0 !in base
  }

  method BuildMap(table: Table, base: Subs, results: seq<GroupResult>) returns (subs: Subs)
    requires BaseDescends(table, base)
    requires forall g | 0 <= g < |results| :: AliasesLower(table, base, results[g]) && LeavesBase(base, results[g])
    ensures subs == MapOf(base, results)
    ensures Descends(table, base, subs)
  {
    subs := base;
    for g := 0 to |results|
      invariant subs == MapOf(base, results[..g])
      invariant Descends(table, base, subs)
    {
      subs := InsertAll(table, base, subs, results[g]);
      ResultPrefix(results, g);
    }
    assert results[..|results|] == results;
  }

  method InsertAll(table: Table, base: Subs, start: Subs, result: GroupResult) returns (subs: Subs)
    requires BaseDescends(table, base) && Descends(table, base, start)
    requires AliasesLower(table, base, result) && LeavesBase(base, result)
    ensures subs == start + (AliasMap(result.aliases) - base.Keys)
    ensures Descends(table, base, subs)
  {
    subs := start;
    var aliases := result.aliases;
    for i := 0 to |aliases|
      invariant subs == start + (AliasMap(aliases[..i]) - base.Keys)
    {
      var pair := aliases[i];
      AliasPrefix(aliases, i);
      AddedOneMore(base, start, aliases[..i], pair);
      AddedDescends(table, base, start, result, i + 1);
      DescendingIsAcyclic(table, base, start + (AliasMap(aliases[..i + 1]) - base.Keys));
      assert pair in aliases;
      subs := subs[pair.0 := pair.1];
    }
    assert aliases[..|aliases|] == aliases;
    AddedDescends(table, base, start, result, |aliases|);
  }

  lemma AliasPrefix(aliases: seq<Pair>, i: nat)
    requires i < |aliases|
    ensures aliases[..i + 1] == aliases[..i] + [aliases[i]]
  {
  }

  lemma ResultPrefix(results: seq<GroupResult>, g: nat)
    requires g < |results|
    ensures results[..g + 1][..g] == results[..g] && results[..g + 1][g] == results[g] && |results[..g + 1]| == g + 1
  {
  }
}
