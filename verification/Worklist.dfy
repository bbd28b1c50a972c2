/** Repartitioning only the groups a change reached keeps up, pass for pass, with
repartitioning every group. */
module Worklist {
  import opened RawTypes
  import opened Collections
  import opened Substitution
  import opened Layout
  import opened Signature
  import opened Groups
  import opened GroupFacts
  import opened Passes
  import opened Grouping
  import opened Dependence

  lemma NthOwned(table: Table, groups: seq<seq<TypeId>>, base: Subs, k: nat)
    requires Grouped(table, groups) && BaseDescends(table, base) && GroupClosed(table, base)
    ensures Owned(groups, NthResults(table, groups, base, k))
    ensures KeepsGroups(NthMap(table, groups, base, k), groups)
  {
    var p := NthPass(table, groups, base, k);
    var results := NthResults(table, groups, base, k);
    forall g | 0 <= g < |groups|
      ensures OwnedBy(groups[g], results[g])
    {
      ResultOwned(p, groups, g);
    }
    forall g | 0 <= g < |groups|
      ensures KeepsGroup(NthMap(table, groups, base, k), groups[g])
    {
      MapOfKeepsGroup(table, groups, base, results, g);
    }
  }

  lemma {:induction false} NextSeparates(table: Table, groups: seq<seq<TypeId>>, base: Subs, k: nat)
    requires Regular(table, groups, base) && k > 0
    ensures Separates(table, LabelOf(NthPass(table, groups, base, k)))
  {
    NthOwned(table, groups, base, k - 1);
    var p := Partition(table, base, Some(NthMap(table, groups, base, k - 1)));
    ClassesSeparate(p, groups);
    NextPass(table, groups, base, k);
    assert NthPass(table, groups, base, k) == p;
  }

  lemma NthSeparates(table: Table, groups: seq<seq<TypeId>>, base: Subs, k: nat)
    requires Regular(table, groups, base)
    ensures Separates(table, LabelOf(NthPass(table, groups, base, k)))
  {
    if k == 0 {
      KeysSeparate(NthPass(table, groups, base, k));
    } else {
      NextSeparates(table, groups, base, k);
    }
  }

  /** The results in hand give the map of the `k`th whole pass. */
  ghost predicate InStep(table: Table, groups: seq<seq<TypeId>>, base: Subs, results: seq<GroupResult>, k: nat)
    requires BaseDescends(table, base)
  {
    && Owned(groups, results)
    && forall g | 0 <= g < |groups| ::
         Effective(base, results[g]) == Effective(base, NthResults(table, groups, base, k)[g])
  }

  lemma InStepMap(table: Table, groups: seq<seq<TypeId>>, base: Subs, results: seq<GroupResult>, k: nat)
    requires Regular(table, groups, base) && InStep(table, groups, base, results, k)
    ensures MapOf(base, results) == NthMap(table, groups, base, k)
  {
    NthOwned(table, groups, base, k);
    MapsEqual(table, groups, base, results, NthResults(table, groups, base, k));
  }

  /** Outside the worklist, the next whole pass repeats what is in hand. */
  ghost predicate Pending(table: Table, groups: seq<seq<TypeId>>, base: Subs, results: seq<GroupResult>, k: nat,
                          worklist: set<nat>)
    requires BaseDescends(table, base)
  {
    && |results| == |groups|
    && forall g | 0 <= g < |groups| && g !in worklist ::
         Effective(base, results[g]) == Effective(base, NthResults(table, groups, base, k + 1)[g])
  }

  ghost predicate AllCovered(g: Graph, groups: seq<seq<TypeId>>, deps: seq<set<nat>>)
    requires g.ShortChains() && Grouped(g.table, groups)
  {
    && |deps| == |groups|
    && forall i | 0 <= i < |groups| :: Covered(g, groups, deps[i], i)
  }

  // ----- what the seed may leave out

  /** In a group with one canonical the by-name map sends every id there. */
  lemma SoleCanon(p: Partition, groups: seq<seq<TypeId>>, m: Subs, j: nat, x: TypeId, y: TypeId)
    requires Regular(p.table, groups, p.base) && j < |groups|
    requires m == MapOf(p.base, ResultsOf(p, groups))
    requires Result(p, groups[j]).canonicals <= 1
    requires x in groups[j] && y in groups[j]
    ensures Canon(m, x) == Canon(m, y)
  {
    var results := ResultsOf(p, groups);
    forall g | 0 <= g < |groups|
      ensures OwnedBy(groups[g], results[g])
    {
      ResultOwned(p, groups, g);
    }
    var c := SoleCanonical(p, groups[j]);
    LeadsTo(p, groups, results, m, j, c, x);
    LeadsTo(p, groups, results, m, j, c, y);
  }

  lemma LeadsTo(p: Partition, groups: seq<seq<TypeId>>, results: seq<GroupResult>, m: Subs, j: nat, c: TypeId,
                x: TypeId)
    requires Regular(p.table, groups, p.base) && Owned(groups, results) && j < |groups|
    requires m == MapOf(p.base, results)
    requires c in Resolved(p, groups[j]) && c !in AliasMap(results[j].aliases)
    requires forall z | z in Resolved(p, groups[j]) && z != c ::
               z in AliasMap(results[j].aliases) && AliasMap(results[j].aliases)[z] == c
    requires x in groups[j]
    ensures Canon(m, x) == c
  {
    forall z | z in p.base
      ensures z in m && m[z] == p.base[z]
    {
      MapOfEntries(p.base, results, z);
    }
    CanonThrough(p.base, m, x);
    ResolvedInGroup(p, groups, j);
    BaseKeepsGroup(p.table, groups, p.base, j);
    var root := Canon(p.base, x);
    CanonKeepsGroup(p.base, groups[j], x);
    assert root in Resolved(p, groups[j]);
    MapOfLookup(p.table, groups, p.base, results, j, c);
    MapOfLookup(p.table, groups, p.base, results, j, root);
  }

  /** A group none of whose dependencies has several canonicals is partitioned by class as it
  was by name. */
  lemma SeedCovers(table: Table, groups: seq<seq<TypeId>>, base: Subs, deps: set<nat>, i: nat)
    requires Regular(table, groups, base) && i < |groups|
    requires Covered(Graph(table, base), groups, deps, i)
    requires forall j | j in deps && 0 <= j < |groups| :: NthResults(table, groups, base, 0)[j].canonicals <= 1
    ensures NthResults(table, groups, base, 1)[i] == NthResults(table, groups, base, 0)[i]
  {
    var p, q := NthPass(table, groups, base, 0), NthPass(table, groups, base, 1);
    NthSeparates(table, groups, base, 0);
    NthSeparates(table, groups, base, 1);
    forall j | j in deps && 0 <= j < |groups|
      ensures SameKernel(groups[j], LabelOf(p), LabelOf(q))
    {
      forall x, y | x in groups[j] && y in groups[j]
        ensures LabelOf(p)(x) == LabelOf(p)(y) <==> LabelOf(q)(x) == LabelOf(q)(y)
      {
        assert NthResults(table, groups, base, 0)[j] == Result(p, groups[j]);
        SoleCanon(p, groups, NthMap(table, groups, base, 0), j, x, y);
        assert table.Key(x) == table.Key(groups[j][0]) == table.Key(y);
      }
    }
    ResultDependsOn(p, q, groups, deps, i);
  }

  lemma SeedPending(table: Table, groups: seq<seq<TypeId>>, base: Subs, deps: seq<set<nat>>, results: seq<GroupResult>,
                    worklist: set<nat>)
    requires Regular(table, groups, base) && AllCovered(Graph(table, base), groups, deps)
    requires InStep(table, groups, base, results, 0)
    requires forall i, j | 0 <= i < |groups| && 0 <= j < |groups| && j in deps[i]
                           && NthResults(table, groups, base, 0)[j].canonicals > 1 :: i in worklist
    ensures Pending(table, groups, base, results, 0, worklist)
  {
    forall i | 0 <= i < |groups| && i !in worklist
      ensures Effective(base, results[i]) == Effective(base, NthResults(table, groups, base, 1)[i])
    {
      SeedCovers(table, groups, base, deps[i], i);
    }
  }

  // ----- one pass

  /** A pass that repartitions the worklist reaches the next whole pass's map. */
  lemma StepInStep(table: Table, groups: seq<seq<TypeId>>, base: Subs, before: seq<GroupResult>,
                   after: seq<GroupResult>,
                   k: nat, worklist: set<nat>)
    requires Regular(table, groups, base)
    requires InStep(table, groups, base, before, k) && Pending(table, groups, base, before, k, worklist)
    requires |after| == |groups|
    requires forall g | 0 <= g < |groups| ::
               after[g] == if g in worklist then NthResults(table, groups, base, k + 1)[g] else before[g]
    ensures InStep(table, groups, base, after, k + 1)
  {
    NthOwned(table, groups, base, k + 1);
    forall g | 0 <= g < |groups|
      ensures OwnedBy(groups[g], after[g])
      ensures Effective(base, after[g]) == Effective(base, NthResults(table, groups, base, k + 1)[g])
    {
      if g !in worklist {
        assert OwnedBy(groups[g], before[g]);
      }
    }
  }

  lemma UnchangedCanon(table: Table, groups: seq<seq<TypeId>>, base: Subs, before: seq<GroupResult>,
                       after: seq<GroupResult>, k: nat, j: nat, x: TypeId)
    requires Regular(table, groups, base) && j < |groups|
    requires InStep(table, groups, base, before, k) && InStep(table, groups, base, after, k + 1)
    requires before[j] == after[j] && x in groups[j]
    ensures Canon(NthMap(table, groups, base, k), x) == Canon(NthMap(table, groups, base, k + 1), x)
  {
    InStepMap(table, groups, base, before, k);
    InStepMap(table, groups, base, after, k + 1);
    NthOwned(table, groups, base, k);
    MapsAgreeOnGroup(table, groups, base, before, after, j);
    CanonAgrees(NthMap(table, groups, base, k), NthMap(table, groups, base, k + 1), Elements(groups[j]), x);
  }

  /** A group that references no changed group is partitioned next time as it was this time. */
  lemma StepRepeats(table: Table, groups: seq<seq<TypeId>>, base: Subs, deps: set<nat>, before: seq<GroupResult>,
                    after: seq<GroupResult>, k: nat, i: nat)
    requires Regular(table, groups, base) && i < |groups|
    requires Covered(Graph(table, base), groups, deps, i)
    requires InStep(table, groups, base, before, k) && InStep(table, groups, base, after, k + 1)
    requires forall j | j in deps && 0 <= j < |groups| :: before[j] == after[j]
    ensures NthResults(table, groups, base, k + 2)[i] == NthResults(table, groups, base, k + 1)[i]
  {
    var p, q := NthPass(table, groups, base, k + 1), NthPass(table, groups, base, k + 2);
    NthSeparates(table, groups, base, k + 1);
    NthSeparates(table, groups, base, k + 2);
    forall j | j in deps && 0 <= j < |groups|
      ensures SameKernel(groups[j], LabelOf(p), LabelOf(q))
    {
      forall x, y | x in groups[j] && y in groups[j]
        ensures LabelOf(p)(x) == LabelOf(p)(y) <==> LabelOf(q)(x) == LabelOf(q)(y)
      {
        UnchangedCanon(table, groups, base, before, after, k, j, x);
        UnchangedCanon(table, groups, base, before, after, k, j, y);
      }
    }
    ResultDependsOn(p, q, groups, deps, i);
  }

  lemma StepPending(table: Table, groups: seq<seq<TypeId>>, base: Subs, deps: seq<set<nat>>, before: seq<GroupResult>,
                    after: seq<GroupResult>, k: nat, next: set<nat>)
    requires Regular(table, groups, base) && AllCovered(Graph(table, base), groups, deps)
    requires InStep(table, groups, base, before, k) && InStep(table, groups, base, after, k + 1)
    requires forall i, j | 0 <= i < |groups| && 0 <= j < |groups| && j in deps[i] && before[j] != after[j] :: i in next
    ensures Pending(table, groups, base, after, k + 1, next)
  {
    forall i | 0 <= i < |groups| && i !in next
      ensures Effective(base, after[i]) == Effective(base, NthResults(table, groups, base, k + 2)[i])
    {
      StepRepeats(table, groups, base, deps[i], before, after, k, i);
    }
  }

  // ----- when nothing is left

  /** The whole passes have stopped changing the map. */
  ghost predicate Settled(table: Table, groups: seq<seq<TypeId>>, base: Subs, k: nat)
    requires BaseDescends(table, base)
  {
    NthMap(table, groups, base, k + 1) == NthMap(table, groups, base, k)
  }

  /** The map at which they stopped. */
  ghost predicate SettlesTo(table: Table, groups: seq<seq<TypeId>>, base: Subs, m: Subs)
    requires BaseDescends(table, base)
  {
    exists k: nat :: Settled(table, groups, base, k) && m == NthMap(table, groups, base, k)
  }

  lemma EmptySettles(table: Table, groups: seq<seq<TypeId>>, base: Subs, results: seq<GroupResult>, k: nat)
    requires Regular(table, groups, base)
    requires InStep(table, groups, base, results, k) && Pending(table, groups, base, results, k, {})
    ensures Settled(table, groups, base, k)
  {
    NthOwned(table, groups, base, k);
    NthOwned(table, groups, base, k + 1);
    InStepMap(table, groups, base, results, k);
    MapsEqual(table, groups, base, results, NthResults(table, groups, base, k + 1));
  }

  lemma {:induction false} RepeatsOnce(table: Table, groups: seq<seq<TypeId>>, base: Subs, k: nat, i: nat)
    requires BaseDescends(table, base) && Settled(table, groups, base, k) && i > 0
    requires NthMap(table, groups, base, i - 1) == NthMap(table, groups, base, k)
    ensures NthMap(table, groups, base, i) == NthMap(table, groups, base, k)
  {
    NextMap(table, groups, base, k + 1);
    NextMap(table, groups, base, i);
  }

  /** If the passes have settled by the `k`th, the `i`th gives the same map. */
  ghost predicate StaysAt(table: Table, groups: seq<seq<TypeId>>, base: Subs, k: nat, i: nat)
    requires BaseDescends(table, base)
  {
    k <= i && Settled(table, groups, base, k) ==> NthMap(table, groups, base, i) == NthMap(table, groups, base, k)
  }

  lemma {:induction false} StaysOn(table: Table, groups: seq<seq<TypeId>>, base: Subs, k: nat, i: nat)
    requires BaseDescends(table, base) && i > 0 && StaysAt(table, groups, base, k, i - 1)
    ensures StaysAt(table, groups, base, k, i)
  {
    if k < i && Settled(table, groups, base, k) {
      RepeatsOnce(table, groups, base, k, i);
    }
  }

  ghost function StaysFrom(table: Table, groups: seq<seq<TypeId>>, base: Subs, k: nat): nat -> bool
    requires BaseDescends(table, base)
  {
    (i: nat) => StaysAt(table, groups, base, k, i)
  }

  ghost predicate LeadsOn(holds: nat -> bool, i: nat) {
    holds(i) ==> holds(i + 1)
  }

  lemma {:induction false} HoldsOn(holds: nat -> bool, i: nat)
    requires holds(0) && forall j: nat :: LeadsOn(holds, j)
    ensures holds(i)
  {
    if i > 0 {
      HoldsOn(holds, i - 1);
      assert LeadsOn(holds, i - 1);
    }
  }

  lemma StaysLead(table: Table, groups: seq<seq<TypeId>>, base: Subs, k: nat, i: nat)
    requires BaseDescends(table, base)
    ensures LeadsOn(StaysFrom(table, groups, base, k), i)
  {
    if StaysAt(table, groups, base, k, i) {
      StaysOn(table, groups, base, k, i + 1);
    }
  }

  lemma Stays(table: Table, groups: seq<seq<TypeId>>, base: Subs, k: nat, i: nat)
    requires BaseDescends(table, base)
    ensures StaysFrom(table, groups, base, k)(i)
  {
    forall j: nat
      ensures LeadsOn(StaysFrom(table, groups, base, k), j)
    {
      StaysLead(table, groups, base, k, j);
    }
    HoldsOn(StaysFrom(table, groups, base, k), i);
  }

  /** Once settled, settled: every later pass gives the same map. */
  lemma SettledStays(table: Table, groups: seq<seq<TypeId>>, base: Subs, k: nat, later: nat)
    requires BaseDescends(table, base) && Settled(table, groups, base, k) && k <= later
    ensures NthMap(table, groups, base, later) == NthMap(table, groups, base, k)
  {
    Stays(table, groups, base, k, later);
  }

  /** The whole passes have at most one answer. */
  lemma SettledOnce(table: Table, groups: seq<seq<TypeId>>, base: Subs, j: nat, k: nat)
    requires BaseDescends(table, base) && Settled(table, groups, base, j) && Settled(table, groups, base, k)
    ensures NthMap(table, groups, base, j) == NthMap(table, groups, base, k)
  {
    if j <= k {
      SettledStays(table, groups, base, j, k);
    } else {
      SettledStays(table, groups, base, k, j);
    }
  }
}
