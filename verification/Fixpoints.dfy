/** The named partition in progress: a worklist over the groups, and rounds of placement. */
module Fixpoints {
  import opened RawTypes
  import opened Collections
  import opened Substitution
  import opened Layout
  import opened Signature
  import opened Groups
  import opened GroupFacts
  import opened Passes
  import opened Grouping
  import opened Dependence
  import DependencyIndex
  import opened Swapping
  import opened FirstPass
  import opened Rounds
  import opened Worklist

  /** The most passes all rounds together run before giving up on the map settling. */
  const MAX_IDENTITY_PASSES := 64

  ghost predicate AllLower(table: Table, base: map<TypeId, TypeId>, results: seq<GroupResult>) {
    forall g | 0 <= g < |results| :: AliasesLower(table, base, results[g])
  }

  /** What `first` says of a group, unless `current` says otherwise. */
  function ResultOr(first: seq<GroupResult>, current: seq<Option<GroupResult>>, g: nat): GroupResult
    requires |first| == |current| && g < |first|
  {
    if current[g].Some? then current[g].value else first[g]
  }

  ghost function AllResults(first: seq<GroupResult>, current: seq<Option<GroupResult>>): (r: seq<GroupResult>)
    requires |first| == |current|
    ensures |r| == |first|
    ensures forall g | 0 <= g < |r| :: r[g] == ResultOr(first, current, g)
  {
    seq(|first|, g requires 0 <= g < |first| => ResultOr(first, current, g))
  }

  lemma ResultsUpdated(first: seq<GroupResult>, current: seq<Option<GroupResult>>, g: nat, result: GroupResult)
    requires |first| == |current| && g < |first|
    ensures AllResults(first, current[g := Some(result)]) == AllResults(first, current)[g := result]
  {
  }

  ghost predicate NoRepeats(s: seq<nat>) {
    forall i, j | 0 <= i < j < |s| :: s[i] != s[j]
  }

  /** The dirty groups are exactly those with a current result, each listed once. */
  ghost predicate IsDirty(dirty: seq<nat>, current: seq<Option<GroupResult>>) {
    && NoRepeats(dirty)
    && (forall g: nat :: g in dirty <==> g < |current| && current[g].Some?)
  }

  /** A result some pass over this base gives, up to entries the base overrides. */
  ghost predicate Genuine(table: Table, base: Subs, ids: seq<TypeId>, result: GroupResult) {
    exists p: Partition ::
      && p.table == table && p.base == base
      && Effective(base, result) == Effective(base, Result(p, ids))
      && (result.canonicals > 1 <==> Result(p, ids).canonicals > 1)
  }

  ghost predicate AllGenuine(table: Table, groups: seq<seq<TypeId>>, base: Subs, results: seq<GroupResult>) {
    && |results| == |groups|
    && forall g | 0 <= g < |groups| :: Genuine(table, base, groups[g], results[g])
  }

  /** First-pass results, good for any later base: they are the by-name results but for
  entries the base has since taken over. */
  ghost predicate FirstFits(table: Table, groups: seq<seq<TypeId>>, base: Subs, first: seq<GroupResult>)
    requires BaseDescends(table, base)
  {
    && InStep(table, groups, base, first, 0)
    && forall g | 0 <= g < |groups| ::
         first[g].canonicals > 1 <==> NthResults(table, groups, base, 0)[g].canonicals > 1
  }

  /** The partition in progress, as a value. */
  datatype State = State(table: Table, groups: seq<seq<TypeId>>, referrers: seq<seq<nat>>, deps: seq<set<nat>>,
                         base: Subs, subs: Subs, first: seq<GroupResult>, current: seq<Option<GroupResult>>,
                         dirty: seq<nat>)
  {
    /** What every step keeps, whatever the types are like: no edge of the map goes up, and
    the dirty groups are those with a current result. */
    ghost predicate Sound() {
      && |referrers| == |first| == |current| == |groups|
      && ReferrersInRange(referrers)
      && BaseDescends(table, base) && Descends(table, base, subs)
      && AllLower(table, base, first) && AllLower(table, base, AllResults(first, current))
      && IsDirty(dirty, current)
    }

    ghost function Results(): seq<GroupResult>
      requires |first| == |current|
    {
      AllResults(first, current)
    }

    /** In step with the `k`th whole pass of this round: the map in hand is that pass's. */
    ghost predicate Tracks(k: nat) {
      && Sound()
      && Regular(table, groups, base)
      && AllCovered(Graph(table, base), groups, deps) && Inverts(deps, referrers)
      && FirstFits(table, groups, base, first)
      && InStep(table, groups, base, Results(), k)
      && AllGenuine(table, groups, base, Results())
      && subs == MapOf(base, Results())
    }

    /** Every group partitioned by name, the map built from that, and the dependencies indexed. */
    ghost predicate Begun() {
      && first == ResultsOf(Partition(table, base, None), groups)
      && subs == MapOf(base, first)
      && |deps| == |groups| && Inverts(deps, referrers)
      && exists index: map<GroupKey, nat> ::
           DependencyIndex.Indexes(table, groups, index)
             && AreDependencies(Partition(table, base, None), groups, index, deps)
    }

    /** With links that stay in their groups, the map is the base over all the groups' current
    aliases, at every step of every cascade and placement. */
    ghost predicate Represents() {
      && |first| == |current| == |groups|
      && Grouped(table, groups) && GroupClosed(table, base)
      && Owned(groups, first) && InMap(groups, base, subs, Results())
    }

    /** At the start of a round no group has moved off its first-pass result. */
    ghost predicate Unmoved() {
      && |current| == |groups|
      && forall g | 0 <= g < |groups| :: current[g].None?
    }

    /** The whole passes over this base have settled by the `k`th. */
    ghost predicate Rests(k: nat) {
      BaseDescends(table, base) && Settled(table, groups, base, k)
    }

    ghost predicate Awaits(k: nat, worklist: seq<nat>) {
      && Sound()
      && Pending(table, groups, base, Results(), k, Elements(worklist))
    }
  }

  class Fixpoint {
    const table: Table
    const groups: seq<seq<TypeId>>
    /** `g in referrers[h]` when `h` is one of `deps[g]`. */
    var referrers: seq<seq<nat>>
    ghost var deps: seq<set<nat>>
    /** What no pass changes: the folded links, grown by every round's placements. */
    var base: Subs
    /** `MapOf(base, Now().Results())` whenever the links keep to their groups. */
    var subs: Subs
    var first: seq<GroupResult>
    var current: seq<Option<GroupResult>>
    var dirty: seq<nat>
    var passes: nat
    var repartitioned: nat

    ghost function Now(): State
      reads this
    {
      State(table, groups, referrers, deps, base, subs, first, current, dirty)
    }

    ghost predicate Valid()
      reads this
    {
      Now().Sound()
    }

    /** Partition every group by name, and build the map and the referrer index from that. */
    constructor (table: Table, groups: seq<seq<TypeId>>, base: Subs)
      requires BaseDescends(table, base)
      ensures Valid()
      ensures this.table == table && this.groups == groups && this.base == base
      ensures passes == 1 && repartitioned == |groups|
      ensures Now().Begun() && Now().Unmoved()
    {
      var results, dependencies, index := PartitionByName(table, groups, base);
      FreshLower(table, groups, base, results);
      var inverse := InvertDependencies(dependencies);
      var start := BuildMap(table, base, results);
      this.table, this.groups, this.base := table, groups, base;
      referrers, deps := inverse, dependencies;
      subs, first := start, results;
      current, dirty := seq(|groups|, i => None), [];
      passes, repartitioned := 1, |groups|;
      new;
      assert AllResults(first, current) == first;
    }

    method TakeOut(outgoing: seq<Pair>)
      requires BaseDescends(table, base) && Descends(table, base, subs)
      modifies this`subs
      ensures Descends(table, base, subs)
      ensures subs == Restored(base, old(subs), AliasMap(outgoing).Keys)
    {
      ghost var start := subs;
      for i := 0 to |outgoing|
        invariant subs == Restored(base, start, AliasMap(outgoing[..i]).Keys)
      {
        var duplicate := outgoing[i].0;
        TakenOneMore(table, base, start, outgoing, i);
        if duplicate in base {
          subs := subs[duplicate := base[duplicate]];
        } else {
          subs := subs - {duplicate};
        }
      }
      assert outgoing[..|outgoing|] == outgoing;
      RestoredDescends(table, base, start, AliasMap(outgoing).Keys);
    }

    method PutIn(incoming: seq<Pair>)
      requires BaseDescends(table, base) && Descends(table, base, subs)
      requires AliasesLower(table, base, GroupResult(incoming, 0))
      modifies this`subs
      ensures Descends(table, base, subs)
      ensures subs == old(subs) + (AliasMap(incoming) - base.Keys)
    {
      ghost var start := subs;
      for i := 0 to |incoming|
        invariant subs == start + (AliasMap(incoming[..i]) - base.Keys)
      {
        PutOneMore(table, base, start, incoming, i);
        if incoming[i].0 !in base {
          subs := subs[incoming[i].0 := incoming[i].1];
        }
      }
      assert incoming[..|incoming|] == incoming;
      AddedDescends(table, base, start, GroupResult(incoming, 0), |incoming|);
    }

    /** The map with the keys of `outgoing` restored to the base and the pairs of `incoming` over
    that, where the base has no say. */
    method SwapAliases(outgoing: seq<Pair>, incoming: seq<Pair>)
      requires BaseDescends(table, base) && Descends(table, base, subs)
      requires AliasesLower(table, base, GroupResult(incoming, 0))
      modifies this`subs
      ensures Descends(table, base, subs)
      ensures subs == Swapped(base, old(subs), outgoing, incoming)
    {
      TakeOut(outgoing);
      PutIn(incoming);
    }

    /** `result` becomes the current one of group `g`, and `subs` and `dirty` follow. */
    method Apply(g: nat, result: GroupResult)
      requires Valid() && g < |groups| && AliasesLower(table, base, result)
      modifies this`subs, this`dirty, this`current
      ensures Valid()
      ensures current == old(current)[g := Some(result)]
      ensures subs == Swapped(base, old(subs), old(Now()).Results()[g].aliases, result.aliases)
    {
      var was := ResultOr(first, current, g);
      assert AliasesLower(table, base, GroupResult(result.aliases, 0));
      SwapAliases(was.aliases, result.aliases);
      DirtyGrows(dirty, current, g, result);
      ResultsUpdated(first, current, g, result);
      if current[g].None? {
        dirty := dirty + [g];
      }
      current := current[g := Some(result)];
    }

    /** The first worklist of a cascade, which `IsSeed` fixes as a set. */
    method Seed() returns (seed: seq<nat>)
      requires Valid()
      ensures IsSeed(referrers, Now().Results(), seed)
      ensures NoRepeats(seed) && InBounds(seed, |groups|)
    {
      var found: set<nat> := {};
      for h := 0 to |groups|
        invariant forall g: nat :: g in found <==> SeededBy(referrers, Now().Results(), g, h)
      {
        ghost var was := found;
        if ResultOr(first, current, h).canonicals > 1 {
          found := found + set g | g in referrers[h];
        }
        forall g: nat
          ensures g in found <==> SeededBy(referrers, Now().Results(), g, h + 1)
        {
          SeededOneMore(referrers, Now().Results(), g, h);
        }
      }
      seed := Ascending(found);
    }

    /** What a pass with `subs` as its previous map gives each group of the worklist. */
    method Repartition(worklist: seq<nat>) returns (results: seq<GroupResult>)
      requires InBounds(worklist, |groups|)
      ensures Repartitions(Partition(table, base, Some(subs)), groups, worklist, results)
    {
      results := [];
      var p := Partition(table, base, Some(subs));
      for i := 0 to |worklist|
        invariant |results| == i && Repartitions(p, groups, worklist[..i], results)
      {
        var result := CompatibleNamedAliases(p, groups[worklist[i]]);
        RepartitionsOneMore(p, groups, worklist, i, results, result);
        results := results + [result];
      }
      assert worklist[..|worklist|] == worklist;
    }

    /** Take in one result if it changed, and find who references its group. */
    method ApplyOne(g: nat, result: GroupResult) returns (more: set<nat>)
      requires Valid() && g < |groups| && AliasesLower(table, base, result)
      modifies this`subs, this`dirty, this`current
      ensures Valid() && Now().Results() == old(Now()).Results()[g := result]
      ensures Grouped(table, groups) && old(InMap(groups, base, subs, Now().Results())) && OwnedBy(groups[g], result)
              ==> InMap(groups, base, subs, Now().Results())
      ensures more == if old(Now()).Results()[g] != result then Elements(referrers[g]) else {}
    {
      more := {};
      if ResultOr(first, current, g) != result {
        if Grouped(table, groups) && InMap(groups, base, subs, Now().Results()) && OwnedBy(groups[g], result) {
          SwappedIsMapOf(table, groups, base, Now().Results(), g, result);
        }
        ResultsUpdated(first, current, g, result);
        Apply(g, result);
        more := set r | r in referrers[g];
        assert more == Elements(referrers[g]);
      }
    }

    /** Take in the results that changed, and find who references those groups. */
    method ApplyAll(worklist: seq<nat>, results: seq<GroupResult>, ghost renewed: seq<GroupResult>)
      returns (next: set<nat>)
      requires Valid() && InBounds(worklist, |groups|)
      requires |renewed| == |groups| && AllLower(table, base, renewed)
      requires |results| == |worklist| && forall i | 0 <= i < |worklist| :: results[i] == renewed[worklist[i]]
      modifies this`subs, this`dirty, this`current
      ensures Valid() && Now().Results() == Overlay(old(Now()).Results(), renewed, worklist)
      ensures Grouped(table, groups) && old(InMap(groups, base, subs, Now().Results())) && Owned(groups, renewed)
              ==> InMap(groups, base, subs, Now().Results())
      ensures Notified(referrers, old(Now()).Results(), Now().Results(), next)
    {
      next := {};
      ghost var before := Now().Results();
      ghost var keeps := Grouped(table, groups) && InMap(groups, base, subs, before) && Owned(groups, renewed);
      assert Overlay(before, renewed, worklist[..0]) == before;
      for i := 0 to |worklist|
        invariant Valid() && Now().Results() == Overlay(before, renewed, worklist[..i])
        invariant keeps ==> InMap(groups, base, subs, Now().Results())
        invariant Notified(referrers, before, Now().Results(), next)
      {
        OverlayOneMore(before, renewed, worklist, i);
        ghost var mid := Now().Results();
        var more := ApplyOne(worklist[i], results[i]);
        NotifiedOneMore(referrers, before, mid, worklist[i], results[i], next, more);
        next := next + more;
      }
      assert worklist[..|worklist|] == worklist;
    }

    /** One by-class pass over the worklist; what it changed makes the next one. */
    method Pass(worklist: seq<nat>) returns (next: seq<nat>)
      requires Valid() && InBounds(worklist, |groups|)
      modifies this`subs, this`dirty, this`current
      ensures Valid() && InBounds(next, |groups|) && NoRepeats(next)
      ensures StepOf(old(Now()), worklist, Now(), next)
    {
      ghost var p := Partition(table, base, Some(subs));
      ghost var renewed := ResultsOf(p, groups);
      RenewedLower(p, groups);
      var results := Repartition(worklist);
      var changed := ApplyAll(worklist, results, renewed);
      next := Ascending(changed);
      assert Elements(next) == changed;
      NotifiedInBounds(old(Now()), old(Now()).Results(), Now().Results(), next);
    }

    /** Passes, each over the worklist the one before it left, from the seed to an empty list or
    the limit. The ghost `run` holds every state and worklist on the way. */
    method Cascade() returns (settled: bool, ghost run: Run)
      requires Valid()
      modifies this`subs, this`dirty, this`current, this`passes, this`repartitioned
      ensures Valid()
      ensures run.Of(old(Now()), Now()) && passes == old(passes) + run.Passes()
      ensures repartitioned == old(repartitioned) + run.Load()
      ensures settled ==> run.Last() == []
      ensures !settled ==> passes >= MAX_IDENTITY_PASSES
      ensures run.Passes() > 0 ==> passes <= MAX_IDENTITY_PASSES
    {
      var worklist := Seed();
      run := Run([Now()], [worklist]);
      while worklist != []
        invariant Valid() && InBounds(worklist, |groups|) && NoRepeats(worklist)
        invariant run.Of(old(Now()), Now()) && run.Last() == worklist
        invariant passes == old(passes) + run.Passes() && (run.Passes() > 0 ==> passes <= MAX_IDENTITY_PASSES)
        invariant repartitioned == old(repartitioned) + run.Load()
        decreases if passes <= MAX_IDENTITY_PASSES then MAX_IDENTITY_PASSES - passes else 0
      {
        if passes >= MAX_IDENTITY_PASSES {
          return false, run;
        }
        ghost var before := Now();
        passes, repartitioned := passes + 1, repartitioned + |worklist|;
        var next := Pass(worklist);
        RunExtends(run, old(Now()), before, Now(), next);
        run := run.Then(Now(), next);
        worklist := next;
      }
      return true, run;
    }

    /** `base` and `subs` both grow by the pairs of `placed`. */
    method TakeIn(placed: seq<Pair>)
      requires BaseDescends(table, base) && Descends(table, base, subs) && Placeable(table, base, placed)
      modifies this`base, this`subs
      ensures base == old(base) + AliasMap(placed) && subs == old(subs) + AliasMap(placed)
      ensures BaseDescends(table, base) && Descends(table, base, subs)
    {
      ghost var b, m := base, subs;
      for i := 0 to |placed|
        invariant base == b + AliasMap(placed[..i]) && subs == m + AliasMap(placed[..i])
      {
        AliasPrefix(placed, i);
        TakenInOneMore(table, b, m, placed, i);
        base := base[placed[i].0 := placed[i].1];
        subs := subs[placed[i].0 := placed[i].1];
      }
      assert placed[..|placed|] == placed;
      TakenInDescends(table, b, m, placed);
    }

    /** Group `g` loses its current result, and the map the aliases that came with it. */
    method PutBack(g: nat)
      requires |first| == |current| == |groups| && g < |groups| && current[g].Some?
      requires BaseDescends(table, base) && Descends(table, base, subs) && AllLower(table, base, first)
      modifies this`subs, this`current
      ensures current == old(current)[g := None] && Descends(table, base, subs)
      ensures Grouped(table, groups) && old(InMap(groups, base, subs, AllResults(first, current)))
              && Owned(groups, first)
              ==> InMap(groups, base, subs, old(AllResults(first, current))[g := first[g]])
    {
      ghost var before := AllResults(first, current);
      assert AliasesLower(table, base, GroupResult(first[g].aliases, 0));
      if Grouped(table, groups) && InMap(groups, base, subs, before) && Owned(groups, first) {
        SwappedIsMapOf(table, groups, base, before, g, first[g]);
      }
      SwapAliases(current[g].value.aliases, first[g].aliases);
      current := current[g := None];
    }

    /** No group is left with a current result: the state is `Unmoved`, and nothing is dirty. */
    method Reset()
      requires |first| == |current| == |groups| && IsDirty(dirty, current)
      requires BaseDescends(table, base) && Descends(table, base, subs) && AllLower(table, base, first)
      modifies this`subs, this`current, this`dirty
      ensures Descends(table, base, subs)
      ensures |current| == |groups| && Now().Unmoved() && dirty == []
      ensures Grouped(table, groups) && old(InMap(groups, base, subs, Now().Results())) && Owned(groups, first)
              ==> InMap(groups, base, subs, first)
    {
      var todo := dirty;
      dirty := [];
      ghost var keeps := Grouped(table, groups) && InMap(groups, base, subs, Now().Results()) && Owned(groups, first);
      for i := 0 to |todo|
        invariant |current| == |groups| && Remaining(todo, i, current) && dirty == []
        invariant Descends(table, base, subs)
        invariant keeps ==> InMap(groups, base, subs, AllResults(first, current))
      {
        RemainingHas(todo, i, current);
        RemainingOneLess(todo, i, first, current);
        PutBack(todo[i]);
      }
      RemainingNone(todo, first, current);
    }

    /** The end of a round that places something: `ResetOf` says what the state is then. */
    method Place(placed: seq<Pair>)
      requires Valid() && Placeable(table, base, placed)
      modifies this`base, this`subs, this`current, this`dirty
      ensures Valid()
      ensures ResetOf(old(Now()), placed, Now())
    {
      ghost var s := Now();
      LowerPlaced(table, base, placed, first);
      TakeIn(placed);
      MapOfPlaced(s.base, AliasMap(placed), s.Results());
      Reset();
      assert AllResults(first, current) == first;
      assert current == Nones(|groups|);
    }
  }

  ghost function Nones(n: nat): (r: seq<Option<GroupResult>>)
    ensures |r| == n && forall i | 0 <= i < n :: r[i].None?
  {
    seq(n, i => None)
  }

  /** What a round's end does: the base grows by the placements, and the map goes back to
  what the first pass makes of it. */
  ghost predicate ResetOf(s: State, placed: seq<Pair>, t: State) {
    && |s.first| == |s.current| == |s.groups|
    && t == s.(base := t.base, subs := t.subs, current := Nones(|s.groups|), dirty := [])
    && t.base == s.base + AliasMap(placed)
    && (Grouped(s.table, s.groups) && InMap(s.groups, s.base, s.subs, s.Results()) && Owned(s.groups, s.first)
        ==> InMap(t.groups, t.base, t.subs, t.first))
  }

  /** Declarations and definitions the base leaves alone. */
  ghost predicate Placeable(table: Table, base: map<TypeId, TypeId>, placed: seq<Pair>) {
    forall pair | pair in placed ::
      && pair.0 in table.declarations && pair.0 !in base
      && pair.1 !in table.declarations && pair.1 !in base
  }

  lemma PlaceablePlaces(table: Table, base: map<TypeId, TypeId>, placed: seq<Pair>)
    requires Placeable(table, base, placed)
    ensures PlacesDeclarations(table, base, AliasMap(placed))
  {
    forall d | d in AliasMap(placed)
      ensures && d in table.declarations && d !in base
              && AliasMap(placed)[d] !in table.declarations && AliasMap(placed)[d] !in base
    {
      AliasMapHas(placed, d);
      assert (d, AliasMap(placed)[d]) in placed;
    }
  }

  lemma TakenInDescends(table: Table, base: Subs, subs: Subs, placed: seq<Pair>)
    requires BaseDescends(table, base) && Descends(table, base, subs) && Placeable(table, base, placed)
    ensures var b, m := base + AliasMap(placed), subs + AliasMap(placed);
            BaseDescends(table, b) && Acyclic(b) && Descends(table, b, m) && Acyclic(m)
  {
    PlaceablePlaces(table, base, placed);
    PlacedDescends(table, base, AliasMap(placed));
    var b, m := base + AliasMap(placed), subs + AliasMap(placed);
    DescendingIsAcyclic(table, b, m);
  }

  lemma TakenInOneMore(table: Table, base: Subs, subs: Subs, placed: seq<Pair>, i: nat)
    requires BaseDescends(table, base) && Descends(table, base, subs) && Placeable(table, base, placed) && i < |placed|
    ensures (base + AliasMap(placed[..i]))[placed[i].0 := placed[i].1] == base + AliasMap(placed[..i + 1])
    ensures (subs + AliasMap(placed[..i]))[placed[i].0 := placed[i].1] == subs + AliasMap(placed[..i + 1])
    ensures Acyclic(base + AliasMap(placed[..i + 1])) && Acyclic(subs + AliasMap(placed[..i + 1]))
  {
    SumOneMore(base, placed, i);
    SumOneMore(subs, placed, i);
    assert Placeable(table, base, placed[..i + 1]);
    TakenInDescends(table, base, subs, placed[..i + 1]);
  }

  lemma SumOneMore(m: map<TypeId, TypeId>, placed: seq<Pair>, i: nat)
    requires i < |placed|
    ensures (m + AliasMap(placed[..i]))[placed[i].0 := placed[i].1] == m + AliasMap(placed[..i + 1])
  {
    assert placed[..i + 1][..i] == placed[..i];
  }

  lemma LowerPlaced(table: Table, base: map<TypeId, TypeId>, placed: seq<Pair>, results: seq<GroupResult>)
    requires Placeable(table, base, placed) && AllLower(table, base, results)
    ensures AllLower(table, base + AliasMap(placed), results)
  {
    PlaceablePlaces(table, base, placed);
    forall g | 0 <= g < |results|
      ensures AliasesLower(table, base + AliasMap(placed), results[g])
    {
      assert AliasesLower(table, base, results[g]);
    }
  }

  lemma {:induction false} MapOfPlaced(base: map<TypeId, TypeId>, placed: map<TypeId, TypeId>,
                                       results: seq<GroupResult>)
    ensures MapOf(base + placed, results) == MapOf(base, results) + placed
  {
    if results != [] {
      MapOfPlaced(base, placed, results[..|results| - 1]);
      SumsAgree(MapOf(base, results[..|results| - 1]), AliasMap(results[|results| - 1].aliases), base, placed);
    }
  }

  lemma SumsAgree(m: map<TypeId, TypeId>, a: map<TypeId, TypeId>, base: map<TypeId, TypeId>,
                  placed: map<TypeId, TypeId>)
    ensures (m + placed) + (a - (base + placed).Keys) == (m + (a - base.Keys)) + placed
  {
  }

  /** The groups still to go back are those with a current result. */
  ghost predicate Remaining(todo: seq<nat>, i: nat, current: seq<Option<GroupResult>>) {
    && NoRepeats(todo) && i <= |todo|
    && forall g: nat :: IsLeft(todo[i..], current, g)
  }

  ghost predicate IsLeft(rest: seq<nat>, current: seq<Option<GroupResult>>, g: nat) {
    g in rest <==> g < |current| && current[g].Some?
  }

  lemma RemainingHas(todo: seq<nat>, i: nat, current: seq<Option<GroupResult>>)
    requires Remaining(todo, i, current) && i < |todo|
    ensures todo[i] < |current| && current[todo[i]].Some?
  {
    assert IsLeft(todo[i..], current, todo[i]);
    assert todo[i] in todo[i..];
  }

  lemma RemainingOneLess(todo: seq<nat>, i: nat, first: seq<GroupResult>, current: seq<Option<GroupResult>>)
    requires Remaining(todo, i, current) && i < |todo| && todo[i] < |current| == |first|
    ensures Remaining(todo, i + 1, current[todo[i] := None])
    ensures AllResults(first, current[todo[i] := None]) == AllResults(first, current)[todo[i] := first[todo[i]]]
  {
    var after, rest := current[todo[i] := None], todo[i + 1..];
    forall g: nat
      ensures IsLeft(rest, after, g)
    {
      assert IsLeft(todo[i..], current, g);
      assert g in todo[i..] <==> g == todo[i] || g in todo[i + 1..];
      if g in todo[i + 1..] {
        var j :| i + 1 <= j < |todo| && todo[j] == g;
        assert todo[i] != todo[j];
      }
    }
  }

  lemma RemainingNone(todo: seq<nat>, first: seq<GroupResult>, current: seq<Option<GroupResult>>)
    requires Remaining(todo, |todo|, current) && |first| == |current|
    ensures forall g | 0 <= g < |current| :: current[g].None?
    ensures AllResults(first, current) == first
  {
    assert todo[|todo|..] == [];
    forall g | 0 <= g < |current|
      ensures current[g].None?
    {
      assert IsLeft(todo[|todo|..], current, g);
    }
  }

  /** What one pass does to the partition: the worklist's groups take the results the map
  gives them, the map follows, and whoever references a changed group comes next. */
  ghost predicate StepOf(s: State, worklist: seq<nat>, t: State, next: seq<nat>) {
    && |s.first| == |s.current| == |s.groups|
    && t == s.(subs := t.subs, current := t.current, dirty := t.dirty) && |t.current| == |t.first|
    && (var renewed := ResultsOf(Partition(s.table, s.base, Some(s.subs)), s.groups);
        && t.Results() == Overlay(s.Results(), renewed, worklist)
        && (Grouped(s.table, s.groups) && InMap(s.groups, s.base, s.subs, s.Results()) && Owned(s.groups, renewed)
            ==> InMap(t.groups, t.base, t.subs, t.Results())))
    && Notified(s.referrers, s.Results(), t.Results(), Elements(next))
  }

  lemma StepRepresents(s: State, worklist: seq<nat>, t: State, next: seq<nat>)
    requires s.Represents() && StepOf(s, worklist, t, next)
    ensures t.Represents()
  {
    ResultsOwned(Partition(s.table, s.base, Some(s.subs)), s.groups);
  }

  lemma BegunRepresents(s: State)
    requires s.Begun() && s.Unmoved() && |s.first| == |s.current| && Grouped(s.table, s.groups)
             && GroupClosed(s.table, s.base)
    ensures s.Represents()
  {
    assert s.Results() == s.first;
    ResultsOwned(Partition(s.table, s.base, None), s.groups);
  }

  lemma ResetRepresents(s: State, placed: seq<Pair>, t: State)
    requires s.Represents() && ResetOf(s, placed, t) && PlacesInGroup(s.table, AliasMap(placed))
    ensures t.Represents()
  {
    PlacedClosed(s.table, s.base, AliasMap(placed));
    assert t.Results() == t.first;
  }

  lemma {:induction false} RunRepresents(run: Run, s: State, t: State, k: nat)
    requires run.Of(s, t) && s.Represents() && k < |run.states|
    ensures run.states[k].Represents()
    decreases k
  {
    if k > 0 {
      var before := k - 1;
      RunRepresents(run, s, t, before);
      assert run.StepsAt(before);
      StepRepresents(run.states[before], run.lists[before], run.states[k], run.lists[k]);
    }
  }

  /** The states of a cascade and the worklist at each. */
  datatype Run = Run(states: seq<State>, lists: seq<seq<nat>>)
  {
    /** At each state a worklist of its groups, left empty by the last pass at most. */
    ghost predicate Listed()
      requires |states| == |lists|
    {
      && (forall i | 0 <= i < |states| ::
            states[i].Sound() && InBounds(lists[i], |states[i].groups|) && NoRepeats(lists[i]))
      && forall i | 0 <= i < |states| - 1 :: lists[i] != []
    }

    ghost predicate StepsAt(i: nat)
      requires i + 1 < |states| == |lists|
    {
      StepOf(states[i], lists[i], states[i + 1], lists[i + 1])
    }

    ghost predicate Steps() {
      && |states| == |lists| && |states| > 0
      && Listed()
      && forall i: nat | i + 1 < |states| :: StepsAt(i)
    }

    ghost predicate Of(s: State, t: State) {
      && Steps()
      && states[0] == s && states[|states| - 1] == t
      && |s.referrers| == |s.first| == |s.current|
      && IsSeed(s.referrers, s.Results(), lists[0])
    }

    ghost function Passes(): nat {
      if states == [] then 0 else |states| - 1
    }

    ghost function Last(): seq<nat> {
      if lists == [] then [] else lists[|lists| - 1]
    }

    /** How many groups its passes repartitioned. */
    ghost function Load(): nat {
      if lists == [] then 0 else Total(lists[..|lists| - 1])
    }

    ghost function Then(t: State, next: seq<nat>): Run {
      Run(states + [t], lists + [next])
    }
  }

  ghost function Total(lists: seq<seq<nat>>): nat {
    if lists == [] then 0 else Total(lists[..|lists| - 1]) + |lists[|lists| - 1]|
  }

  lemma EarlierStep(run: Run, u: State, next: seq<nat>, i: nat)
    requires i + 1 < |run.states| == |run.lists| && run.StepsAt(i)
    ensures run.Then(u, next).StepsAt(i)
  {
  }

  lemma LastStep(run: Run, u: State, next: seq<nat>)
    requires 0 < |run.states| == |run.lists| && StepOf(run.states[|run.states| - 1], run.Last(), u, next)
    ensures run.Then(u, next).StepsAt(|run.states| - 1)
  {
  }

  lemma ListedExtends(run: Run, u: State, next: seq<nat>)
    requires 0 < |run.states| == |run.lists| && run.Listed() && run.Last() != []
    requires u.Sound() && InBounds(next, |u.groups|) && NoRepeats(next)
    ensures run.Then(u, next).Listed()
  {
  }

  lemma StepsExtend(run: Run, u: State, next: seq<nat>)
    requires 0 < |run.states| == |run.lists| && forall i: nat | i + 1 < |run.states| :: run.StepsAt(i)
    requires StepOf(run.states[|run.states| - 1], run.Last(), u, next)
    ensures forall i: nat | i + 1 < |run.Then(u, next).states| :: run.Then(u, next).StepsAt(i)
  {
    LastStep(run, u, next);
    forall i: nat | i + 1 < |run.Then(u, next).states|
      ensures run.Then(u, next).StepsAt(i)
    {
      if i + 1 < |run.states| {
        EarlierStep(run, u, next, i);
      }
    }
  }

  lemma RunExtends(run: Run, s: State, t: State, u: State, next: seq<nat>)
    requires run.Of(s, t) && StepOf(t, run.Last(), u, next) && u.Sound()
    requires run.Last() != [] && InBounds(next, |u.groups|) && NoRepeats(next)
    ensures run.Then(u, next).Of(s, u) && run.Then(u, next).Last() == next
    ensures run.Then(u, next).Passes() == run.Passes() + 1
    ensures run.Then(u, next).Load() == run.Load() + |run.Last()|
  {
    ListedExtends(run, u, next);
    StepsExtend(run, u, next);
    var more := run.Then(u, next);
    assert more.lists[..|more.lists| - 1] == run.lists;
  }

  /** Over a whole cascade the map stays the whole pass's of the same number, and when the
  worklist runs dry the whole passes have settled too. */
  lemma {:induction false} RunKeepsUp(run: Run, s: State, t: State, k: nat)
    requires run.Of(s, t) && s.Tracks(0) && s.Unmoved() && k < |run.states|
    ensures run.states[k].Tracks(k) && run.states[k].Awaits(k, run.lists[k])
    decreases k
  {
    if k == 0 {
      SeedStarts(s, run.lists[0]);
    } else {
      var before := k - 1;
      RunKeepsUp(run, s, t, before);
      StepKeepsUp(run, before, k);
    }
  }

  lemma StepKeepsUp(run: Run, k: nat, next: nat)
    requires next < |run.states| == |run.lists| && next == k + 1 && run.StepsAt(k) && run.states[next].Sound()
    requires run.states[k].Tracks(k) && run.states[k].Awaits(k, run.lists[k])
    ensures run.states[next].Tracks(next) && run.states[next].Awaits(next, run.lists[next])
  {
    PassKeepsUp(run.states[k], run.states[next], run.lists[k], k, run.lists[next]);
  }

  lemma NothingLeft(s: State, k: nat)
    requires s.Tracks(k) && s.Awaits(k, [])
    ensures s.Rests(k)
  {
    assert Elements<nat>([]) == {};
    EmptySettles(s.table, s.groups, s.base, s.Results(), k);
  }

  /** A pass over the worklist keeps up with the whole pass. */
  lemma PassKeepsUp(s: State, t: State, worklist: seq<nat>, k: nat, next: seq<nat>)
    requires s.Tracks(k) && s.Awaits(k, worklist) && t.Sound()
    requires StepOf(s, worklist, t, next)
    ensures t.Tracks(k + 1) && t.Awaits(k + 1, next)
  {
    var p := Partition(s.table, s.base, Some(s.subs));
    RenewedIsNext(s.table, s.groups, s.base, s.subs, s.Results(), k);
    NthOwned(s.table, s.groups, s.base, k + 1);
    OverlayGenuine(p, s.groups, s.Results(), worklist);
    PassKeepsStep(s.table, s.groups, s.base, s.deps, s.referrers, s.Results(), ResultsOf(p, s.groups), worklist, k,
                  next);
  }

  lemma RenewedLower(p: Partition, groups: seq<seq<TypeId>>)
    ensures AllLower(p.table, p.base, ResultsOf(p, groups))
  {
    var results := ResultsOf(p, groups);
    forall g | 0 <= g < |results|
      ensures AliasesLower(p.table, p.base, results[g])
    {
      ResultIsLower(p, groups[g]);
    }
  }

  lemma RenewedIsNext(table: Table, groups: seq<seq<TypeId>>, base: Subs, subs: Subs, results: seq<GroupResult>, k: nat)
    requires Regular(table, groups, base) && InStep(table, groups, base, results, k) && subs == MapOf(base, results)
    ensures ResultsOf(Partition(table, base, Some(subs)), groups) == NthResults(table, groups, base, k + 1)
  {
    InStepMap(table, groups, base, results, k);
    assert NthPass(table, groups, base, k + 1) == Partition(table, base, Some(subs));
  }

  lemma OverlayGenuine(p: Partition, groups: seq<seq<TypeId>>, before: seq<GroupResult>, worklist: seq<nat>)
    requires AllGenuine(p.table, groups, p.base, before)
    ensures AllGenuine(p.table, groups, p.base, Overlay(before, ResultsOf(p, groups), worklist))
  {
    FreshGenuine(p, groups);
  }

  lemma PassKeepsStep(table: Table, groups: seq<seq<TypeId>>, base: Subs, deps: seq<set<nat>>, referrers: seq<seq<nat>>,
                      before: seq<GroupResult>, renewed: seq<GroupResult>, worklist: seq<nat>, k: nat, next: seq<nat>)
    requires Regular(table, groups, base) && AllCovered(Graph(table, base), groups, deps) && Inverts(deps, referrers)
    requires InStep(table, groups, base, before, k) && Pending(table, groups, base, before, k, Elements(worklist))
    requires renewed == NthResults(table, groups, base, k + 1)
    requires Notified(referrers, before, Overlay(before, renewed, worklist), Elements(next))
    ensures InStep(table, groups, base, Overlay(before, renewed, worklist), k + 1)
    ensures Pending(table, groups, base, Overlay(before, renewed, worklist), k + 1, Elements(next))
  {
    var after := Overlay(before, renewed, worklist);
    StepInStep(table, groups, base, before, after, k, Elements(worklist));
    forall i, j | 0 <= i < |groups| && 0 <= j < |groups| && j in deps[i] && before[j] != after[j]
      ensures i in Elements(next)
    {
      assert i in referrers[j];
      assert Affected(referrers, before, after, i);
    }
    StepPending(table, groups, base, deps, before, after, k, Elements(next));
  }

  lemma SeedListens(referrers: seq<seq<nat>>, deps: seq<set<nat>>, results: seq<GroupResult>, seed: seq<nat>, i: nat,
                    j: nat)
    requires |referrers| == |results| == |deps| && Inverts(deps, referrers) && IsSeed(referrers, results, seed)
    requires i < |deps| && j < |deps| && j in deps[i] && results[j].canonicals > 1
    ensures i in Elements(seed)
  {
    assert i in referrers[j];
    assert SeededBy(referrers, results, i, |results|);
  }

  lemma SeedStarts(s: State, seed: seq<nat>)
    requires s.Tracks(0) && s.Unmoved() && IsSeed(s.referrers, s.Results(), seed)
    ensures s.Awaits(0, seed)
  {
    var results := s.Results();
    assert results == s.first;
    forall i, j | 0 <= i < |s.groups| && 0 <= j < |s.groups| && j in s.deps[i]
                  && NthResults(s.table, s.groups, s.base, 0)[j].canonicals > 1
      ensures i in Elements(seed)
    {
      SeedListens(s.referrers, s.deps, results, seed, i, j);
    }
    SeedPending(s.table, s.groups, s.base, s.deps, results, Elements(seed));
  }

  /** The map in hand is the one these results give. */
  ghost predicate InMap(groups: seq<seq<TypeId>>, base: map<TypeId, TypeId>, subs: map<TypeId, TypeId>,
                        results: seq<GroupResult>) {
    Owned(groups, results) && subs == MapOf(base, results)
  }

  /** The results with those of the worklist replaced. */
  ghost function Overlay(before: seq<GroupResult>, renewed: seq<GroupResult>, worklist: seq<nat>): (r: seq<GroupResult>)
    requires |renewed| == |before|
    ensures |r| == |before|
    ensures forall g | 0 <= g < |r| :: r[g] == if g in worklist then renewed[g] else before[g]
  {
    seq(|before|, g requires 0 <= g < |before| => if g in worklist then renewed[g] else before[g])
  }

  lemma OverlayOneMore(before: seq<GroupResult>, renewed: seq<GroupResult>, worklist: seq<nat>, i: nat)
    requires |renewed| == |before| && InBounds(worklist, |before|) && i < |worklist|
    ensures Overlay(before, renewed, worklist[..i + 1])
            == Overlay(before, renewed, worklist[..i])[worklist[i] := renewed[worklist[i]]]
  {
    assert worklist[..i + 1] == worklist[..i] + [worklist[i]];
  }

  /** Some group that `r` references has a new result. */
  ghost predicate Affected(referrers: seq<seq<nat>>, before: seq<GroupResult>, after: seq<GroupResult>, r: nat)
    requires |referrers| == |before| == |after|
  {
    exists g :: 0 <= g < |before| && before[g] != after[g] && r in referrers[g]
  }

  /** `next` is the set of all affected groups. */
  ghost predicate Notified(referrers: seq<seq<nat>>, before: seq<GroupResult>, after: seq<GroupResult>,
                           next: set<nat>) {
    && |referrers| == |before| == |after|
    && forall r: nat :: r in next <==> Affected(referrers, before, after, r)
  }

  lemma NotifiedOneMore(referrers: seq<seq<nat>>, before: seq<GroupResult>, mid: seq<GroupResult>, g: nat,
                        result: GroupResult, next: set<nat>, more: set<nat>)
    requires Notified(referrers, before, mid, next) && g < |mid|
    requires mid[g] == before[g] || mid[g] == result
    requires more == if mid[g] != result then Elements(referrers[g]) else {}
    ensures Notified(referrers, before, mid[g := result], next + more)
  {
    var after := mid[g := result];
    forall r: nat
      ensures r in next + more <==> Affected(referrers, before, after, r)
    {
      if Affected(referrers, before, after, r) {
        var h :| 0 <= h < |before| && before[h] != after[h] && r in referrers[h];
        assert before[h] != mid[h] ==> Affected(referrers, before, mid, r);
      }
      if Affected(referrers, before, mid, r) {
        var h :| 0 <= h < |before| && before[h] != mid[h] && r in referrers[h];
        assert before[h] != after[h];
      }
      if r in more {
        assert before[g] != after[g] && r in referrers[g];
      }
    }
  }

  lemma NotifiedInBounds(s: State, before: seq<GroupResult>, after: seq<GroupResult>, next: seq<nat>)
    requires s.Sound() && Notified(s.referrers, before, after, Elements(next)) && |before| == |s.groups|
    ensures InBounds(next, |s.groups|)
  {
    forall i | 0 <= i < |next|
      ensures next[i] < |s.groups|
    {
      assert next[i] in Elements(next);
    }
  }

  predicate InBounds(worklist: seq<nat>, n: nat) {
    forall i | 0 <= i < |worklist| :: worklist[i] < n
  }

  ghost predicate Repartitions(p: Partition, groups: seq<seq<TypeId>>, worklist: seq<nat>, results: seq<GroupResult>)
    requires InBounds(worklist, |groups|)
  {
    && |results| == |worklist|
    && forall i | 0 <= i < |worklist| :: results[i] == Result(p, groups[worklist[i]])
  }

  lemma RepartitionsOneMore(p: Partition, groups: seq<seq<TypeId>>, worklist: seq<nat>, i: nat,
                            results: seq<GroupResult>,
                            result: GroupResult)
    requires InBounds(worklist, |groups|) && i < |worklist|
    requires Repartitions(p, groups, worklist[..i], results) && result == Result(p, groups[worklist[i]])
    ensures Repartitions(p, groups, worklist[..i + 1], results + [result])
  {
    var more := results + [result];
    forall j | 0 <= j < |more|
      ensures more[j] == Result(p, groups[worklist[..i + 1][j]])
    {
      if j < i {
        assert worklist[..i + 1][j] == worklist[..i][j];
        assert more[j] == results[j];
      } else {
        assert more[j] == result;
      }
    }
  }

  /** Some group below `n` has several canonicals and `g` references it. */
  ghost predicate SeededBy(referrers: seq<seq<nat>>, results: seq<GroupResult>, g: nat, n: nat)
    requires |referrers| == |results| && n <= |results|
  {
    exists h :: 0 <= h < n && results[h].canonicals > 1 && g in referrers[h]
  }

  ghost predicate IsSeed(referrers: seq<seq<nat>>, results: seq<GroupResult>, seed: seq<nat>)
    requires |referrers| == |results|
  {
    forall g: nat :: g in seed <==> SeededBy(referrers, results, g, |results|)
  }

  lemma SeededOneMore(referrers: seq<seq<nat>>, results: seq<GroupResult>, g: nat, h: nat)
    requires |referrers| == |results| && h < |results|
    ensures SeededBy(referrers, results, g, h + 1)
            <==> SeededBy(referrers, results, g, h) || (results[h].canonicals > 1 && g in referrers[h])
  {
  }

  lemma DirtyGrows(dirty: seq<nat>, current: seq<Option<GroupResult>>, g: nat, result: GroupResult)
    requires IsDirty(dirty, current) && g < |current|
    ensures IsDirty(if current[g].None? then dirty + [g] else dirty, current[g := Some(result)])
  {
    if current[g].None? {
      assert g !in dirty;
      assert forall i | 0 <= i < |dirty| :: dirty[i] in dirty;
    }
  }

  lemma TakenOneMore(table: Table, base: Subs, start: Subs, outgoing: seq<Pair>, i: nat)
    requires i < |outgoing| && BaseDescends(table, base) && Descends(table, base, start)
    ensures var before := Restored(base, start, AliasMap(outgoing[..i]).Keys);
            var after := Restored(base, start, AliasMap(outgoing[..i + 1]).Keys);
            && after == (if outgoing[i].0 in base then before[outgoing[i].0 := base[outgoing[i].0]]
                         else before - {outgoing[i].0})
            && Acyclic(after)
  {
    AliasPrefix(outgoing, i);
    AliasKeysGrow(outgoing[..i], outgoing[i]);
    RestoredOneMore(base, start, AliasMap(outgoing[..i]).Keys, outgoing[i].0);
    RestoredDescends(table, base, start, AliasMap(outgoing[..i + 1]).Keys);
    DescendingIsAcyclic(table, base, Restored(base, start, AliasMap(outgoing[..i + 1]).Keys));
  }

  lemma PutOneMore(table: Table, base: Subs, start: Subs, incoming: seq<Pair>, i: nat)
    requires i < |incoming| && BaseDescends(table, base) && Descends(table, base, start)
    requires AliasesLower(table, base, GroupResult(incoming, 0))
    ensures var before := start + (AliasMap(incoming[..i]) - base.Keys);
            var after := start + (AliasMap(incoming[..i + 1]) - base.Keys);
            && after == (if incoming[i].0 in base then before else before[incoming[i].0 := incoming[i].1])
            && Acyclic(after)
  {
    AliasPrefix(incoming, i);
    AddedOneMore(base, start, incoming[..i], incoming[i]);
    AddedDescends(table, base, start, GroupResult(incoming, 0), i + 1);
    DescendingIsAcyclic(table, base, start + (AliasMap(incoming[..i + 1]) - base.Keys));
  }

  lemma AliasKeysGrow(a: seq<Pair>, pair: Pair)
    ensures AliasMap(a + [pair]).Keys == AliasMap(a).Keys + {pair.0}
  {
    assert (a + [pair])[..|a|] == a;
  }

  lemma FreshLower(table: Table, groups: seq<seq<TypeId>>, base: Subs, results: seq<GroupResult>)
    requires results == ResultsOf(Partition(table, base, None), groups)
    ensures AllLower(table, base, results)
    ensures forall g | 0 <= g < |results| :: LeavesBase(base, results[g])
  {
    var p := Partition(table, base, None);
    forall g | 0 <= g < |results|
      ensures AliasesLower(table, base, results[g]) && LeavesBase(base, results[g])
    {
      ResultIsLower(p, groups[g]);
      forall pair | pair in results[g].aliases
        ensures pair.0 !in base
      {
        PairsDescend(p, groups[g], pair);
      }
    }
  }

  lemma FreshGenuine(p: Partition, groups: seq<seq<TypeId>>)
    ensures AllGenuine(p.table, groups, p.base, ResultsOf(p, groups))
  {
    var results := ResultsOf(p, groups);
    forall g | 0 <= g < |groups|
      ensures Genuine(p.table, p.base, groups[g], results[g])
    {
      assert results[g] == Result(p, groups[g]);
    }
  }

  /** What the first pass leaves is in step with the first whole pass. */
  lemma FreshTracks(s: State)
    requires s.Sound() && s.Begun() && s.Unmoved()
    requires Regular(s.table, s.groups, s.base) && Complete(Graph(s.table, s.base))
    ensures s.Tracks(0)
  {
    assert s.Results() == s.first;
    BegunCovered(s);
    FreshFits(s.table, s.groups, s.base, s.first);
    FreshGenuine(Partition(s.table, s.base, None), s.groups);
  }

  lemma BegunCovered(s: State)
    requires s.Begun() && Regular(s.table, s.groups, s.base) && Complete(Graph(s.table, s.base))
    ensures AllCovered(Graph(s.table, s.base), s.groups, s.deps)
  {
    var p := Partition(s.table, s.base, None);
    var index: map<GroupKey, nat> :| DependencyIndex.Indexes(s.table, s.groups, index)
                                     && AreDependencies(p, s.groups, index, s.deps);
    FreshCovered(p, s.groups, s.deps, index);
  }

  lemma FreshCovered(p: Partition, groups: seq<seq<TypeId>>, deps: seq<set<nat>>, index: map<GroupKey, nat>)
    requires p.prev.None? && Regular(p.table, groups, p.base) && Complete(GraphOf(p))
    requires DependencyIndex.Indexes(p.table, groups, index) && |deps| == |groups|
    requires AreDependencies(p, groups, index, deps)
    ensures AllCovered(GraphOf(p), groups, deps)
  {
    forall i | 0 <= i < |groups|
      ensures Covered(GraphOf(p), groups, deps[i], i)
    {
      assert IsDependencies(p, groups, index, deps[i], i);
      DependencyIndex.DependenciesCover(p, groups, index, deps[i], i);
    }
  }

  lemma FreshFits(table: Table, groups: seq<seq<TypeId>>, base: Subs, first: seq<GroupResult>)
    requires Regular(table, groups, base)
    requires first == ResultsOf(Partition(table, base, None), groups)
    ensures FirstFits(table, groups, base, first)
  {
    assert NthPass(table, groups, base, 0) == Partition(table, base, None);
    NthOwned(table, groups, base, 0);
  }
}
