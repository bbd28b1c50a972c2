/** Settling the named types in rounds. */
module Settle {
  import opened RawTypes
  import opened Substitution
  import opened Layout
  import opened Passes
  import opened Grouping
  import opened Dependence
  import opened Signature
  import opened Coarsest
  import opened Worklist
  import opened Fixpoints
  import opened Placement
  import opened RoundFacts
  import opened Reference
  import opened Histories

  /** The groups worth a look: those with several canonicals. */
  method PickSplit(fix: Fixpoint) returns (picked: seq<seq<TypeId>>, ghost at: seq<nat>)
    requires fix.Valid()
    ensures Picks(fix.groups, fix.Now().Results(), picked, at, |fix.groups|)
  {
    picked, at := [], [];
    for g := 0 to |fix.groups|
      invariant Picks(fix.groups, fix.Now().Results(), picked, at, g)
    {
      PicksOneMore(fix.groups, fix.Now().Results(), picked, at, g);
      if ResultOr(fix.first, fix.current, g).canonicals > 1 {
        picked, at := picked + [fix.groups[g]], at + [g];
      }
    }
  }

  /** The passes still allowed. */
  function Spare(passes: nat): nat {
    if passes < MAX_IDENTITY_PASSES then MAX_IDENTITY_PASSES - passes else 0
  }

  /** What the unit rule decides over the groups that may be split. */
  method Decide(fix: Fixpoint, evidence: Evidence, ghost n: nat, ghost start: State, ghost run: Run)
    returns (placed: seq<Pair>, unresolved: seq<Unresolved>, ghost r: Round)
    requires fix.Valid()
    ensures r == Round(n, start, run, fix.Now(), r.picked, r.at, placed, unresolved, fix.Now())
    ensures r.Decides(evidence)
  {
    var picked, at := PickSplit(fix);
    var v := View(fix.table, evidence, fix.subs);
    placed, unresolved := PlaceDeclarations(v, fix.base, picked);
    RoundPlaceable(v, fix.base, picked, placed, unresolved);
    r := Round(n, start, run, fix.Now(), picked, at, placed, unresolved, fix.Now());
  }

  /** A cascade, and the unit rule on what it left. */
  method CascadeAndDecide(fix: Fixpoint, evidence: Evidence)
    returns (placed: seq<Pair>, unresolved: seq<Unresolved>, ghost r: Round)
    requires fix.Valid() && fix.passes <= MAX_IDENTITY_PASSES
    modifies fix`subs, fix`dirty, fix`current, fix`passes, fix`repartitioned
    ensures fix.Valid() && fix.passes <= MAX_IDENTITY_PASSES
    ensures r.Cascades() && r.Decides(evidence) && r.start == old(fix.Now()) && r.end == fix.Now()
    ensures r.placed == placed && r.unresolved == unresolved
    ensures r.n == Spare(old(fix.passes)) && r.Rest() == Spare(fix.passes)
    ensures fix.repartitioned == old(fix.repartitioned) + r.run.Load()
  {
    ghost var start, n := fix.Now(), Spare(fix.passes);
    var settled;
    ghost var run;
    settled, run := fix.Cascade();
    placed, unresolved, r := Decide(fix, evidence, n, start, run);
  }

  /** One round: a cascade, the unit rule on what it left, and back to the first pass if that
  places anything. */
  method Turn(fix: Fixpoint, evidence: Evidence)
    returns (placed: seq<Pair>, unresolved: seq<Unresolved>, ghost r: Round)
    requires fix.Valid() && fix.passes <= MAX_IDENTITY_PASSES
    modifies fix`subs, fix`dirty, fix`current, fix`passes, fix`repartitioned, fix`base
    ensures fix.Valid() && fix.passes <= MAX_IDENTITY_PASSES
    ensures IsHistory(evidence, [r]) && r.start == old(fix.Now()) && r.next == fix.Now()
    ensures r.placed == placed && r.unresolved == unresolved && (placed == [] ==> r.end == fix.Now())
    ensures r.n == Spare(old(fix.passes)) && r.Rest() == Spare(fix.passes)
    ensures fix.repartitioned == old(fix.repartitioned) + r.run.Load()
  {
    ghost var decided;
    placed, unresolved, decided := CascadeAndDecide(fix, evidence);
    if placed != [] {
      fix.Place(placed);
    }
    RoundAlone(evidence, decided, fix.Now());
    r := decided.(next := fix.Now());
  }

  /** What the reader reports of the identity passes. */
  datatype Report = Report(passes: nat, repartitioned: nat, placed: nat, unresolved: seq<Unresolved>)

  /** Rounds until one places nothing. `history` is what that goes through. */
  method SettleInRounds(table: Table, evidence: Evidence, groups: seq<seq<TypeId>>, base: Subs)
    returns (subs: Subs, report: Report, ghost history: seq<Round>)
    requires BaseDescends(table, base)
    ensures Completes(table, evidence, groups, base, MAX_IDENTITY_PASSES - 1, history)
    ensures subs == Final(history).subs
    ensures report.passes == MAX_IDENTITY_PASSES - history[|history| - 1].Rest()
    ensures report.repartitioned == |groups| + LoadOf(history) && report.placed == PlacedIn(history)
    ensures report.unresolved == history[|history| - 1].unresolved
  {
    var fix := new Fixpoint(table, groups, base);
    var sum: nat := 0;
    history := [];
    ghost var first := fix.Now();
    while true
      invariant fix.Valid() && fix.table == table && fix.groups == groups
      invariant 1 <= fix.passes <= MAX_IDENTITY_PASSES
      invariant Underway(evidence, first, MAX_IDENTITY_PASSES - 1, history, fix.Now(), Spare(fix.passes))
      invariant fix.repartitioned == |groups| + LoadOf(history) && sum == PlacedIn(history)
      decreases table.declarations - fix.base.Keys
    {
      ghost var before := fix.Now();
      var placed, unresolved;
      ghost var round;
      placed, unresolved, round := Turn(fix, evidence);
      if placed != [] {
        RoundGrows(evidence, round);
      }
      UnderwayExtends(evidence, first, MAX_IDENTITY_PASSES - 1, history, before, round);
      CountsExtend(history, round);
      history := history + [round];
      sum := sum + |placed|;
      if placed == [] {
        return fix.subs, Report(fix.passes, fix.repartitioned, sum, unresolved), history;
      }
    }
  }

  /** Named types settled in rounds: an acyclic map and nothing left to place; the map is the
  one the whole passes and placements reach in as many passes, at the limit and below it. */
  method SettleNamed(table: Table, evidence: Evidence, groups: seq<seq<TypeId>>, base: Subs)
    returns (subs: Subs, report: Report, ghost grown: Subs, ghost history: seq<Round>)
    requires BaseDescends(table, base)
    ensures Completes(table, evidence, groups, base, MAX_IDENTITY_PASSES - 1, history)
    ensures subs == Final(history).subs && grown == Final(history).base
    ensures BaseDescends(table, grown) && Descends(table, grown, subs) && Grows(table, base, grown)
    ensures RoundOf(View(table, evidence, subs), history[|history| - 1].Splits(evidence), [], report.unresolved)
    ensures 1 <= report.passes <= 64
    ensures report.repartitioned == |groups| + LoadOf(history) && report.placed == PlacedIn(history)
    ensures Grouped(table, groups) && GroupClosed(table, base)
            ==> && GroupClosed(table, grown) && EachOnce([], report.unresolved)
                && NewNamed(table, base, grown)
                && exists results :: InMap(groups, grown, subs, results)
    ensures Strong(table, groups, base)
            ==> && WholeRuns(table, evidence, groups, base, MAX_IDENTITY_PASSES - 1, subs,
                             MAX_IDENTITY_PASSES - report.passes)
                && Strong(table, groups, grown)
                && history[|history| - 1].Splits(evidence)
                   == SplitSets(View(table, evidence, subs), PlainPass(table, grown), groups)
    ensures Strong(table, groups, base) && report.passes < 64
            ==> WholeSettles(table, evidence, groups, base, subs) && SettlesTo(table, groups, grown, subs)
    ensures Uniform(table, groups, base) && report.passes < 64
            ==> IsCoarsest(table, groups, grown, subs)
  {
    subs, report, history := SettleInRounds(table, evidence, groups, base);
    grown := Final(history).base;
    CompletesSound(table, evidence, groups, base, MAX_IDENTITY_PASSES - 1, history);
    if Grouped(table, groups) && GroupClosed(table, base) {
      CompletesInGroups(table, evidence, groups, base, MAX_IDENTITY_PASSES - 1, history);
    }
    if Strong(table, groups, base) {
      CompletesAsWhole(table, evidence, groups, base, MAX_IDENTITY_PASSES - 1, history);
      CompletesSettled(table, evidence, groups, base, MAX_IDENTITY_PASSES - 1, history);
      StrongGrows(table, groups, base, grown);
    }
    if Uniform(table, groups, base) && report.passes < MAX_IDENTITY_PASSES {
      CompletesCoarsest(table, evidence, groups, base, MAX_IDENTITY_PASSES - 1, history);
    }
  }

  lemma StrongGrows(table: Table, groups: seq<seq<TypeId>>, base: Subs, grown: Subs)
    requires Strong(table, groups, base) && Regular(table, groups, grown) && base.Keys <= grown.Keys
    ensures Strong(table, groups, grown)
  {
    forall d, e | Comparable(Graph(table, grown), d, e)
      ensures Comparable(Graph(table, base), d, e)
    {
    }
  }

  /** Below the limit, the map of a settling is the coarsest stable partition over the base as
  the placements have grown it. */
  lemma CompletesCoarsest(table: Table, evidence: Evidence, groups: seq<seq<TypeId>>, base: Subs, n: nat,
                          rounds: seq<Round>)
    requires Completes(table, evidence, groups, base, n, rounds) && Uniform(table, groups, base)
    requires rounds[|rounds| - 1].Rest() > 0
    ensures IsCoarsest(table, groups, Final(rounds).base, Final(rounds).subs)
  {
    CompletesSound(table, evidence, groups, base, n, rounds);
    CompletesSettled(table, evidence, groups, base, n, rounds);
    UniformGrows(table, groups, base, Final(rounds).base);
    CoarsestStablePartition(table, groups, Final(rounds).base, Final(rounds).subs);
  }
}
