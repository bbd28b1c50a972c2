/** What settling the named types goes through: a history of rounds, each a cascade, the
placements it allows and the way back to the first pass. What the result is worth is read off
the history. */
module Histories {
  import opened RawTypes
  import opened Substitution
  import opened Layout
  import opened Signature
  import opened GroupFacts
  import opened Passes
  import opened Grouping
  import opened Dependence
  import opened Rounds
  import opened Worklist
  import opened Fixpoints
  import opened Placement
  import opened RoundFacts
  import opened Reference

  /** A round with `n` passes to spend, from `start` by the cascade `run` to `end`; what it
  places and reports; and the state it leaves behind. */
  datatype Round = Round(n: nat, start: State, run: Run, end: State, picked: seq<seq<TypeId>>, at: seq<nat>,
                         placed: seq<Pair>, unresolved: seq<Unresolved>, next: State)
  {
    ghost function Rest(): int {
      n - run.Passes()
    }

    ghost function Known(evidence: Evidence): View {
      View(end.table, evidence, end.subs)
    }

    ghost function Splits(evidence: Evidence): set<set<TypeId>> {
      SplitSets(Known(evidence), PlainPass(end.table, end.base), picked)
    }

    /** The cascade stops when nothing is left to repartition or no pass is left. */
    ghost predicate Cascades() {
      && run.Of(start, end)
      && run.Passes() <= n && (run.Passes() < n ==> run.Last() == [])
    }

    /** The unit rule decides over the groups with several canonicals. */
    ghost predicate Decides(evidence: Evidence) {
      && |end.first| == |end.current| == |end.groups|
      && Picks(end.groups, end.Results(), picked, at, |end.groups|)
      && RoundOf(Known(evidence), Splits(evidence), placed, unresolved)
      && (ResolvedApart(PlainPass(end.table, end.base), picked) ==> EachOnce(placed, unresolved))
      && Placeable(end.table, end.base, placed)
    }

    /** Placements are taken into the base, and the map goes back to the first pass. */
    ghost predicate Moves() {
      next.Sound() && if placed == [] then next == end else ResetOf(end, placed, next)
    }

    ghost predicate Of(evidence: Evidence) {
      Cascades() && Decides(evidence) && Moves()
    }
  }

  ghost predicate Follows(r: Round, s: Round) {
    r.placed != [] && s.start == r.next && s.n == r.Rest()
  }

  ghost predicate RoundAt(evidence: Evidence, rounds: seq<Round>, i: nat)
    requires i < |rounds|
  {
    rounds[i].Of(evidence)
  }

  ghost predicate FollowsAt(rounds: seq<Round>, i: nat)
    requires 0 < i < |rounds|
  {
    Follows(rounds[i - 1], rounds[i])
  }

  ghost predicate IsHistory(evidence: Evidence, rounds: seq<Round>) {
    && (forall i: nat | i < |rounds| :: RoundAt(evidence, rounds, i))
    && (forall i: nat | 0 < i < |rounds| :: FollowsAt(rounds, i))
  }

  /** It starts with every group partitioned by name. */
  ghost predicate Starts(table: Table, groups: seq<seq<TypeId>>, base: Subs, s: State) {
    && s.table == table && s.groups == groups && s.base == base
    && s.Sound() && s.Begun() && s.Unmoved()
  }

  /** The rounds lead from `first` to one that places nothing. */
  ghost predicate Arrived(evidence: Evidence, first: State, n: nat, rounds: seq<Round>) {
    && rounds != [] && IsHistory(evidence, rounds)
    && rounds[0].start == first && rounds[0].n == n
    && rounds[|rounds| - 1].placed == []
  }

  /** The history of a whole settling. */
  ghost predicate Completes(table: Table, evidence: Evidence, groups: seq<seq<TypeId>>, base: Subs, n: nat,
                            rounds: seq<Round>) {
    rounds != [] && Arrived(evidence, rounds[0].start, n, rounds) && Starts(table, groups, base, rounds[0].start)
  }

  ghost function Final(rounds: seq<Round>): State
    requires rounds != []
  {
    rounds[|rounds| - 1].end
  }

  /** How many declarations the rounds placed. */
  ghost function PlacedIn(rounds: seq<Round>): nat {
    if rounds == [] then 0 else PlacedIn(rounds[..|rounds| - 1]) + |rounds[|rounds| - 1].placed|
  }

  /** How many groups their passes repartitioned. */
  ghost function LoadOf(rounds: seq<Round>): nat {
    if rounds == [] then 0 else LoadOf(rounds[..|rounds| - 1]) + rounds[|rounds| - 1].run.Load()
  }

  lemma RoundStays(evidence: Evidence, rounds: seq<Round>, r: Round, i: nat)
    requires IsHistory(evidence, rounds) && r.Of(evidence) && i <= |rounds|
    ensures RoundAt(evidence, rounds + [r], i)
  {
    if i < |rounds| {
      assert RoundAt(evidence, rounds, i);
      assert (rounds + [r])[i] == rounds[i];
    } else {
      assert (rounds + [r])[i] == r;
    }
  }

  lemma LinkStays(evidence: Evidence, rounds: seq<Round>, r: Round, i: nat)
    requires IsHistory(evidence, rounds) && 0 < i <= |rounds| && Follows(rounds[|rounds| - 1], r)
    ensures FollowsAt(rounds + [r], i)
  {
    assert i < |rounds| ==> FollowsAt(rounds, i);
  }

  lemma HistoryExtends(evidence: Evidence, rounds: seq<Round>, r: Round)
    requires IsHistory(evidence, rounds) && r.Of(evidence)
    requires rounds != [] ==> Follows(rounds[|rounds| - 1], r)
    ensures IsHistory(evidence, rounds + [r])
  {
    var more := rounds + [r];
    forall i: nat | i < |more|
      ensures RoundAt(evidence, more, i)
    {
      RoundStays(evidence, rounds, r, i);
    }
    forall i: nat | 0 < i < |more|
      ensures FollowsAt(more, i)
    {
      LinkStays(evidence, rounds, r, i);
    }
  }

  lemma CountsExtend(rounds: seq<Round>, r: Round)
    ensures PlacedIn(rounds + [r]) == PlacedIn(rounds) + |r.placed|
    ensures LoadOf(rounds + [r]) == LoadOf(rounds) + r.run.Load()
  {
    assert (rounds + [r])[..|rounds|] == rounds;
  }

  /** The rounds so far lead from `first`, with `n` passes to spend, to `s` with `left`. */
  ghost predicate Underway(evidence: Evidence, first: State, n: nat, rounds: seq<Round>, s: State, left: int) {
    && IsHistory(evidence, rounds)
    && if rounds == [] then s == first && left == n
       else
         && rounds[0].start == first && rounds[0].n == n
         && rounds[|rounds| - 1].next == s && rounds[|rounds| - 1].Rest() == left
         && rounds[|rounds| - 1].placed != []
  }

  lemma UnderwayExtends(evidence: Evidence, first: State, n: nat, rounds: seq<Round>, s: State, r: Round)
    requires Underway(evidence, first, n, rounds, s, r.n) && IsHistory(evidence, [r]) && r.start == s
    ensures r.placed == [] ==> Arrived(evidence, first, n, rounds + [r])
    ensures r.placed != [] ==> Underway(evidence, first, n, rounds + [r], r.next, r.Rest())
  {
    assert RoundAt(evidence, [r], 0);
    HistoryExtends(evidence, rounds, r);
  }

  lemma RoundAlone(evidence: Evidence, r: Round, next: State)
    requires r.Cascades() && r.Decides(evidence) && next.Sound()
    requires if r.placed == [] then next == r.end else ResetOf(r.end, r.placed, next)
    ensures IsHistory(evidence, [r.(next := next)])
  {
    assert r.(next := next).Of(evidence);
    assert RoundAt(evidence, [r.(next := next)], 0);
  }

  ghost predicate PassesOn(rounds: seq<Round>, holds: State -> bool, i: nat)
    requires 0 < i < |rounds|
  {
    holds(rounds[i - 1].start) ==> holds(rounds[i].start)
  }

  /** What every round passes on to the next holds at the start of them all. */
  lemma {:induction false} Along(rounds: seq<Round>, holds: State -> bool, i: nat)
    requires i < |rounds| && holds(rounds[0].start)
    requires forall j: nat | 0 < j < |rounds| :: PassesOn(rounds, holds, j)
    ensures holds(rounds[i].start)
  {
    if i > 0 {
      Along(rounds, holds, i - 1);
      assert PassesOn(rounds, holds, i);
    }
  }

  // ----- what no round changes

  /** The parts of a state that only placements change, and those nothing does. */
  ghost predicate Keeps(s: State, t: State) {
    t == s.(base := t.base, subs := t.subs, current := t.current, dirty := t.dirty)
  }

  lemma {:induction false} RunKeeps(run: Run, s: State, t: State, k: nat)
    requires run.Of(s, t) && k < |run.states|
    ensures Keeps(s, run.states[k]) && run.states[k].base == s.base
    decreases k
  {
    if k > 0 {
      var before := k - 1;
      RunKeeps(run, s, t, before);
      assert run.StepsAt(before);
    }
  }

  lemma RoundKeeps(evidence: Evidence, r: Round)
    requires r.Of(evidence)
    ensures Keeps(r.start, r.end) && r.end.base == r.start.base
    ensures Keeps(r.start, r.next) && r.next.base == r.start.base + AliasMap(r.placed)
    ensures PlacesDeclarations(r.start.table, r.start.base, AliasMap(r.placed))
  {
    RunKeeps(r.run, r.start, r.end, |r.run.states| - 1);
    PlaceablePlaces(r.end.table, r.end.base, r.placed);
  }

  lemma RoundGrows(evidence: Evidence, r: Round)
    requires IsHistory(evidence, [r]) && r.placed != []
    ensures r.next.table.declarations - r.next.base.Keys < r.start.table.declarations - r.start.base.Keys
  {
    assert RoundAt(evidence, [r], 0);
    RoundKeeps(evidence, r);
    PlacedGrows(r.end.table, r.end.base, r.placed, r.next.base);
  }

  /** The same links and more, all from declarations. */
  ghost predicate Grows(table: Table, small: map<TypeId, TypeId>, big: map<TypeId, TypeId>) {
    && (forall x | x in small :: x in big && big[x] == small[x])
    && big.Keys <= small.Keys + table.declarations
  }

  lemma StepKeeps(evidence: Evidence, rounds: seq<Round>, i: nat)
    requires IsHistory(evidence, rounds) && 0 < i < |rounds|
    ensures Keeps(rounds[i - 1].start, rounds[i].start)
    ensures Grows(rounds[i - 1].start.table, rounds[i - 1].start.base, rounds[i].start.base)
  {
    assert RoundAt(evidence, rounds, i - 1) && FollowsAt(rounds, i);
    RoundKeeps(evidence, rounds[i - 1]);
  }

  lemma {:induction false} HistoryKeeps(evidence: Evidence, rounds: seq<Round>, i: nat)
    requires IsHistory(evidence, rounds) && i < |rounds|
    ensures Keeps(rounds[0].start, rounds[i].start)
    ensures Grows(rounds[0].start.table, rounds[0].start.base, rounds[i].start.base)
    decreases i
  {
    if i > 0 {
      HistoryKeeps(evidence, rounds, i - 1);
      StepKeeps(evidence, rounds, i);
    }
  }

  // ----- with links that stay in their groups

  lemma RoundInGroups(evidence: Evidence, r: Round)
    requires r.Of(evidence) && r.start.Represents()
    ensures RoundKeepsTo(r.end, r.placed, r.unresolved) && r.next.Represents()
    ensures NewNamed(r.start.table, r.start.base, r.next.base)
  {
    RoundKeeps(evidence, r);
    RoundRepresents(r.run, r.start, r.end, evidence, r.picked, r.at, r.placed, r.unresolved);
    if r.placed != [] {
      ResetRepresents(r.end, r.placed, r.next);
    }
  }

  /** Everything the map holds is the base and the groups' aliases, and of the ids of `base`'s
  growth all are named. */
  ghost predicate Represented(s: State, first: State) {
    s.Represents() && s.table == first.table && NewNamed(first.table, first.base, s.base)
  }

  ghost function RepresentedFrom(first: State): State -> bool {
    (s: State) => Represented(s, first)
  }

  lemma StepInGroups(evidence: Evidence, rounds: seq<Round>, i: nat)
    requires IsHistory(evidence, rounds) && 0 < i < |rounds|
    ensures PassesOn(rounds, RepresentedFrom(rounds[0].start), i)
  {
    if Represented(rounds[i - 1].start, rounds[0].start) {
      assert RoundAt(evidence, rounds, i - 1) && FollowsAt(rounds, i);
      RoundKeeps(evidence, rounds[i - 1]);
      RoundInGroups(evidence, rounds[i - 1]);
    }
  }

  lemma HistoryInGroups(evidence: Evidence, rounds: seq<Round>, i: nat)
    requires IsHistory(evidence, rounds) && i < |rounds| && rounds[0].start.Represents()
    ensures Represented(rounds[i].start, rounds[0].start)
  {
    forall j: nat | 0 < j < |rounds|
      ensures PassesOn(rounds, RepresentedFrom(rounds[0].start), j)
    {
      StepInGroups(evidence, rounds, j);
    }
    assert RepresentedFrom(rounds[0].start)(rounds[0].start);
    Along(rounds, RepresentedFrom(rounds[0].start), i);
  }

  // ----- with types the passes compare as values

  /** A state that keeps up with the whole passes over its base, at the start of a round. */
  ghost predicate Ready(s: State) {
    s.Tracks(0) && s.Unmoved()
  }

  lemma RoundTracks(evidence: Evidence, r: Round)
    requires r.Of(evidence) && Ready(r.start)
    ensures r.end.Tracks(r.run.Passes()) && (r.Rest() > 0 ==> r.end.Rests(r.run.Passes()))
    ensures PlacedInRound(r.end.table, evidence, r.end.groups, r.end.base, r.end.subs, AliasMap(r.placed))
    ensures PlacesInGroup(r.end.table, AliasMap(r.placed))
    ensures r.Splits(evidence) == SplitSets(r.Known(evidence), PlainPass(r.end.table, r.end.base), r.end.groups)
  {
    CascadeDone(r.run, r.start, r.end);
    RoundAgrees(r.end, evidence, r.picked, r.at, r.run.Passes(), r.placed, r.unresolved);
  }

  lemma RoundReady(evidence: Evidence, r: Round)
    requires r.Of(evidence) && Ready(r.start) && r.placed != []
    ensures Ready(r.next)
  {
    RoundKeeps(evidence, r);
    RoundTracks(evidence, r);
    ResetKeepsStep(r.end, r.placed, r.next, r.run.Passes());
  }

  lemma StepReady(evidence: Evidence, rounds: seq<Round>, i: nat)
    requires IsHistory(evidence, rounds) && 0 < i < |rounds|
    ensures PassesOn(rounds, Ready, i)
  {
    if Ready(rounds[i - 1].start) {
      assert RoundAt(evidence, rounds, i - 1) && FollowsAt(rounds, i);
      RoundReady(evidence, rounds[i - 1]);
    }
  }

  lemma HistoryReady(evidence: Evidence, rounds: seq<Round>, i: nat)
    requires IsHistory(evidence, rounds) && i < |rounds| && Ready(rounds[0].start)
    ensures Ready(rounds[i].start)
  {
    forall j: nat | 0 < j < |rounds|
      ensures PassesOn(rounds, Ready, j)
    {
      StepReady(evidence, rounds, j);
    }
    Along(rounds, Ready, i);
  }

  /** A round of the history, as one of the reference. */
  ghost function Whole(r: Round): WholeRound {
    WholeRound(r.start.base, r.n, r.run.Passes(), r.end.subs, AliasMap(r.placed))
  }

  lemma RoundIsWhole(evidence: Evidence, r: Round)
    requires r.Of(evidence) && Ready(r.start)
    ensures GoesBy(r.start.table, evidence, r.start.groups, Whole(r))
  {
    RoundKeeps(evidence, r);
    RoundTracks(evidence, r);
    InStepMap(r.end.table, r.end.groups, r.end.base, r.end.Results(), r.run.Passes());
  }

  ghost function Wholes(rounds: seq<Round>): (r: seq<WholeRound>)
    ensures |r| == |rounds| && forall i | 0 <= i < |r| :: r[i] == Whole(rounds[i])
  {
    seq(|rounds|, i requires 0 <= i < |rounds| => Whole(rounds[i]))
  }

  lemma PlacesSomething(placed: seq<Pair>)
    requires placed != []
    ensures AliasMap(placed) != map[]
  {
    AliasMapHas(placed, placed[0].0);
  }

  lemma WholeAt(evidence: Evidence, rounds: seq<Round>, i: nat)
    requires IsHistory(evidence, rounds) && i < |rounds| && Ready(rounds[0].start)
    ensures GoesBy(rounds[0].start.table, evidence, rounds[0].start.groups, Whole(rounds[i]))
  {
    HistoryReady(evidence, rounds, i);
    HistoryKeeps(evidence, rounds, i);
    assert RoundAt(evidence, rounds, i);
    RoundIsWhole(evidence, rounds[i]);
  }

  lemma WholeFollows(evidence: Evidence, rounds: seq<Round>, i: nat)
    requires IsHistory(evidence, rounds) && 0 < i < |rounds|
    ensures Leads(Whole(rounds[i - 1]), Whole(rounds[i]))
  {
    assert RoundAt(evidence, rounds, i - 1) && FollowsAt(rounds, i);
    RoundKeeps(evidence, rounds[i - 1]);
    PlacesSomething(rounds[i - 1].placed);
  }

  /** The rounds of a settling are rounds of the reference. */
  lemma HistoryIsWhole(table: Table, evidence: Evidence, groups: seq<seq<TypeId>>, base: Subs, n: nat,
                       rounds: seq<Round>)
    requires Completes(table, evidence, groups, base, n, rounds) && Ready(rounds[0].start)
    ensures AreRounds(table, evidence, groups, Wholes(rounds))
  {
    var wholes := Wholes(rounds);
    forall i | 0 <= i < |wholes|
      ensures GoesBy(table, evidence, groups, wholes[i])
    {
      WholeAt(evidence, rounds, i);
    }
    forall i | 0 < i < |wholes|
      ensures Leads(wholes[i - 1], wholes[i])
    {
      WholeFollows(evidence, rounds, i);
    }
  }

  // ----- what a settling is worth

  /** Whatever the types are like: the map is acyclic over a base that only declarations join,
  and the last round leaves nothing to place. */
  lemma CompletesSound(table: Table, evidence: Evidence, groups: seq<seq<TypeId>>, base: Subs, n: nat,
                       rounds: seq<Round>)
    requires Completes(table, evidence, groups, base, n, rounds)
    ensures var t := Final(rounds);
            && t.table == table && t.groups == groups && Grows(table, base, t.base)
            && BaseDescends(table, t.base) && Descends(table, t.base, t.subs)
    ensures RoundOf(View(table, evidence, Final(rounds).subs), rounds[|rounds| - 1].Splits(evidence), [],
                    rounds[|rounds| - 1].unresolved)
    ensures 0 <= rounds[|rounds| - 1].Rest() <= n
  {
    var last := |rounds| - 1;
    HistoryKeeps(evidence, rounds, last);
    HistoryRest(evidence, rounds, last);
    assert RoundAt(evidence, rounds, last);
    RoundKeeps(evidence, rounds[last]);
  }

  lemma {:induction false} HistoryRest(evidence: Evidence, rounds: seq<Round>, i: nat)
    requires IsHistory(evidence, rounds) && i < |rounds|
    ensures 0 <= rounds[i].Rest() <= rounds[i].n <= rounds[0].n
  {
    StepRest(evidence, rounds, i);
    if i > 0 {
      HistoryRest(evidence, rounds, i - 1);
    }
  }

  lemma StepRest(evidence: Evidence, rounds: seq<Round>, i: nat)
    requires IsHistory(evidence, rounds) && i < |rounds|
    ensures 0 <= rounds[i].Rest() <= rounds[i].n
    ensures i > 0 ==> rounds[i].n == rounds[i - 1].Rest()
  {
    assert RoundAt(evidence, rounds, i);
    assert i > 0 ==> FollowsAt(rounds, i);
  }

  /** With links that stay in their groups, the map is the base over the aliases of the groups,
  and each declaration the last round leaves standing is reported once. */
  lemma CompletesInGroups(table: Table, evidence: Evidence, groups: seq<seq<TypeId>>, base: Subs, n: nat,
                          rounds: seq<Round>)
    requires Completes(table, evidence, groups, base, n, rounds)
    requires Grouped(table, groups) && GroupClosed(table, base)
    ensures Represented(Final(rounds), rounds[0].start) && EachOnce([], rounds[|rounds| - 1].unresolved)
  {
    var last := |rounds| - 1;
    BegunRepresents(rounds[0].start);
    HistoryInGroups(evidence, rounds, last);
    assert RoundAt(evidence, rounds, last);
    RoundKeeps(evidence, rounds[last]);
    RoundInGroups(evidence, rounds[last]);
  }

  lemma StartsReady(table: Table, groups: seq<seq<TypeId>>, base: Subs, s: State)
    requires Starts(table, groups, base, s) && Strong(table, groups, base)
    ensures Ready(s)
  {
    FreshTracks(s);
  }

  /** A settling ends where the reference does with as many passes, at the limit and below it. */
  lemma CompletesAsWhole(table: Table, evidence: Evidence, groups: seq<seq<TypeId>>, base: Subs, n: nat,
                         rounds: seq<Round>)
    requires Completes(table, evidence, groups, base, n, rounds) && Strong(table, groups, base)
    ensures rounds[|rounds| - 1].Rest() >= 0
    ensures WholeRuns(table, evidence, groups, base, n, Final(rounds).subs, rounds[|rounds| - 1].Rest())
  {
    StartsReady(table, groups, base, rounds[0].start);
    HistoryIsWhole(table, evidence, groups, base, n, rounds);
    HistoryRest(evidence, rounds, |rounds| - 1);
    WholesRun(table, evidence, groups, rounds);
  }

  lemma WholesRun(table: Table, evidence: Evidence, groups: seq<seq<TypeId>>, rounds: seq<Round>)
    requires rounds != [] && rounds[|rounds| - 1].Rest() >= 0 && AreRounds(table, evidence, groups, Wholes(rounds))
    ensures WholeRuns(table, evidence, groups, rounds[0].start.base, rounds[0].n, Final(rounds).subs,
                      rounds[|rounds| - 1].Rest())
  {
    var wholes, left: nat := Wholes(rounds), rounds[|rounds| - 1].Rest();
    assert wholes[0] == Whole(rounds[0]) && wholes[|rounds| - 1] == Whole(rounds[|rounds| - 1]);
    assert RunsBy(table, evidence, groups, rounds[0].start.base, rounds[0].n, Final(rounds).subs, left, wholes);
  }

  /** Below the limit the whole passes over the grown base have settled to the map. */
  lemma CompletesSettled(table: Table, evidence: Evidence, groups: seq<seq<TypeId>>, base: Subs, n: nat,
                         rounds: seq<Round>)
    requires Completes(table, evidence, groups, base, n, rounds) && Strong(table, groups, base)
    ensures Regular(table, groups, Final(rounds).base)
    ensures rounds[|rounds| - 1].Rest() > 0 ==> SettlesTo(table, groups, Final(rounds).base, Final(rounds).subs)
    ensures var t := Final(rounds);
            rounds[|rounds| - 1].Splits(evidence)
            == SplitSets(View(table, evidence, t.subs), PlainPass(table, t.base), groups)
  {
    var last := |rounds| - 1;
    StartsReady(table, groups, base, rounds[0].start);
    HistoryKeeps(evidence, rounds, last);
    HistoryReady(evidence, rounds, last);
    assert RoundAt(evidence, rounds, last);
    RoundKeeps(evidence, rounds[last]);
    RoundTracks(evidence, rounds[last]);
    InStepMap(table, groups, Final(rounds).base, Final(rounds).Results(), rounds[last].run.Passes());
  }
}
