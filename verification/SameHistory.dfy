/** Two settlings over the same groups, listed in any order, have the same map and the same
report. */
module SameHistory {
  import opened RawTypes
  import opened Substitution
  import opened Layout
  import opened Groups
  import opened GroupFacts
  import opened Grouping
  import opened Rounds
  import opened Fixpoints
  import opened Placement
  import opened Sorting
  import opened RoundFacts
  import opened Histories
  import opened Reordering
  import opened Mirrors

  // ----- one answer per round

  lemma RoundReports(v: View, splits: set<set<TypeId>>, placed: seq<Pair>, unresolved: seq<Unresolved>,
                     own: set<TypeId>,
                     report: Unresolved)
    requires RoundOf(v, splits, placed, unresolved)
    requires forall a, b, x | a in splits && b in splits && x in a && x in b :: a == b
    requires own in splits && ReportedAs(v, splits, own, report)
    ensures report in unresolved
  {
    var d := report.declaration;
    assert Mentions(placed, unresolved, d);
    if pair :| pair in placed && pair.0 == d {
      var other :| other in splits && PlacedAs(v, splits, other, pair.0, pair.1);
      assert d in own && d in other;
      DecidesOnce(v, splits, own, d, report.evidence, Placed(pair.1));
      assert false;
    } else {
      var found :| found in unresolved && found.declaration == d;
      var other :| other in splits && ReportedAs(v, splits, other, found);
      assert d in own && d in other;
      DecidesOnce(v, splits, own, d, report.evidence, found.evidence);
      assert found == report;
    }
  }

  lemma RoundIncluded(v: View, splits: set<set<TypeId>>, placed: seq<Pair>, unresolved: seq<Unresolved>,
                      placed': seq<Pair>, unresolved': seq<Unresolved>)
    requires RoundOf(v, splits, placed, unresolved) && RoundOf(v, splits, placed', unresolved')
    requires forall a, b, x | a in splits && b in splits && x in a && x in b :: a == b
    ensures forall pair | pair in placed :: pair in placed'
    ensures forall report | report in unresolved :: report in unresolved'
  {
    forall pair | pair in placed
      ensures pair in placed'
    {
      var own :| own in splits && PlacedAs(v, splits, own, pair.0, pair.1);
      RoundFacts.RoundPlaces(v, splits, placed', unresolved', own, pair.0, pair.1);
      assert pair == (pair.0, pair.1);
    }
    forall report | report in unresolved
      ensures report in unresolved'
    {
      var own :| own in splits && ReportedAs(v, splits, own, report);
      RoundReports(v, splits, placed', unresolved', own, report);
    }
  }

  /** A round's lists are determined by the types they are about. */
  lemma RoundOnce(v: View, splits: set<set<TypeId>>, placed: seq<Pair>, unresolved: seq<Unresolved>,
                  placed': seq<Pair>, unresolved': seq<Unresolved>)
    requires RoundOf(v, splits, placed, unresolved) && RoundOf(v, splits, placed', unresolved')
    requires EachOnce(placed, unresolved) && EachOnce(placed', unresolved')
    requires forall a, b, x | a in splits && b in splits && x in a && x in b :: a == b
    ensures placed == placed' && unresolved == unresolved'
  {
    RoundIncluded(v, splits, placed, unresolved, placed', unresolved');
    RoundIncluded(v, splits, placed', unresolved', placed, unresolved);
    AscendingOnce(placed, placed', (pair: Pair) => pair.0);
    AscendingOnce(unresolved, unresolved', (report: Unresolved) => report.declaration);
  }

  // ----- the groups looked at

  lemma PickedToo(v: View, p: Partition, a: seq<seq<TypeId>>, b: seq<seq<TypeId>>, r: seq<GroupResult>,
                  q: seq<GroupResult>,
                  picked: seq<seq<TypeId>>, at: seq<nat>, picked': seq<seq<TypeId>>, at': seq<nat>)
    requires Grouped(p.table, a) && Grouped(p.table, b) && SameResults(a, b, r, q)
    requires Picks(a, r, picked, at, |a|) && Picks(b, q, picked', at', |b|)
    ensures SplitSets(v, p, picked) <= SplitSets(v, p, picked')
  {
    forall ids | ids in SplitSets(v, p, picked)
      ensures ids in SplitSets(v, p, picked')
    {
      var i :| 0 <= i < |picked| && v.IsSplit(Resolved(p, picked[i])) && ids == Resolved(p, picked[i]);
      var j := TwinOf(p.table, a, b, at[i]);
      assert at[i] in at;
      assert j in at';
      var k :| 0 <= k < |at'| && at'[k] == j;
      SameResolved(p, picked[i], picked'[k]);
    }
  }

  lemma SamePicked(v: View, p: Partition, a: seq<seq<TypeId>>, b: seq<seq<TypeId>>, r: seq<GroupResult>,
                   q: seq<GroupResult>,
                   picked: seq<seq<TypeId>>, at: seq<nat>, picked': seq<seq<TypeId>>, at': seq<nat>)
    requires Grouped(p.table, a) && Grouped(p.table, b) && SameResults(a, b, r, q)
    requires Picks(a, r, picked, at, |a|) && Picks(b, q, picked', at', |b|)
    ensures SplitSets(v, p, picked) == SplitSets(v, p, picked')
  {
    ResultsTurn(a, b, r, q);
    PickedToo(v, p, a, b, r, q, picked, at, picked', at');
    PickedToo(v, p, b, a, q, r, picked', at', picked, at);
  }

  lemma PickedSetsApart(v: View, p: Partition, groups: seq<seq<TypeId>>, results: seq<GroupResult>,
                        picked: seq<seq<TypeId>>,
                        at: seq<nat>)
    requires Grouped(p.table, groups) && GroupClosed(p.table, p.base)
    requires |results| == |groups| && Picks(groups, results, picked, at, |groups|)
    ensures ResolvedApart(p, picked)
    ensures forall a, b, d | a in SplitSets(v, p, picked) && b in SplitSets(v, p, picked) && d in a && d in b :: a == b
  {
    PickedApart(p, groups, results, picked, at);
    var splits := SplitSets(v, p, picked);
    forall a, b, d | a in splits && b in splits && d in a && d in b
      ensures a == b
    {
      var g :| 0 <= g < |picked| && v.IsSplit(Resolved(p, picked[g])) && a == Resolved(p, picked[g]);
      var h :| 0 <= h < |picked| && v.IsSplit(Resolved(p, picked[h])) && b == Resolved(p, picked[h]);
    }
  }

  // ----- one round

  lemma SameCascade(r: Round, q: Round)
    requires r.Cascades() && q.Cascades() && Mirror(r.start, q.start) && r.n == q.n
    ensures r.run.Passes() == q.run.Passes() && r.run.Load() == q.run.Load() && Mirror(r.end, q.end)
  {
    NoFewer(r.run, r.start, r.end, q.run, q.start, q.end, r.n);
    MirrorTurns(r.start, q.start);
    NoFewer(q.run, q.start, q.end, r.run, r.start, r.end, r.n);
    RunMirrors(r.run, r.start, r.end, q.run, q.start, q.end, r.run.Passes());
    SameLoad(r.run, r.start, r.end, q.run, q.start, q.end);
  }

  lemma MirrorTurns(s: State, t: State)
    requires Mirror(s, t)
    ensures Mirror(t, s)
  {
    ReferrersTurn(s.groups, t.groups, s.referrers, t.referrers);
    ResultsTurn(s.groups, t.groups, s.first, t.first);
    ResultsTurn(s.groups, t.groups, s.Results(), t.Results());
  }

  lemma SameDecisions(evidence: Evidence, r: Round, q: Round)
    requires r.Decides(evidence) && q.Decides(evidence) && Mirror(r.end, q.end)
    ensures r.placed == q.placed && r.unresolved == q.unresolved
  {
    var v, p := r.Known(evidence), PlainPass(r.end.table, r.end.base);
    SamePicked(v, p, r.end.groups, q.end.groups, r.end.Results(), q.end.Results(), r.picked, r.at, q.picked, q.at);
    PickedSetsApart(v, p, r.end.groups, r.end.Results(), r.picked, r.at);
    PickedSetsApart(v, p, q.end.groups, q.end.Results(), q.picked, q.at);
    RoundOnce(v, SplitSets(v, p, r.picked), r.placed, r.unresolved, q.placed, q.unresolved);
  }

  lemma SameReset(s: State, t: State, placed: seq<Pair>, s': State, t': State)
    requires Mirror(s, t) && ResetOf(s, placed, s') && ResetOf(t, placed, t')
             && PlacesInGroup(s.table, AliasMap(placed))
    ensures Mirror(s', t')
  {
    ResetRepresents(s, placed, s');
    ResetRepresents(t, placed, t');
    UnmovedResults(s');
    UnmovedResults(t');
    SameMap(s'.table, s'.base, s'.groups, t'.groups, s'.first, t'.first);
    MirrorAtFirst(s', t');
  }

  /** Two rounds from mirrored states end in mirrored states, with one decision. */
  lemma SameRound(evidence: Evidence, r: Round, q: Round)
    requires r.Of(evidence) && q.Of(evidence) && Mirror(r.start, q.start) && r.n == q.n
    ensures Mirror(r.end, q.end) && r.Rest() == q.Rest() && r.run.Load() == q.run.Load()
    ensures r.placed == q.placed && r.unresolved == q.unresolved
    ensures Mirror(r.next, q.next)
  {
    SameCascade(r, q);
    SameDecisions(evidence, r, q);
    RoundInGroups(evidence, r);
    if r.placed != [] {
      SameReset(r.end, q.end, r.placed, r.next, q.next);
    }
  }

  // ----- the whole history

  /** What the `i`th rounds of two histories have in common. */
  ghost predicate Alike(rounds: seq<Round>, others: seq<Round>, i: nat)
    requires i < |rounds| && i < |others|
  {
    && rounds[i].Rest() == others[i].Rest() && rounds[i].run.Load() == others[i].run.Load()
    && rounds[i].placed == others[i].placed && rounds[i].unresolved == others[i].unresolved
    && Mirror(rounds[i].end, others[i].end)
  }

  ghost predicate AlikeBefore(rounds: seq<Round>, others: seq<Round>, i: nat)
    requires i < |rounds| && i < |others|
  {
    rounds[i].n == others[i].n && Mirror(rounds[i].start, others[i].start)
  }

  lemma AlikeAt(evidence: Evidence, rounds: seq<Round>, others: seq<Round>, i: nat)
    requires IsHistory(evidence, rounds) && IsHistory(evidence, others) && i < |rounds| && i < |others|
    requires AlikeBefore(rounds, others, i)
    ensures Alike(rounds, others, i) && Mirror(rounds[i].next, others[i].next)
  {
    assert RoundAt(evidence, rounds, i) && RoundAt(evidence, others, i);
    SameRound(evidence, rounds[i], others[i]);
  }

  lemma AlikeNext(evidence: Evidence, rounds: seq<Round>, others: seq<Round>, i: nat)
    requires IsHistory(evidence, rounds) && IsHistory(evidence, others) && 0 < i < |rounds| && i < |others|
    requires AlikeBefore(rounds, others, i - 1)
    ensures AlikeBefore(rounds, others, i)
  {
    AlikeAt(evidence, rounds, others, i - 1);
    assert FollowsAt(rounds, i) && FollowsAt(others, i);
  }

  ghost predicate LeadsOn(rounds: seq<Round>, others: seq<Round>, i: nat)
    requires 0 < i < |rounds| && i < |others|
  {
    AlikeBefore(rounds, others, i - 1) ==> AlikeBefore(rounds, others, i)
  }

  lemma {:induction false} AlikeAlong(rounds: seq<Round>, others: seq<Round>, i: nat)
    requires i < |rounds| && i < |others| && AlikeBefore(rounds, others, 0)
    requires forall j: nat | 0 < j < |rounds| && j < |others| :: LeadsOn(rounds, others, j)
    ensures AlikeBefore(rounds, others, i)
    decreases i
  {
    if i > 0 {
      AlikeAlong(rounds, others, i - 1);
      assert LeadsOn(rounds, others, i);
    }
  }

  lemma AllAlike(evidence: Evidence, rounds: seq<Round>, others: seq<Round>, i: nat)
    requires IsHistory(evidence, rounds) && IsHistory(evidence, others) && i < |rounds| && i < |others|
    requires AlikeBefore(rounds, others, 0)
    ensures Alike(rounds, others, i)
  {
    forall j: nat | 0 < j < |rounds| && j < |others|
      ensures LeadsOn(rounds, others, j)
    {
      if AlikeBefore(rounds, others, j - 1) {
        AlikeNext(evidence, rounds, others, j);
      }
    }
    AlikeAlong(rounds, others, i);
    AlikeAt(evidence, rounds, others, i);
  }

  lemma AlikeStarts(table: Table, evidence: Evidence, groups: seq<seq<TypeId>>, reordered: seq<seq<TypeId>>,
                    base: Subs, n: nat,
                    rounds: seq<Round>, others: seq<Round>)
    requires Grouped(table, groups) && Grouped(table, reordered) && GroupClosed(table, base)
    requires Completes(table, evidence, groups, base, n, rounds)
             && Completes(table, evidence, reordered, base, n, others)
    ensures AlikeBefore(rounds, others, 0)
  {
    BegunMirrors(rounds[0].start, others[0].start);
  }

  lemma PlacesBefore(evidence: Evidence, rounds: seq<Round>, i: nat)
    requires IsHistory(evidence, rounds) && i < |rounds| - 1
    ensures rounds[i].placed != []
  {
    assert FollowsAt(rounds, i + 1);
  }

  lemma SameEnd(evidence: Evidence, n: nat, rounds: seq<Round>, others: seq<Round>)
    requires rounds != [] && others != [] && AlikeBefore(rounds, others, 0)
    requires Arrived(evidence, rounds[0].start, n, rounds) && Arrived(evidence, others[0].start, n, others)
    ensures |rounds| == |others|
  {
    var last := if |rounds| <= |others| then |rounds| - 1 else |others| - 1;
    AllAlike(evidence, rounds, others, last);
    if last < |rounds| - 1 {
      PlacesBefore(evidence, rounds, last);
    } else if last < |others| - 1 {
      PlacesBefore(evidence, others, last);
    }
  }

  lemma {:induction false} SameCounts(rounds: seq<Round>, others: seq<Round>)
    requires |rounds| == |others|
    requires forall i | 0 <= i < |rounds| ::
               rounds[i].placed == others[i].placed && rounds[i].run.Load() == others[i].run.Load()
    ensures PlacedIn(rounds) == PlacedIn(others) && LoadOf(rounds) == LoadOf(others)
  {
    if rounds != [] {
      SameCounts(rounds[..|rounds| - 1], others[..|others| - 1]);
    }
  }

  lemma CountsAlike(evidence: Evidence, rounds: seq<Round>, others: seq<Round>)
    requires IsHistory(evidence, rounds) && IsHistory(evidence, others) && |rounds| == |others| > 0
    requires AlikeBefore(rounds, others, 0)
    ensures PlacedIn(rounds) == PlacedIn(others) && LoadOf(rounds) == LoadOf(others)
  {
    forall i | 0 <= i < |rounds|
      ensures rounds[i].placed == others[i].placed && rounds[i].run.Load() == others[i].run.Load()
    {
      AllAlike(evidence, rounds, others, i);
    }
    SameCounts(rounds, others);
  }

  /** Whatever order the groups and the ids in them are listed in, and whatever the types are
  like, settling the named types gives one map over one base, in as many passes over as many
  groups, with the same declarations placed and the same ones reported. */
  lemma SettledAnyOrder(table: Table, evidence: Evidence, groups: seq<seq<TypeId>>, reordered: seq<seq<TypeId>>,
                        base: Subs, n: nat,
                        rounds: seq<Round>, others: seq<Round>)
    requires Grouped(table, groups) && Grouped(table, reordered) && GroupClosed(table, base)
    requires Completes(table, evidence, groups, base, n, rounds)
             && Completes(table, evidence, reordered, base, n, others)
    ensures |rounds| == |others|
    ensures Final(rounds).subs == Final(others).subs && Final(rounds).base == Final(others).base
    ensures rounds[|rounds| - 1].Rest() == others[|others| - 1].Rest()
    ensures rounds[|rounds| - 1].unresolved == others[|others| - 1].unresolved
    ensures PlacedIn(rounds) == PlacedIn(others) && LoadOf(rounds) == LoadOf(others)
  {
    AlikeStarts(table, evidence, groups, reordered, base, n, rounds, others);
    SameEnd(evidence, n, rounds, others);
    CountsAlike(evidence, rounds, others);
    AllAlike(evidence, rounds, others, |rounds| - 1);
  }
}
