/** What one round does: a cascade, the unit rule on what it left, and the way back to the
first pass. */
module RoundFacts {
  import opened RawTypes
  import opened Substitution
  import opened Layout
  import opened Signature
  import opened Groups
  import opened GroupFacts
  import opened Passes
  import opened Grouping
  import opened Dependence
  import opened Rounds
  import opened Worklist
  import opened Fixpoints
  import opened Placement

  // ----- what a placement is, order and tables aside

  /** Exactly the standing declarations whose unit elects one class, each sent there. */
  ghost predicate IsPlacement(v: View, splits: set<set<TypeId>>, placed: map<TypeId, TypeId>) {
    && (forall d | d in placed :: exists own :: own in splits && PlacedAs(v, splits, own, d, placed[d]))
    && (forall own, d, c | own in splits && PlacedAs(v, splits, own, d, c) :: d in placed && placed[d] == c)
  }

  ghost function PlainPass(table: Table, base: Subs): Partition {
    Partition(table, base, None)
  }

  lemma PlacementOnce(v: View, splits: set<set<TypeId>>, a: map<TypeId, TypeId>, b: map<TypeId, TypeId>)
    requires IsPlacement(v, splits, a) && IsPlacement(v, splits, b)
    ensures a == b
  {
    forall d: TypeId
      ensures (d in a <==> d in b) && (d in a ==> a[d] == b[d])
    {
      if d in a {
        var own :| own in splits && PlacedAs(v, splits, own, d, a[d]);
      }
      if d in b {
        var own :| own in splits && PlacedAs(v, splits, own, d, b[d]);
      }
    }
  }

  lemma AscendingAliases(placed: seq<Pair>, pair: Pair)
    requires forall i, j | 0 <= i < j < |placed| :: placed[i].0 < placed[j].0
    requires pair in placed
    ensures pair.0 in AliasMap(placed) && AliasMap(placed)[pair.0] == pair.1
  {
    var k :| 0 <= k < |placed| && placed[k] == pair;
    AliasMapHas(placed, pair.0);
    assert pair.0 in AliasMap(placed);
    var found := (pair.0, AliasMap(placed)[pair.0]);
    var i :| 0 <= i < |placed| && placed[i] == found;
    assert i == k;
  }

  /** A round's list of placements, as a map, is the placement. */
  lemma RoundIsPlacement(v: View, splits: set<set<TypeId>>, placed: seq<Pair>, unresolved: seq<Unresolved>)
    requires RoundOf(v, splits, placed, unresolved) && EachOnce(placed, unresolved)
    requires forall a, b, d | a in splits && b in splits && d in a && d in b :: a == b
    ensures IsPlacement(v, splits, AliasMap(placed))
  {
    var m := AliasMap(placed);
    forall d | d in m
      ensures exists own :: own in splits && PlacedAs(v, splits, own, d, m[d])
    {
      AliasMapHas(placed, d);
      assert (d, m[d]) in placed;
      assert exists own :: own in splits && PlacedAs(v, splits, own, (d, m[d]).0, (d, m[d]).1);
    }
    forall own, d, c | own in splits && PlacedAs(v, splits, own, d, c)
      ensures d in m && m[d] == c
    {
      RoundPlaces(v, splits, placed, unresolved, own, d, c);
      AscendingAliases(placed, (d, c));
    }
  }

  lemma RoundPlaces(v: View, splits: set<set<TypeId>>, placed: seq<Pair>, unresolved: seq<Unresolved>,
                    own: set<TypeId>, d: TypeId, c: TypeId)
    requires RoundOf(v, splits, placed, unresolved)
    requires forall a, b, x | a in splits && b in splits && x in a && x in b :: a == b
    requires own in splits && PlacedAs(v, splits, own, d, c)
    ensures (d, c) in placed
  {
    assert Mentions(placed, unresolved, d);
    if pair :| pair in placed && pair.0 == d {
      var other :| other in splits && PlacedAs(v, splits, other, pair.0, pair.1);
      assert d in own && d in other;
      DecidesOnce(v, splits, own, d, Placed(c), Placed(pair.1));
      assert pair == (d, c);
    } else {
      var report :| report in unresolved && report.declaration == d;
      var other :| other in splits && ReportedAs(v, splits, other, report);
      assert d in own && d in other;
      DecidesOnce(v, splits, own, d, Placed(c), report.evidence);
      assert false;
    }
  }

  // ----- where placements go

  lemma ElectedIsClass(v: View, splits: set<set<TypeId>>, own: set<TypeId>, unit: nat, c: TypeId) returns (x: TypeId)
    requires v.Elects(splits, own, unit, c)
    ensures x in own && v.Defines(x) && v.Class(x) == c
  {
    var other :| other in splits && v.Siblings(own, other) && v.Votes(own, other, unit, c);
    var defined :| v.Speaks(other, unit, defined) && v.Supports(own, other, defined, c)
                   && forall d | v.Supports(own, other, defined, d) :: d == c;
    var u: nat :| v.UnitDefines(own, u, c) && v.Speaks(other, u, defined);
    x :| x in own && v.DefinedAt(x, u) && v.Class(x) == c;
  }

  /** A placement targets a definition class of the declaration's own group. */
  lemma PlacedTarget(v: View, splits: set<set<TypeId>>, own: set<TypeId>, d: TypeId, c: TypeId) returns (x: TypeId)
    requires PlacedAs(v, splits, own, d, c)
    ensures d in own && d in v.table.declarations && v.Class(d) == d
    ensures x in own && x !in v.table.declarations && Canon(v.subs, x) == c
  {
    x := ElectedIsClass(v, splits, own, v.evidence.Unit(d).value, c);
  }

  lemma RoundPlaceable(v: View, base: Subs, groups: seq<seq<TypeId>>, placed: seq<Pair>, unresolved: seq<Unresolved>)
    requires BaseDescends(v.table, base) && Descends(v.table, base, v.subs)
    requires RoundOf(v, SplitSets(v, PlainPass(v.table, base), groups), placed, unresolved)
    ensures Placeable(v.table, base, placed)
  {
    var p := PlainPass(v.table, base);
    var splits := SplitSets(v, p, groups);
    forall pair | pair in placed
      ensures && pair.0 in v.table.declarations && pair.0 !in base
              && pair.1 !in v.table.declarations && pair.1 !in base
    {
      var own :| own in splits && PlacedAs(v, splits, own, pair.0, pair.1);
      var x := PlacedTarget(v, splits, own, pair.0, pair.1);
      CanonOfDefinition(v.table, base, v.subs, x);
      assert Canon(v.subs, pair.0) !in v.subs && pair.1 !in v.subs;
    }
  }

  // ----- which groups can have a declaration to place

  /** A result with one canonical rules out two classes under the map it is part of. */
  lemma OneCanonicalNotSplit(v: View, groups: seq<seq<TypeId>>, base: Subs, results: seq<GroupResult>, g: nat)
    requires Regular(v.table, groups, base) && Owned(groups, results) && g < |groups|
    requires v.subs == MapOf(base, results) && Genuine(v.table, base, groups[g], results[g])
    requires results[g].canonicals <= 1
    ensures !v.IsSplit(Resolved(PlainPass(v.table, base), groups[g]))
  {
    var p: Partition :| p.table == v.table && p.base == base
                        && Effective(base, results[g]) == Effective(base, Result(p, groups[g]))
                        && (results[g].canonicals > 1 <==> Result(p, groups[g]).canonicals > 1);
    var ids := Resolved(PlainPass(v.table, base), groups[g]);
    assert ids == Resolved(p, groups[g]);
    ResolvedInGroup(p, groups, g);
    var c := SoleCanonical(p, groups[g]);
    SameEntries(p, groups[g], results[g], c);
    forall x | x in v.ClassesIn(ids)
      ensures x == c
    {
      var y :| y in ids && v.Defines(y) && v.Class(y) == x;
      LeadsTo(p, groups, results, v.subs, g, c, y);
    }
    AtMostOne(v.ClassesIn(ids), c);
  }

  lemma SameEntries(p: Partition, ids: seq<TypeId>, result: GroupResult, c: TypeId)
    requires Effective(p.base, result) == Effective(p.base, Result(p, ids))
    requires c in Resolved(p, ids) && c !in AliasMap(Result(p, ids).aliases)
    requires forall x | x in Resolved(p, ids) && x != c ::
               x in AliasMap(Result(p, ids).aliases) && AliasMap(Result(p, ids).aliases)[x] == c
    ensures c !in AliasMap(result.aliases)
    ensures forall x | x in Resolved(p, ids) && x != c ::
              x in AliasMap(result.aliases) && AliasMap(result.aliases)[x] == c
  {
    var a, b := Effective(p.base, result), Effective(p.base, Result(p, ids));
    forall x | x in Resolved(p, ids)
      ensures x !in p.base
      ensures x in AliasMap(result.aliases) <==> x in AliasMap(Result(p, ids).aliases)
      ensures x in AliasMap(result.aliases) ==> AliasMap(result.aliases)[x] == AliasMap(Result(p, ids).aliases)[x]
    {
      assert x in a <==> x in b;
    }
  }

  lemma AtMostOne(s: set<TypeId>, c: TypeId)
    requires forall x | x in s :: x == c
    ensures |s| < 2
  {
    assert s <= {c};
    if c in s {
      assert s == {c};
    } else {
      assert s == {};
    }
  }

  // ----- a round starts where the last one's first pass left off

  lemma FirstStillFits(table: Table, groups: seq<seq<TypeId>>, base: Subs, first: seq<GroupResult>,
                       placed: map<TypeId, TypeId>, after: Subs)
    requires Regular(table, groups, base) && FirstFits(table, groups, base, first)
    requires Regular(table, groups, after) && Placing(Graph(table, base), placed, Graph(table, after))
    ensures FirstFits(table, groups, after, first)
  {
    var p, q := NthPass(table, groups, base, 0), NthPass(table, groups, after, 0);
    forall g | 0 <= g < |groups|
      ensures Effective(after, first[g]) == Effective(after, NthResults(table, groups, after, 0)[g])
      ensures first[g].canonicals > 1 <==> NthResults(table, groups, after, 0)[g].canonicals > 1
    {
      assert NthResults(table, groups, base, 0)[g] == Result(p, groups[g]);
      assert NthResults(table, groups, after, 0)[g] == Result(q, groups[g]);
      FirstPassPlaced(p, groups, placed, q, g);
      FurtherRemoved(AliasMap(first[g].aliases), AliasMap(Result(p, groups[g]).aliases), base.Keys, after.Keys);
    }
  }

  lemma FurtherRemoved(m: map<TypeId, TypeId>, n: map<TypeId, TypeId>, few: set<TypeId>, many: set<TypeId>)
    requires m - few == n - few && few <= many
    ensures m - many == n - many
  {
    forall x
      ensures x in m - many <==> x in n - many
      ensures x in m - many ==> (m - many)[x] == (n - many)[x]
    {
      assert x in m - few <==> x in n - few;
      assert x in m - few ==> (m - few)[x] == (n - few)[x];
    }
  }

  lemma FirstIsGenuine(table: Table, groups: seq<seq<TypeId>>, base: Subs, first: seq<GroupResult>)
    requires BaseDescends(table, base) && FirstFits(table, groups, base, first)
    ensures AllGenuine(table, groups, base, first)
  {
    var p := NthPass(table, groups, base, 0);
    forall g | 0 <= g < |groups|
      ensures Genuine(table, base, groups[g], first[g])
    {
      assert NthResults(table, groups, base, 0)[g] == Result(p, groups[g]);
      assert Effective(base, first[g]) == Effective(base, Result(p, groups[g]));
    }
  }

  lemma ResetKeepsStep(s: State, placed: seq<Pair>, t: State, k: nat)
    requires s.Tracks(k) && t.Sound() && ResetOf(s, placed, t)
    requires Placing(Graph(s.table, s.base), AliasMap(placed), Graph(t.table, t.base))
    ensures t.Tracks(0) && t.Unmoved()
  {
    var m := AliasMap(placed);
    RegularPlaced(s.table, s.groups, s.base, m, t.base);
    CoverPlaced(s, m, t);
    FirstStillFits(s.table, s.groups, s.base, s.first, m, t.base);
    FirstIsGenuine(t.table, t.groups, t.base, t.first);
    assert t.Results() == t.first;
  }

  lemma CoverPlaced(s: State, placed: map<TypeId, TypeId>, t: State)
    requires Regular(s.table, s.groups, s.base) && AllCovered(Graph(s.table, s.base), s.groups, s.deps)
    requires Regular(t.table, t.groups, t.base) && Placing(Graph(s.table, s.base), placed, Graph(t.table, t.base))
    requires t.groups == s.groups && t.deps == s.deps
    ensures AllCovered(Graph(t.table, t.base), t.groups, t.deps)
  {
    forall i | 0 <= i < |s.groups|
      ensures Covered(Graph(t.table, t.base), t.groups, t.deps[i], i)
    {
      assert Covered(Graph(s.table, s.base), s.groups, s.deps[i], i);
      CoveredPlaced(Graph(s.table, s.base), placed, Graph(t.table, t.base), s.groups, s.deps[i], i);
    }
  }

  // ----- what a round places

  ghost predicate PlacedInRound(table: Table, evidence: Evidence, groups: seq<seq<TypeId>>, base: Subs, m: Subs,
                                placed: map<TypeId, TypeId>) {
    var v := View(table, evidence, m);
    IsPlacement(v, SplitSets(v, PlainPass(table, base), groups), placed)
  }

  lemma PlacedShrinks(table: Table, base: map<TypeId, TypeId>, placed: map<TypeId, TypeId>)
    requires PlacesDeclarations(table, base, placed) && placed != map[]
    ensures table.declarations - (base + placed).Keys < table.declarations - base.Keys
  {
    var d :| d in placed;
    assert d in table.declarations - base.Keys && d !in table.declarations - (base + placed).Keys;
  }

  lemma PlacedGrows(table: Table, base: map<TypeId, TypeId>, placed: seq<Pair>, grown: map<TypeId, TypeId>)
    requires Placeable(table, base, placed) && placed != [] && grown == base + AliasMap(placed)
    ensures table.declarations - grown.Keys < table.declarations - base.Keys
    ensures base.Keys <= grown.Keys <= base.Keys + table.declarations
  {
    PlaceablePlaces(table, base, placed);
    AliasMapHas(placed, placed[0].0);
    PlacedShrinks(table, base, AliasMap(placed));
  }

  /** Only named types are placed. */
  ghost predicate NewNamed(table: Table, small: map<TypeId, TypeId>, big: map<TypeId, TypeId>) {
    forall x | x in big && x !in small :: table.IsNamed(x)
  }

  ghost predicate Strong(table: Table, groups: seq<seq<TypeId>>, base: Subs) {
    Regular(table, groups, base) && Complete(Graph(table, base))
  }

  // ----- one round

  /** The groups worth a look: those with several canonicals, as picked from the list. */
  ghost predicate Picks(groups: seq<seq<TypeId>>, results: seq<GroupResult>, picked: seq<seq<TypeId>>, at: seq<nat>,
                        n: nat)
    requires |results| == |groups| && n <= |groups|
  {
    && |at| == |picked|
    && (forall i | 0 <= i < |at| :: at[i] < n && picked[i] == groups[at[i]])
    && (forall i, j | 0 <= i < j < |at| :: at[i] < at[j])
    && (forall g | 0 <= g < n :: g in at <==> results[g].canonicals > 1)
  }

  lemma PicksOneMore(groups: seq<seq<TypeId>>, results: seq<GroupResult>, picked: seq<seq<TypeId>>, at: seq<nat>,
                     n: nat)
    requires |results| == |groups| && n < |groups| && Picks(groups, results, picked, at, n)
    ensures results[n].canonicals > 1 ==> Picks(groups, results, picked + [groups[n]], at + [n], n + 1)
    ensures results[n].canonicals <= 1 ==> Picks(groups, results, picked, at, n + 1)
  {
  }

  lemma PickedSets(v: View, groups: seq<seq<TypeId>>, base: Subs, results: seq<GroupResult>, picked: seq<seq<TypeId>>,
                   at: seq<nat>)
    requires Regular(v.table, groups, base) && Owned(groups, results) && v.subs == MapOf(base, results)
    requires AllGenuine(v.table, groups, base, results)
    requires Picks(groups, results, picked, at, |groups|)
    ensures SplitSets(v, PlainPass(v.table, base), picked) == SplitSets(v, PlainPass(v.table, base), groups)
  {
    var p := PlainPass(v.table, base);
    forall ids | ids in SplitSets(v, p, groups)
      ensures ids in SplitSets(v, p, picked)
    {
      var g :| 0 <= g < |groups| && v.IsSplit(Resolved(p, groups[g])) && ids == Resolved(p, groups[g]);
      if results[g].canonicals <= 1 {
        OneCanonicalNotSplit(v, groups, base, results, g);
      }
      var i :| 0 <= i < |at| && at[i] == g;
      assert picked[i] == groups[g];
    }
    forall ids | ids in SplitSets(v, p, picked)
      ensures ids in SplitSets(v, p, groups)
    {
      var i :| 0 <= i < |picked| && v.IsSplit(Resolved(p, picked[i])) && ids == Resolved(p, picked[i]);
      assert groups[at[i]] == picked[i];
    }
  }

  lemma GroupsApart(p: Partition, groups: seq<seq<TypeId>>, g: nat, h: nat)
    requires Grouped(p.table, groups) && GroupClosed(p.table, p.base) && g < |groups| && h < |groups| && g != h
    ensures Resolved(p, groups[g]) !! Resolved(p, groups[h])
  {
    ResolvedInGroup(p, groups, g);
    ResolvedInGroup(p, groups, h);
    forall x | x in Resolved(p, groups[g]) && x in Resolved(p, groups[h])
      ensures false
    {
      OneOwner(p.table, groups, g, h, x);
    }
  }

  lemma PickedApart(p: Partition, groups: seq<seq<TypeId>>, results: seq<GroupResult>, picked: seq<seq<TypeId>>,
                    at: seq<nat>)
    requires Grouped(p.table, groups) && GroupClosed(p.table, p.base) && |results| == |groups|
             && Picks(groups, results, picked, at, |groups|)
    ensures ResolvedApart(p, picked)
  {
    forall i, j | 0 <= i < j < |picked|
      ensures Resolved(p, picked[i]) !! Resolved(p, picked[j])
    {
      GroupsApart(p, groups, at[i], at[j]);
    }
  }

  /** What the picked groups have placed stays in its group. */
  lemma RoundInGroup(v: View, base: Subs, groups: seq<seq<TypeId>>, results: seq<GroupResult>, picked: seq<seq<TypeId>>,
                     at: seq<nat>, placed: seq<Pair>, unresolved: seq<Unresolved>)
    requires Grouped(v.table, groups) && GroupClosed(v.table, base) && KeepsGroups(v.subs, groups)
    requires |results| == |groups| && Picks(groups, results, picked, at, |groups|)
    requires RoundOf(v, SplitSets(v, PlainPass(v.table, base), picked), placed, unresolved)
    ensures PlacesInGroup(v.table, AliasMap(placed))
  {
    var p := PlainPass(v.table, base);
    var splits, m := SplitSets(v, p, picked), AliasMap(placed);
    forall d | d in m
      ensures v.table.IsNamed(d) && v.table.Key(m[d]) == v.table.Key(d)
    {
      AliasMapHas(placed, d);
      var pair := (d, m[d]);
      assert pair in placed;
      var own :| own in splits && PlacedAs(v, splits, own, pair.0, pair.1);
      var i :| 0 <= i < |picked| && v.IsSplit(Resolved(p, picked[i])) && own == Resolved(p, picked[i]);
      PlacedInGroup(v, base, groups, at[i], splits, d, m[d]);
    }
  }

  lemma PlacedInGroup(v: View, base: Subs, groups: seq<seq<TypeId>>, g: nat, splits: set<set<TypeId>>, d: TypeId,
                      c: TypeId)
    requires Grouped(v.table, groups) && GroupClosed(v.table, base) && KeepsGroups(v.subs, groups) && g < |groups|
    requires PlacedAs(v, splits, Resolved(PlainPass(v.table, base), groups[g]), d, c)
    ensures v.table.IsNamed(d) && v.table.Key(c) == v.table.Key(d)
  {
    var p := PlainPass(v.table, base);
    var x := PlacedTarget(v, splits, Resolved(p, groups[g]), d, c);
    ResolvedInGroup(p, groups, g);
    CanonKeepsGroup(v.subs, groups[g], x);
    MembersNamed(v.table, groups, g, d);
    assert v.table.Key(d) == v.table.Key(groups[g][0]) == v.table.Key(c);
  }

  lemma SetsApart(v: View, p: Partition, groups: seq<seq<TypeId>>)
    requires Grouped(p.table, groups) && GroupClosed(p.table, p.base)
    ensures forall a, b, d | a in SplitSets(v, p, groups) && b in SplitSets(v, p, groups) && d in a && d in b :: a == b
  {
    var splits := SplitSets(v, p, groups);
    forall a, b, d | a in splits && b in splits && d in a && d in b
      ensures a == b
    {
      var g :| 0 <= g < |groups| && v.IsSplit(Resolved(p, groups[g])) && a == Resolved(p, groups[g]);
      var h :| 0 <= h < |groups| && v.IsSplit(Resolved(p, groups[h])) && b == Resolved(p, groups[h]);
      if g != h {
        GroupsApart(p, groups, g, h);
      }
    }
  }

  lemma RoundAgrees(s: State, evidence: Evidence, picked: seq<seq<TypeId>>, at: seq<nat>, k: nat,
                    placed: seq<Pair>, unresolved: seq<Unresolved>)
    requires s.Tracks(k) && Picks(s.groups, s.Results(), picked, at, |s.groups|)
    requires RoundOf(View(s.table, evidence, s.subs),
                     SplitSets(View(s.table, evidence, s.subs), PlainPass(s.table, s.base), picked), placed, unresolved)
    requires ResolvedApart(PlainPass(s.table, s.base), picked) ==> EachOnce(placed, unresolved)
    ensures PlacedInRound(s.table, evidence, s.groups, s.base, s.subs, AliasMap(placed))
    ensures PlacesInGroup(s.table, AliasMap(placed))
    ensures EachOnce(placed, unresolved)
    ensures SplitSets(View(s.table, evidence, s.subs), PlainPass(s.table, s.base), picked)
            == SplitSets(View(s.table, evidence, s.subs), PlainPass(s.table, s.base), s.groups)
  {
    var v, p := View(s.table, evidence, s.subs), PlainPass(s.table, s.base);
    PickedSets(v, s.groups, s.base, s.Results(), picked, at);
    PickedApart(p, s.groups, s.Results(), picked, at);
    SetsApart(v, p, s.groups);
    RoundIsPlacement(v, SplitSets(v, p, s.groups), placed, unresolved);
    TracksKeepsGroups(s, k);
    RoundInGroup(v, s.base, s.groups, s.Results(), picked, at, placed, unresolved);
  }

  lemma TracksKeepsGroups(s: State, k: nat)
    requires s.Tracks(k)
    ensures KeepsGroups(s.subs, s.groups)
  {
    InStepMap(s.table, s.groups, s.base, s.Results(), k);
    NthOwned(s.table, s.groups, s.base, k);
  }

  lemma RepresentedKeepsGroups(s: State)
    requires s.Represents()
    ensures KeepsGroups(s.subs, s.groups)
  {
    forall g | 0 <= g < |s.groups|
      ensures KeepsGroup(s.subs, s.groups[g])
    {
      MapOfKeepsGroup(s.table, s.groups, s.base, s.Results(), g);
    }
  }

  /** Whatever the types are like, as long as links stay in their groups: a cascade keeps the
  map to its groups, and its round places or reports each declaration once, in its group. */
  ghost predicate RoundKeepsTo(s: State, placed: seq<Pair>, unresolved: seq<Unresolved>) {
    s.Represents() && PlacesInGroup(s.table, AliasMap(placed)) && EachOnce(placed, unresolved)
  }

  lemma RoundRepresents(run: Run, s: State, t: State, evidence: Evidence, picked: seq<seq<TypeId>>, at: seq<nat>,
                        placed: seq<Pair>, unresolved: seq<Unresolved>)
    requires run.Of(s, t) && s.Represents() && |t.first| == |t.current| == |t.groups|
    requires Picks(t.groups, t.Results(), picked, at, |t.groups|)
    requires RoundOf(View(t.table, evidence, t.subs),
                     SplitSets(View(t.table, evidence, t.subs), PlainPass(t.table, t.base), picked), placed, unresolved)
    requires ResolvedApart(PlainPass(t.table, t.base), picked) ==> EachOnce(placed, unresolved)
    ensures RoundKeepsTo(t, placed, unresolved)
  {
    RunRepresents(run, s, t, |run.states| - 1);
    RepresentedKeepsGroups(t);
    PickedApart(PlainPass(t.table, t.base), t.groups, t.Results(), picked, at);
    RoundInGroup(View(t.table, evidence, t.subs), t.base, t.groups, t.Results(), picked, at, placed, unresolved);
  }

  lemma CascadeDone(run: Run, s: State, t: State)
    requires run.Of(s, t) && s.Tracks(0) && s.Unmoved()
    ensures t.Tracks(run.Passes())
    ensures run.Last() == [] ==> t.Rests(run.Passes())
  {
    var k := |run.states| - 1;
    RunKeepsUp(run, s, t, k);
    if run.Last() == [] {
      NothingLeft(t, k);
    }
  }
}
