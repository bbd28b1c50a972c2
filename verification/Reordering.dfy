/** The order types are listed in decides nothing: permuting the groups, or the ids inside
them, leaves every pass's map, every placement and the settled map as they were. */
module Reordering {
  import opened RawTypes
  import opened Substitution
  import opened Layout
  import opened Groups
  import opened Passes
  import opened Grouping
  import opened Dependence
  import opened Rounds
  import opened Worklist
  import opened Placement
  import opened RoundFacts
  import opened Reference
  import opened Sorting

  ghost predicate SameIds(a: seq<TypeId>, b: seq<TypeId>) {
    forall x :: x in a <==> x in b
  }

  lemma SameResolved(p: Partition, a: seq<TypeId>, b: seq<TypeId>)
    requires SameIds(a, b)
    ensures Resolved(p, a) == Resolved(p, b)
  {
    forall x | x in Resolved(p, a)
      ensures x in Resolved(p, b)
    {
      var i :| 0 <= i < |a| && x == p.Canonical(a[i]);
      assert a[i] in b;
      var j :| 0 <= j < |b| && b[j] == a[i];
    }
    forall x | x in Resolved(p, b)
      ensures x in Resolved(p, a)
    {
      var i :| 0 <= i < |b| && x == p.Canonical(b[i]);
      assert b[i] in a;
      var j :| 0 <= j < |a| && a[j] == b[i];
    }
  }

  lemma OnlyOne(ids: seq<TypeId>, x: TypeId)
    requires forall i, j | 0 <= i < |ids| && 0 <= j < |ids| && ids[i] == ids[j] :: i == j
    requires forall y :: y in ids <==> y == x
    ensures ids == [x]
  {
    forall i | 0 <= i < |ids|
      ensures ids[i] == x
    {
      assert ids[i] in ids;
    }
    assert x in ids;
    assert ids[0] == ids[|ids| - 1];
  }

  lemma NoneOf(ids: seq<TypeId>)
    requires forall x :: x !in ids
    ensures ids == []
  {
    if ids != [] {
      SomeElement(ids);
      assert false;
    }
  }

  lemma OneClass(p: Partition, x: TypeId)
    ensures Outcome(Classes(p, [x]), []) == GroupResult([], 1)
  {
    var classes: seq<Class> := [[x]];
    assert [x][..0] == [];
    assert Classes(p, [x]) == classes;
    assert classes[..0] == [];
    assert DuplicatesOf([x], x) == [];
    assert ClassAliases(classes) == [];
  }

  lemma OneDeclared(p: Partition, x: TypeId)
    ensures Outcome(Classes(p, []), [x]) == GroupResult([], 1)
  {
    assert [x][..0] == [];
    assert DuplicatesOf([x], x) == [];
  }

  /** An id listed twice is still one id: nothing to alias. */
  lemma LoneResult(p: Partition, ids: seq<TypeId>, x: TypeId)
    requires Resolved(p, ids) == {x}
    ensures Result(p, ids) == GroupResult([], 1)
  {
    var definitions, declarations := OrderedDefinitions(p, ids), Ascending(Declarations(p, ids));
    if x in p.table.declarations {
      NoneOf(definitions);
      OnlyOne(declarations, x);
      OneDeclared(p, x);
    } else {
      NoneOf(declarations);
      OnlyOne(definitions, x);
      OneClass(p, x);
    }
  }

  /** A group's partition is that of its ids as a set. */
  lemma SameResult(p: Partition, a: seq<TypeId>, b: seq<TypeId>)
    requires SameIds(a, b)
    ensures Result(p, a) == Result(p, b)
  {
    SameResolved(p, a, b);
    if |a| == 1 || |b| == 1 {
      var x := if |a| == 1 then p.Canonical(a[0]) else p.Canonical(b[0]);
      assert Resolved(p, a) == {x};
      LoneResult(p, a, x);
      LoneResult(p, b, x);
    } else {
      assert Definitions(p, a) == Definitions(p, b) && Declarations(p, a) == Declarations(p, b);
    }
  }

  /** Two lists of the groups of one table are the same groups. */
  lemma SameGroups(table: Table, groups: seq<seq<TypeId>>, others: seq<seq<TypeId>>, i: nat) returns (j: nat)
    requires Grouped(table, groups) && Grouped(table, others) && i < |groups|
    ensures j < |others| && SameIds(groups[i], others[j])
  {
    var x := groups[i][0];
    assert x in groups[i];
    MembersNamed(table, groups, i, x);
    j := OwnerOf(table, others, x);
    assert table.Key(x) == table.Key(others[j][0]);
    forall y
      ensures y in groups[i] <==> y in others[j]
    {
      assert y in groups[i] <==> table.Key(y) == table.Key(groups[i][0]);
      assert y in others[j] <==> table.Key(y) == table.Key(others[j][0]);
    }
  }

  lemma SameEntry(p: Partition, groups: seq<seq<TypeId>>, others: seq<seq<TypeId>>, x: TypeId)
    requires Grouped(p.table, groups) && Grouped(p.table, others) && GroupClosed(p.table, p.base)
    ensures var m, n := MapOf(p.base, ResultsOf(p, groups)), MapOf(p.base, ResultsOf(p, others));
            (x in m <==> x in n) && (x in m ==> m[x] == n[x])
  {
    ResultsOwned(p, groups);
    ResultsOwned(p, others);
    if p.table.IsNamed(x) {
      var i := OwnerOf(p.table, groups, x);
      var j := SameGroups(p.table, groups, others, i);
      SameResult(p, groups[i], others[j]);
      MapOfLookup(p.table, groups, p.base, ResultsOf(p, groups), i, x);
      MapOfLookup(p.table, others, p.base, ResultsOf(p, others), j, x);
    } else {
      MapOfStranger(p.table, groups, p.base, ResultsOf(p, groups), x);
      MapOfStranger(p.table, others, p.base, ResultsOf(p, others), x);
    }
  }

  lemma SamePassMap(p: Partition, groups: seq<seq<TypeId>>, others: seq<seq<TypeId>>)
    requires BaseDescends(p.table, p.base)
    requires Grouped(p.table, groups) && Grouped(p.table, others) && GroupClosed(p.table, p.base)
    ensures PassMap(p, groups) == PassMap(p, others)
  {
    forall x: TypeId
      ensures var m, n := MapOf(p.base, ResultsOf(p, groups)), MapOf(p.base, ResultsOf(p, others));
              (x in m <==> x in n) && (x in m ==> m[x] == n[x])
    {
      SameEntry(p, groups, others, x);
    }
  }

  lemma {:induction false} SameNthMap(table: Table, groups: seq<seq<TypeId>>, others: seq<seq<TypeId>>, base: Subs,
                                      k: nat)
    requires BaseDescends(table, base) && GroupClosed(table, base)
    requires Grouped(table, groups) && Grouped(table, others)
    ensures NthMap(table, groups, base, k) == NthMap(table, others, base, k)
    decreases k
  {
    if k == 0 {
      SamePassMap(NthPass(table, groups, base, k), groups, others);
    } else {
      SameNthMap(table, groups, others, base, k - 1);
      SameNext(table, groups, others, base, k);
    }
  }

  lemma {:induction false} SameNext(table: Table, groups: seq<seq<TypeId>>, others: seq<seq<TypeId>>, base: Subs,
                                    k: nat)
    requires BaseDescends(table, base) && GroupClosed(table, base)
    requires Grouped(table, groups) && Grouped(table, others) && k > 0
    requires NthMap(table, groups, base, k - 1) == NthMap(table, others, base, k - 1)
    ensures NthMap(table, groups, base, k) == NthMap(table, others, base, k)
  {
    NextPass(table, groups, base, k);
    NextPass(table, others, base, k);
    SamePassMap(NthPass(table, groups, base, k), groups, others);
  }

  lemma SplitsIncluded(v: View, p: Partition, groups: seq<seq<TypeId>>, others: seq<seq<TypeId>>)
    requires Grouped(p.table, groups) && Grouped(p.table, others)
    ensures SplitSets(v, p, groups) <= SplitSets(v, p, others)
  {
    forall ids | ids in SplitSets(v, p, groups)
      ensures ids in SplitSets(v, p, others)
    {
      var i :| 0 <= i < |groups| && v.IsSplit(Resolved(p, groups[i])) && ids == Resolved(p, groups[i]);
      var j := SameGroups(p.table, groups, others, i);
      SameResolved(p, groups[i], others[j]);
    }
  }

  lemma SplitsAnyOrder(v: View, p: Partition, groups: seq<seq<TypeId>>, others: seq<seq<TypeId>>)
    requires Grouped(p.table, groups) && Grouped(p.table, others)
    ensures SplitSets(v, p, groups) == SplitSets(v, p, others)
  {
    SplitsIncluded(v, p, groups, others);
    SplitsIncluded(v, p, others, groups);
  }

  lemma PlacedAnyOrder(table: Table, evidence: Evidence, groups: seq<seq<TypeId>>, others: seq<seq<TypeId>>, base: Subs,
                       m: Subs, placed: map<TypeId, TypeId>)
    requires Grouped(table, groups) && Grouped(table, others)
    requires PlacedInRound(table, evidence, groups, base, m, placed)
    ensures PlacedInRound(table, evidence, others, base, m, placed)
  {
    SplitsAnyOrder(View(table, evidence, m), PlainPass(table, base), groups, others);
  }

  /** What a round places stays in its group. */
  lemma PlacementInGroup(v: View, base: Subs, groups: seq<seq<TypeId>>, placed: map<TypeId, TypeId>)
    requires Grouped(v.table, groups) && GroupClosed(v.table, base) && KeepsGroups(v.subs, groups)
    requires IsPlacement(v, SplitSets(v, PlainPass(v.table, base), groups), placed)
    ensures PlacesInGroup(v.table, placed)
  {
    var p := PlainPass(v.table, base);
    var splits := SplitSets(v, p, groups);
    forall d | d in placed
      ensures v.table.IsNamed(d) && v.table.Key(placed[d]) == v.table.Key(d)
    {
      var own :| own in splits && PlacedAs(v, splits, own, d, placed[d]);
      var g :| 0 <= g < |groups| && v.IsSplit(Resolved(p, groups[g])) && own == Resolved(p, groups[g]);
      var x := PlacedTarget(v, splits, own, d, placed[d]);
      ResolvedInGroup(p, groups, g);
      CanonKeepsGroup(v.subs, groups[g], x);
      MembersNamed(v.table, groups, g, d);
      assert v.table.Key(d) == v.table.Key(groups[g][0]) == v.table.Key(placed[d]);
    }
  }

  lemma RoundAnyOrder(table: Table, evidence: Evidence, groups: seq<seq<TypeId>>, others: seq<seq<TypeId>>,
                      r: WholeRound)
    requires Grouped(table, groups) && Grouped(table, others) && GroupClosed(table, r.base)
    requires GoesBy(table, evidence, groups, r)
    ensures GoesBy(table, evidence, others, r) && PlacesInGroup(table, r.placed)
  {
    SameNthMap(table, groups, others, r.base, r.k);
    SameNthMap(table, groups, others, r.base, r.k + 1);
    PlacedAnyOrder(table, evidence, groups, others, r.base, r.m, r.placed);
    NthOwned(table, groups, r.base, r.k);
    PlacementInGroup(View(table, evidence, r.m), r.base, groups, r.placed);
  }

  lemma NextClosed(table: Table, evidence: Evidence, groups: seq<seq<TypeId>>, r: WholeRound, s: WholeRound)
    requires Grouped(table, groups) && GroupClosed(table, r.base)
    requires GoesBy(table, evidence, groups, r) && Leads(r, s)
    ensures GroupClosed(table, s.base)
  {
    RoundAnyOrder(table, evidence, groups, groups, r);
    PlacedClosed(table, r.base, r.placed);
  }

  lemma StepClosed(table: Table, evidence: Evidence, groups: seq<seq<TypeId>>, rounds: seq<WholeRound>, i: nat)
    requires AreRounds(table, evidence, groups, rounds) && 0 < i < |rounds| && Grouped(table, groups)
    ensures GroupClosed(table, rounds[i - 1].base) ==> GroupClosed(table, rounds[i].base)
  {
    if GroupClosed(table, rounds[i - 1].base) {
      assert GoesBy(table, evidence, groups, rounds[i - 1]) && Leads(rounds[i - 1], rounds[i]);
      NextClosed(table, evidence, groups, rounds[i - 1], rounds[i]);
    }
  }

  lemma {:induction false} ClosedAlong(table: Table, rounds: seq<WholeRound>, i: nat)
    requires i < |rounds| && GroupClosed(table, rounds[0].base)
    requires forall j: nat | 0 < j < |rounds| && GroupClosed(table, rounds[j - 1].base) ::
               GroupClosed(table, rounds[j].base)
    ensures GroupClosed(table, rounds[i].base)
  {
    if i > 0 {
      ClosedAlong(table, rounds, i - 1);
    }
  }

  lemma RoundsClosed(table: Table, evidence: Evidence, groups: seq<seq<TypeId>>, rounds: seq<WholeRound>, i: nat)
    requires AreRounds(table, evidence, groups, rounds) && i < |rounds|
    requires Grouped(table, groups) && GroupClosed(table, rounds[0].base)
    ensures GroupClosed(table, rounds[i].base)
  {
    forall j: nat | 0 < j < |rounds| && GroupClosed(table, rounds[j - 1].base)
      ensures GroupClosed(table, rounds[j].base)
    {
      StepClosed(table, evidence, groups, rounds, j);
    }
    ClosedAlong(table, rounds, i);
  }

  lemma RoundsAnyOrder(table: Table, evidence: Evidence, groups: seq<seq<TypeId>>, others: seq<seq<TypeId>>,
                       rounds: seq<WholeRound>)
    requires AreRounds(table, evidence, groups, rounds)
    requires Grouped(table, groups) && Grouped(table, others) && GroupClosed(table, rounds[0].base)
    ensures AreRounds(table, evidence, others, rounds)
  {
    forall i | 0 <= i < |rounds|
      ensures GoesBy(table, evidence, others, rounds[i])
    {
      RoundsClosed(table, evidence, groups, rounds, i);
      assert GoesBy(table, evidence, groups, rounds[i]);
      RoundAnyOrder(table, evidence, groups, others, rounds[i]);
    }
  }

  /** Whatever order the groups and their ids come in, with as many passes the whole passes and
  placements end at one map, at the limit or below it. */
  lemma WholeRunsAnyOrder(table: Table, evidence: Evidence, groups: seq<seq<TypeId>>, others: seq<seq<TypeId>>,
                          base: Subs,
                          n: nat, final: Subs, left: nat)
    requires Grouped(table, groups) && Grouped(table, others) && GroupClosed(table, base)
    requires WholeRuns(table, evidence, groups, base, n, final, left)
    ensures WholeRuns(table, evidence, others, base, n, final, left)
  {
    var rounds :| RunsBy(table, evidence, groups, base, n, final, left, rounds);
    RoundsAnyOrder(table, evidence, groups, others, rounds);
    assert RunsBy(table, evidence, others, base, n, final, left, rounds);
  }
}
