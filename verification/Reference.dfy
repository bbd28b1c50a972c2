/** The reference for the named types, with no worklist: rounds of whole passes, each up to a map
that repeats or to the last pass allowed, and each followed by the unit rule over all groups. */
module Reference {
  import opened RawTypes
  import opened Substitution
  import opened Passes
  import opened Worklist
  import opened Placement
  import opened RoundFacts

  /** One round over `base`: with `n` passes to spend it spends `k`, which gives `m`, and places
  `placed`. */
  datatype WholeRound = WholeRound(base: Subs, n: nat, k: nat, m: Subs, placed: map<TypeId, TypeId>)
  {
    function Rest(): int {
      n - k
    }
  }

  /** The round stops when the whole passes have settled or there are none left, and the unit
  rule decides over all groups. */
  ghost predicate GoesBy(table: Table, evidence: Evidence, groups: seq<seq<TypeId>>, r: WholeRound) {
    && BaseDescends(table, r.base)
    && r.k <= r.n && r.m == NthMap(table, groups, r.base, r.k)
    && (r.k < r.n ==> Settled(table, groups, r.base, r.k))
    && PlacedInRound(table, evidence, groups, r.base, r.m, r.placed)
  }

  ghost predicate Leads(r: WholeRound, s: WholeRound) {
    r.placed != map[] && s.base == r.base + r.placed && s.n == r.Rest()
  }

  ghost predicate AreRounds(table: Table, evidence: Evidence, groups: seq<seq<TypeId>>, rounds: seq<WholeRound>) {
    && rounds != []
    && (forall i | 0 <= i < |rounds| :: GoesBy(table, evidence, groups, rounds[i]))
    && (forall i | 0 < i < |rounds| :: Leads(rounds[i - 1], rounds[i]))
    && rounds[|rounds| - 1].placed == map[]
  }

  ghost predicate RunsBy(table: Table, evidence: Evidence, groups: seq<seq<TypeId>>, base: Subs, n: nat, final: Subs,
                         left: nat,
                         rounds: seq<WholeRound>) {
    && AreRounds(table, evidence, groups, rounds)
    && rounds[0].base == base && rounds[0].n == n
    && rounds[|rounds| - 1].m == final && rounds[|rounds| - 1].Rest() == left
  }

  /** With `n` passes to spend over all rounds the reference ends at `final` with `left` to
  spare. A round that runs out keeps its last pass. */
  ghost predicate WholeRuns(table: Table, evidence: Evidence, groups: seq<seq<TypeId>>, base: Subs, n: nat, final: Subs,
                            left: nat) {
    exists rounds :: RunsBy(table, evidence, groups, base, n, final, left, rounds)
  }

  /** With passes enough, the reference ends at `final`. */
  ghost predicate WholeSettles(table: Table, evidence: Evidence, groups: seq<seq<TypeId>>, base: Subs, final: Subs) {
    exists n: nat, left: nat :: left > 0 && WholeRuns(table, evidence, groups, base, n, final, left)
  }

  lemma {:induction false} RestFalls(rounds: seq<WholeRound>, i: nat)
    requires i < |rounds| && rounds[|rounds| - 1].Rest() > 0
    requires forall j | 0 < j < |rounds| :: Leads(rounds[j - 1], rounds[j])
    ensures rounds[i].Rest() > 0
    decreases |rounds| - i
  {
    if i < |rounds| - 1 {
      RestFalls(rounds, i + 1);
      assert Leads(rounds[i + 1 - 1], rounds[i + 1]);
    }
  }

  /** With passes left at the end, every round has settled. */
  lemma SpareInEvery(table: Table, evidence: Evidence, groups: seq<seq<TypeId>>, rounds: seq<WholeRound>, i: nat)
    requires AreRounds(table, evidence, groups, rounds) && rounds[|rounds| - 1].Rest() > 0 && i < |rounds|
    ensures Settled(table, groups, rounds[i].base, rounds[i].k)
  {
    RestFalls(rounds, i);
    assert GoesBy(table, evidence, groups, rounds[i]);
  }

  lemma SameRound(table: Table, evidence: Evidence, groups: seq<seq<TypeId>>, a: WholeRound, b: WholeRound)
    requires GoesBy(table, evidence, groups, a) && GoesBy(table, evidence, groups, b) && a.base == b.base
    requires Settled(table, groups, a.base, a.k) && Settled(table, groups, b.base, b.k)
    ensures a.m == b.m && a.placed == b.placed
  {
    SettledOnce(table, groups, a.base, a.k, b.k);
    var v := View(table, evidence, a.m);
    PlacementOnce(v, SplitSets(v, PlainPass(table, a.base), groups), a.placed, b.placed);
  }

  lemma {:induction false} SameRounds(table: Table, evidence: Evidence, groups: seq<seq<TypeId>>, a: seq<WholeRound>,
                                      b: seq<WholeRound>, i: nat)
    requires AreRounds(table, evidence, groups, a) && AreRounds(table, evidence, groups, b)
    requires a[0].base == b[0].base && a[|a| - 1].Rest() > 0 && b[|b| - 1].Rest() > 0
    requires i < |a| && i < |b|
    ensures a[i].base == b[i].base && a[i].m == b[i].m && a[i].placed == b[i].placed
    decreases i
  {
    if i > 0 {
      SameRounds(table, evidence, groups, a, b, i - 1);
      assert Leads(a[i - 1], a[i]) && Leads(b[i - 1], b[i]);
    }
    SpareInEvery(table, evidence, groups, a, i);
    SpareInEvery(table, evidence, groups, b, i);
    SameRound(table, evidence, groups, a[i], b[i]);
  }

  lemma SameEnd(table: Table, evidence: Evidence, groups: seq<seq<TypeId>>, a: seq<WholeRound>, b: seq<WholeRound>)
    requires AreRounds(table, evidence, groups, a) && AreRounds(table, evidence, groups, b)
    requires a[0].base == b[0].base && a[|a| - 1].Rest() > 0 && b[|b| - 1].Rest() > 0
    ensures |a| == |b| && a[|a| - 1].m == b[|b| - 1].m
  {
    var last := if |a| <= |b| then |a| - 1 else |b| - 1;
    SameRounds(table, evidence, groups, a, b, last);
    assert last + 1 < |a| ==> Leads(a[last + 1 - 1], a[last + 1]);
    assert last + 1 < |b| ==> Leads(b[last + 1 - 1], b[last + 1]);
  }

  /** The reference has at most one answer. */
  lemma WholeSettlesOnce(table: Table, evidence: Evidence, groups: seq<seq<TypeId>>, base: Subs, a: Subs, b: Subs)
    requires WholeSettles(table, evidence, groups, base, a) && WholeSettles(table, evidence, groups, base, b)
    ensures a == b
  {
    var m: nat, i: nat :| i > 0 && WholeRuns(table, evidence, groups, base, m, a, i);
    var n: nat, j: nat :| j > 0 && WholeRuns(table, evidence, groups, base, n, b, j);
    var x :| RunsBy(table, evidence, groups, base, m, a, i, x);
    var y :| RunsBy(table, evidence, groups, base, n, b, j, y);
    SameEnd(table, evidence, groups, x, y);
  }
}
