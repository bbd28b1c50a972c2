/** Anonymous pointers and arrays, deduplicated by structure over the map of the named types. */
module Structural {
  import opened RawTypes
  import opened Collections
  import opened Substitution
  import opened Layout
  import opened Signature
  import opened Passes

  /** What an anonymous pointer or array is bucketed by. */
  datatype StructKey = PointerTo(target: TypeId) | ArrayOf(elem: TypeId, count: nat)

  function TargetOf(table: Table, x: TypeId): TypeId
    requires table.IsAnonymous(x)
  {
    if table.types[x].Pointer? then table.types[x].target else table.types[x].elem
  }

  /** Same kind, and for arrays the same count. */
  predicate SameLink(table: Table, x: TypeId, y: TypeId)
    requires table.IsAnonymous(x) && table.IsAnonymous(y)
  {
    if table.types[x].Pointer? then table.types[y].Pointer?
    else table.types[y].Array? && table.types[x].count == table.types[y].count
  }

  function KeyIn(table: Table, s: Subs, x: TypeId): StructKey
    requires table.IsAnonymous(x)
  {
    match table.types[x]
    case Pointer(_, target) => PointerTo(Canon(s, target))
    case Array(elem, count) => ArrayOf(Canon(s, elem), count)
  }

  lemma KeyMeans(table: Table, s: Subs, x: TypeId, y: TypeId)
    requires table.IsAnonymous(x) && table.IsAnonymous(y)
    ensures KeyIn(table, s, x) == KeyIn(table, s, y)
            <==> SameLink(table, x, y) && Canon(s, TargetOf(table, x)) == Canon(s, TargetOf(table, y))
  {
  }

  /** The anonymous types filed with `x`. */
  function Bucket(table: Table, s: Subs, x: TypeId): (r: set<TypeId>)
    requires table.IsAnonymous(x)
    ensures x in r
  {
    set y | y in table.types && table.IsAnonymous(y) && KeyIn(table, s, y) == KeyIn(table, s, x)
  }

  predicate IsLeast(ids: set<TypeId>, x: TypeId) {
    x in ids && forall y | y in ids :: x <= y
  }

  lemma {:induction false} LeastExists(ids: set<TypeId>)
    requires ids != {}
    ensures exists x :: IsLeast(ids, x)
    decreases ids
  {
    var z :| z in ids;
    if ids == {z} {
      assert IsLeast(ids, z);
    } else {
      LeastExists(ids - {z});
      var x :| IsLeast(ids - {z}, x);
      var low := if x < z then x else z;
      forall y | y in ids
        ensures low <= y
      {
        assert y == z || y in ids - {z};
      }
      assert IsLeast(ids, low);
    }
  }

  function Least(ids: set<TypeId>): (r: TypeId)
    requires ids != {}
    ensures IsLeast(ids, r)
  {
    LeastExists(ids);
    var x :| IsLeast(ids, x);
    x
  }

  function Low(table: Table, s: Subs, x: TypeId): (r: TypeId)
    requires table.IsAnonymous(x)
    ensures r in Bucket(table, s, x) && table.IsAnonymous(r) && r <= x
  {
    Least(Bucket(table, s, x))
  }

  lemma LowIsKey(table: Table, s: Subs, x: TypeId, y: TypeId)
    requires table.IsAnonymous(x) && table.IsAnonymous(y)
    ensures Low(table, s, x) == Low(table, s, y) <==> KeyIn(table, s, x) == KeyIn(table, s, y)
    ensures Low(table, s, Low(table, s, x)) == Low(table, s, x)
  {
    assert KeyIn(table, s, Low(table, s, x)) == KeyIn(table, s, x);
    assert KeyIn(table, s, Low(table, s, y)) == KeyIn(table, s, y);
    assert Bucket(table, s, Low(table, s, x)) == Bucket(table, s, x);
    if KeyIn(table, s, x) == KeyIn(table, s, y) {
      assert Bucket(table, s, x) == Bucket(table, s, y);
    }
  }

  /** Every anonymous type but the lowest of its bucket, sent to the lowest. */
  function Lows(table: Table, s: Subs): map<TypeId, TypeId> {
    map x | x in table.types && table.IsAnonymous(x) && x != Low(table, s, x) :: Low(table, s, x)
  }

  // ----- when the loop closes no cycle

  /** The map over a base adds aliases of named types only, and to named types. */
  ghost predicate NamesStay(table: Table, base: map<TypeId, TypeId>, named: map<TypeId, TypeId>) {
    && (forall x | x in base :: x in named && named[x] == base[x])
    && (forall x | x in named && table.IsNamed(x) :: table.IsNamed(named[x]))
    && (forall x | x in named && !table.IsNamed(x) :: x in base)
  }

  /** Each declared pointer or array without a name that a link folds away is filed with a lower
  id, which the first round sends it to. */
  ghost predicate LinkedAbove(table: Table, base: map<TypeId, TypeId>, named: Subs) {
    forall d | table.IsAnonymous(d) && d in table.declarations && d in base :: d != Low(table, named, d)
  }

  /** A map whose links are the named one's but for some from an anonymous type down to another. */
  ghost predicate GoesDown(table: Table, named: map<TypeId, TypeId>, m: map<TypeId, TypeId>) {
    forall x | x in m ::
      (x in named && m[x] == named[x]) || (table.IsAnonymous(x) && table.IsAnonymous(m[x]) && m[x] < x)
  }

  /** One that has all of the named one's keys. */
  ghost predicate SendsDown(table: Table, named: map<TypeId, TypeId>, m: map<TypeId, TypeId>) {
    named.Keys <= m.Keys && GoesDown(table, named, m)
  }

  /** Among which are all those of declared ones. */
  ghost predicate DeclaredDown(table: Table, m: map<TypeId, TypeId>) {
    forall x | x in m && table.IsAnonymous(x) && x in table.declarations :: table.IsAnonymous(m[x]) && m[x] < x
  }

  /** Anonymous types and folded definitions go by id, above the definitions nothing folds,
  which go by detail, and below the declarations. */
  ghost function StructuralRank(table: Table, base: map<TypeId, TypeId>, x: TypeId): Rank {
    if table.IsAnonymous(x) || (x in base && x !in table.declarations) then Rank(1, 0, 0, x)
    else if x in table.declarations then Rank(2, 0, 0, x)
    else RankIn(table, base, x)
  }

  lemma StructuralBelow(table: Table, base: map<TypeId, TypeId>, named: map<TypeId, TypeId>, m: map<TypeId, TypeId>,
                        x: TypeId)
    requires BaseDescends(table, base) && Descends(table, base, named) && NamesStay(table, base, named)
    requires GoesDown(table, named, m) && DeclaredDown(table, m) && x in m
    ensures Below(StructuralRank(table, base, m[x]), StructuralRank(table, base, x))
  {
    DetailIsBounded(table, x);
    DetailIsBounded(table, m[x]);
    if x in base && m[x] == named[x] {
      assert LowerInBase(table, base[x], x);
    }
  }

  /** Then no chain of links closes. */
  lemma SendsDownAcyclic(table: Table, base: map<TypeId, TypeId>, named: map<TypeId, TypeId>, m: map<TypeId, TypeId>)
    requires BaseDescends(table, base) && Descends(table, base, named) && NamesStay(table, base, named)
    requires GoesDown(table, named, m) && DeclaredDown(table, m)
    ensures Acyclic(m)
  {
    var rank := (x: TypeId) => StructuralRank(table, base, x);
    forall x | x in m
      ensures Below(rank(m[x]), rank(x))
    {
      StructuralBelow(table, base, named, m, x);
    }
    assert RankedBy(m, rank);
  }

  /** A round sends down whatever it sends anywhere, and the first sends down every declared
  type that is linked, if only each is filed with a lower one. */
  lemma RoundSendsDown(table: Table, base: map<TypeId, TypeId>, named: Subs, m: Subs)
    requires SendsDown(table, named, m) && NamesStay(table, base, named) && LinkedAbove(table, base, named)
    requires m == named || DeclaredDown(table, m)
    ensures SendsDown(table, named, m + Lows(table, m)) && DeclaredDown(table, m + Lows(table, m))
  {
    var next := m + Lows(table, m);
    forall x | x in next && table.IsAnonymous(x) && x in table.declarations
      ensures table.IsAnonymous(next[x]) && next[x] < x
    {
      assert x in Lows(table, m) || x in m;
    }
  }

  /** Links between anonymous types join only what is filed together. */
  ghost predicate StructureClosed(table: Table, base: map<TypeId, TypeId>, named: Subs) {
    forall x | table.IsAnonymous(x) && x in base ::
      table.IsAnonymous(base[x]) && KeyIn(table, named, base[x]) == KeyIn(table, named, x)
  }

  lemma TwoCycle(m: map<TypeId, TypeId>, x: TypeId, y: TypeId)
    requires x in m && y in m && m[x] == y && m[y] == x
    ensures !Acyclic(m)
  {
    forall rank: TypeId -> Rank
      ensures !RankedBy(m, rank)
    {
      assert !(Below(rank(m[x]), rank(x)) && Below(rank(m[y]), rank(y)));
    }
  }

  /** A linked declared type that is the lowest of the bucket it is linked into: the other is
  sent to it, and it stays linked to the other. */
  lemma LowestLinkedLoops(table: Table, m: Subs, d: TypeId)
    requires table.IsAnonymous(d) && d in m && table.IsAnonymous(m[d])
    requires KeyIn(table, m, m[d]) == KeyIn(table, m, d) && d == Low(table, m, d)
    ensures !Acyclic(m + Lows(table, m))
  {
    NoSelfLink(m, d);
    LowIsKey(table, m, d, m[d]);
    TwoCycle(m + Lows(table, m), d, m[d]);
  }

  /** The linked declared types that are the lowest of their buckets: the first round leaves
  each where its link sends it. */
  ghost function StayLinked(table: Table, base: map<TypeId, TypeId>, named: Subs): set<TypeId> {
    set d | d in base && table.IsAnonymous(d) && d in table.declarations && d == Low(table, named, d)
  }

  lemma NoneStays(table: Table, base: map<TypeId, TypeId>, named: Subs)
    ensures LinkedAbove(table, base, named) <==> StayLinked(table, base, named) == {}
  {
    if StayLinked(table, base, named) == {} {
      forall d | table.IsAnonymous(d) && d in table.declarations && d in base
        ensures d != Low(table, named, d)
      {
        assert d !in StayLinked(table, base, named);
      }
    }
  }

  /** All other links of the first round together close no cycle. */
  lemma OthersAcyclic(table: Table, base: map<TypeId, TypeId>, named: Subs)
    requires BaseDescends(table, base) && Descends(table, base, named) && NamesStay(table, base, named)
    ensures Acyclic(named + Lows(table, named) - StayLinked(table, base, named))
    ensures StayLinked(table, base, named) <= (named + Lows(table, named)).Keys
  {
    SendsDownAcyclic(table, base, named, named + Lows(table, named) - StayLinked(table, base, named));
  }

  /** Where each of them comes to by the other links, if that is another of them. */
  ghost function LinkedJumps(table: Table, base: map<TypeId, TypeId>, named: Subs): map<TypeId, TypeId>
    requires BaseDescends(table, base) && Descends(table, base, named) && NamesStay(table, base, named)
  {
    OthersAcyclic(table, base, named);
    var m, cut := named + Lows(table, named), StayLinked(table, base, named);
    Jumps(m, cut, m - cut)
  }

  /** Whatever the links join, the first round closes no cycle if and only if those that stay
  linked do not lead round to one another. */
  lemma FirstRoundExactly(table: Table, base: map<TypeId, TypeId>, named: Subs)
    requires BaseDescends(table, base) && Descends(table, base, named) && NamesStay(table, base, named)
    ensures Acyclic(named + Lows(table, named)) <==> Acyclic(LinkedJumps(table, base, named))
  {
    OthersAcyclic(table, base, named);
    var m, cut := named + Lows(table, named), StayLinked(table, base, named);
    CutAcyclic(m, cut, m - cut);
  }

  /** Over links that join only what is filed together, the first round closes no cycle if and
  only if no linked declared type is the lowest of its bucket. */
  lemma FirstRoundAcyclic(table: Table, base: map<TypeId, TypeId>, named: Subs)
    requires BaseDescends(table, base) && Descends(table, base, named) && NamesStay(table, base, named)
    requires StructureClosed(table, base, named)
    ensures Acyclic(named + Lows(table, named)) <==> LinkedAbove(table, base, named)
  {
    if LinkedAbove(table, base, named) {
      NoneStays(table, base, named);
      FirstRoundExactly(table, base, named);
      assert LinkedJumps(table, base, named) == map[];
      EmptyIsAcyclic();
    } else {
      var d :| table.IsAnonymous(d) && d in table.declarations && d in base && d == Low(table, named, d);
      LowestLinkedLoops(table, named, d);
    }
  }

  // ----- the rounds of the loop

  /** Anonymous pointers and arrays carry no specification link, and no name to be aliased by. */
  ghost predicate PlainStructures(table: Table, named: map<TypeId, TypeId>) {
    forall x | table.IsAnonymous(x) :: x !in named
  }

  /** A map that adds to the named one only links from an anonymous type to a lower id. */
  ghost predicate AddsDown(table: Table, named: map<TypeId, TypeId>, m: map<TypeId, TypeId>) {
    && (forall x | x in named :: x in m && m[x] == named[x])
    && (forall x | x in m && x !in named :: table.IsAnonymous(x) && table.IsAnonymous(m[x]) && m[x] < x)
  }

  /** What holds at the head of every round: links added so far are between types filed
  together, and lead straight to a canonical. */
  ghost predicate Folded(table: Table, named: map<TypeId, TypeId>, m: Subs) {
    && AddsDown(table, named, m)
    && forall x | x in m && x !in named :: m[x] !in m && KeyIn(table, m, x) == KeyIn(table, m, m[x])
  }

  lemma LowsAddDown(table: Table, named: Subs, m: Subs)
    requires PlainStructures(table, named) && AddsDown(table, named, m)
    ensures AddsDown(table, named, m + Lows(table, m))
  {
  }

  /** A round adds a link for every type but the lowest of each bucket. */
  lemma FoldedKeys(table: Table, named: Subs, m: Subs)
    requires Folded(table, named, m)
    ensures forall x | x in m && x !in named :: x in Lows(table, m)
  {
    forall x | x in m && x !in named
      ensures x in Lows(table, m)
    {
      assert m[x] in Bucket(table, m, x);
    }
  }

  /** Where the map leads after a round. */
  lemma CanonAfterRound(table: Table, named: Subs, m: Subs, next: Subs, u: TypeId)
    requires PlainStructures(table, named) && Folded(table, named, m) && next == m + Lows(table, m)
    ensures var n := Canon(named, u);
            Canon(next, u) == if table.IsAnonymous(n) then Low(table, m, n) else n
  {
    LowsAddDown(table, named, m);
    FoldedKeys(table, named, m);
    CanonThrough(named, next, u);
    var n := Canon(named, u);
    if table.IsAnonymous(n) {
      LowIsKey(table, m, n, n);
      assert Low(table, m, n) !in next;
    }
  }

  lemma {:induction false} ChainSurvives(table: Table, named: Subs, m: Subs, next: Subs, u: TypeId)
    requires PlainStructures(table, named) && Folded(table, named, m) && next == m + Lows(table, m)
    ensures Canon(next, Canon(m, u)) == Canon(next, u)
    decreases RankOf(m)(u).a, RankOf(m)(u).b, RankOf(m)(u).c, RankOf(m)(u).d
  {
    if u in m {
      ChainSurvives(table, named, m, next, m[u]);
      if u !in named {
        LowIsKey(table, m, u, m[u]);
        CanonAfterRound(table, named, m, next, u);
        CanonAfterRound(table, named, m, next, m[u]);
      }
    }
  }

  /** What one round put together, the next keeps together. */
  lemma RoundCoarsens(table: Table, named: Subs, m: Subs, next: Subs, u: TypeId, v: TypeId)
    requires PlainStructures(table, named) && Folded(table, named, m) && next == m + Lows(table, m)
    requires Canon(m, u) == Canon(m, v)
    ensures Canon(next, u) == Canon(next, v)
  {
    ChainSurvives(table, named, m, next, u);
    ChainSurvives(table, named, m, next, v);
  }

  lemma RoundFolds(table: Table, named: Subs, m: Subs, next: Subs)
    requires PlainStructures(table, named) && Folded(table, named, m) && next == m + Lows(table, m)
    ensures Folded(table, named, next)
  {
    LowsAddDown(table, named, m);
    FoldedKeys(table, named, m);
    forall x | x in next && x !in named
      ensures next[x] !in next && KeyIn(table, next, x) == KeyIn(table, next, next[x])
    {
      LowIsKey(table, m, x, x);
      var low := Low(table, m, x);
      KeyMeans(table, m, x, low);
      RoundCoarsens(table, named, m, next, TargetOf(table, x), TargetOf(table, low));
      KeyMeans(table, next, x, low);
    }
  }

  /** A round that aliases nothing new changes nothing at all: the length is test enough. */
  lemma SameLengthSameMap(table: Table, named: Subs, m: Subs)
    requires PlainStructures(table, named) && Folded(table, named, m)
    requires |m + Lows(table, m)| == |m|
    ensures m + Lows(table, m) == m
  {
    NoNewKeys(m, Lows(table, m));
    LowsStay(table, named, m);
    SameOverridden(m, Lows(table, m));
  }

  lemma SameOverridden(m: map<TypeId, TypeId>, n: map<TypeId, TypeId>)
    requires n.Keys <= m.Keys && forall x | x in n :: m[x] == n[x]
    ensures m + n == m
  {
  }

  lemma LowsStay(table: Table, named: Subs, m: Subs)
    requires PlainStructures(table, named) && Folded(table, named, m) && Lows(table, m).Keys <= m.Keys
    ensures forall x | x in Lows(table, m) :: m[x] == Lows(table, m)[x]
  {
    forall x | x in Lows(table, m)
      ensures m[x] == Lows(table, m)[x]
    {
      LowStays(table, named, m, x);
    }
  }

  lemma LowStays(table: Table, named: Subs, m: Subs, x: TypeId)
    requires PlainStructures(table, named) && Folded(table, named, m)
    requires Lows(table, m).Keys <= m.Keys && x in Lows(table, m)
    ensures Low(table, m, x) == m[x]
  {
    LowIsKey(table, m, x, m[x]);
    assert m[x] !in Lows(table, m);
  }

  lemma NoNewKeys(m: map<TypeId, TypeId>, n: map<TypeId, TypeId>)
    requires |m + n| == |m|
    ensures n.Keys <= m.Keys
  {
    var a, b := m.Keys, (m + n).Keys;
    assert b == a + n.Keys && b == a + (b - a);
    assert |b| == |m + n| && |a| == |m|;
    assert |b| == |a| + |b - a|;
    assert b - a == {};
  }

  // ----- what the loop leaves

  /** Two anonymous types share a canonical exactly when they are the same kind of link to
  things that do; it is the lowest of those that share it. */
  ghost predicate IsCongruence(table: Table, m: Subs) {
    && (forall a, b | table.IsAnonymous(a) && table.IsAnonymous(b) ::
          Canon(m, a) == Canon(m, b)
          <==> SameLink(table, a, b) && Canon(m, TargetOf(table, a)) == Canon(m, TargetOf(table, b)))
    && (forall a | table.IsAnonymous(a) :: table.IsAnonymous(Canon(m, a)) && Canon(m, Canon(m, a)) == Canon(m, a))
    && (forall a, b | table.IsAnonymous(a) && table.IsAnonymous(b) && Canon(m, a) == Canon(m, b) :: Canon(m, a) <= b)
  }

  lemma ClosedIsCongruence(table: Table, named: Subs, m: Subs)
    requires PlainStructures(table, named) && Folded(table, named, m) && m + Lows(table, m) == m
    ensures IsCongruence(table, m)
  {
    forall a | table.IsAnonymous(a)
      ensures Canon(m, a) == Low(table, m, a)
    {
      CanonAfterRound(table, named, m, m, a);
    }
    forall a, b | table.IsAnonymous(a) && table.IsAnonymous(b)
      ensures Canon(m, a) == Canon(m, b)
              <==> SameLink(table, a, b) && Canon(m, TargetOf(table, a)) == Canon(m, TargetOf(table, b))
      ensures Canon(m, a) == Canon(m, b) ==> Canon(m, a) <= b
    {
      LowIsKey(table, m, a, b);
      KeyMeans(table, m, a, b);
    }
  }

  /** A labelling of the types by any relation that holds of what the named map identifies and
  of structures over related things. */
  ghost predicate Relates(table: Table, named: Subs, f: TypeId -> nat) {
    && (forall x | x in named :: f(x) == f(named[x]))
    && (forall a, b | table.IsAnonymous(a) && table.IsAnonymous(b) && SameLink(table, a, b)
                      && f(TargetOf(table, a)) == f(TargetOf(table, b)) :: f(a) == f(b))
  }

  ghost predicate KeepsLabels(f: TypeId -> nat, m: map<TypeId, TypeId>) {
    forall x | x in m :: f(m[x]) == f(x)
  }

  lemma {:induction false} CanonKeepsLabel(f: TypeId -> nat, m: Subs, x: TypeId)
    requires KeepsLabels(f, m)
    ensures f(Canon(m, x)) == f(x)
    decreases RankOf(m)(x).a, RankOf(m)(x).b, RankOf(m)(x).c, RankOf(m)(x).d
  {
    if x in m {
      CanonKeepsLabel(f, m, m[x]);
    }
  }

  lemma RoundKeepsLabels(table: Table, named: Subs, m: Subs, f: TypeId -> nat)
    requires Relates(table, named, f) && KeepsLabels(f, m)
    ensures KeepsLabels(f, m + Lows(table, m))
  {
    forall x | x in Lows(table, m)
      ensures f(Low(table, m, x)) == f(x)
    {
      var low := Low(table, m, x);
      KeyMeans(table, m, low, x);
      CanonKeepsLabel(f, m, TargetOf(table, x));
      CanonKeepsLabel(f, m, TargetOf(table, low));
    }
  }

  /** Nothing is identified but what every such relation identifies. */
  ghost predicate Needed(table: Table, named: Subs, m: map<TypeId, TypeId>) {
    forall f: TypeId -> nat | Relates(table, named, f) :: KeepsLabels(f, m)
  }

  lemma RoundNeeded(table: Table, named: Subs, m: Subs)
    requires Needed(table, named, m)
    ensures Needed(table, named, m + Lows(table, m))
  {
    forall f: TypeId -> nat | Relates(table, named, f)
      ensures KeepsLabels(f, m + Lows(table, m))
    {
      RoundKeepsLabels(table, named, m, f);
    }
  }

  // ----- and the partition's identity of references

  lemma {:induction false} NamedEndsNamed(table: Table, base: Subs, named: Subs, x: TypeId)
    requires NamesStay(table, base, named) && table.IsNamed(x)
    ensures table.IsNamed(Canon(named, x))
    decreases RankOf(named)(x).a, RankOf(named)(x).b, RankOf(named)(x).c, RankOf(named)(x).d
  {
    if x in named {
      NamedEndsNamed(table, base, named, named[x]);
    }
  }

  /** Ids the map sends to one canonical are one reference to the partition, wherever it has
  got to in its own comparisons. */
  ghost predicate Faithful(p: Partition, m: Subs) {
    forall l, r, visiting | Canon(m, l) == Canon(m, r) :: p.SameIdentity(l, r, visiting)
  }

  lemma RootCanon(table: Table, base: Subs, named: Subs, x: TypeId)
    requires NamesStay(table, base, named)
    ensures var root := Canon(base, x);
            Canon(named, x) == Canon(named, root) && (!table.IsNamed(root) ==> Canon(named, root) == root)
  {
    CanonThrough(base, named, x);
  }

  lemma NamedFaithful(p: Partition, named: Subs)
    requires p.prev == Some(named) && NamesStay(p.table, p.base, named)
    ensures Faithful(p, named)
  {
    forall l, r, visiting | Canon(named, l) == Canon(named, r)
      ensures p.SameIdentity(l, r, visiting)
    {
      SameCanonSame(p, named, l, r, visiting);
    }
  }

  lemma SameCanonSame(p: Partition, named: Subs, l: TypeId, r: TypeId, visiting: set<Pair>)
    requires p.prev == Some(named) && NamesStay(p.table, p.base, named)
    requires Canon(named, l) == Canon(named, r)
    ensures p.SameIdentity(l, r, visiting)
  {
    RootCanon(p.table, p.base, named, l);
    RootCanon(p.table, p.base, named, r);
    var a, b := p.Canonical(l), p.Canonical(r);
    if p.table.IsNamed(a) {
      NamedEndsNamed(p.table, p.base, named, a);
    }
    if p.table.IsNamed(b) {
      NamedEndsNamed(p.table, p.base, named, b);
    }
  }

  /** Structures a round files together lead to references that were already one. */
  lemma SameKeySame(p: Partition, m: Subs, l: TypeId, r: TypeId, visiting: set<Pair>)
    requires Faithful(p, m) && p.table.IsAnonymous(p.Canonical(l)) && p.table.IsAnonymous(p.Canonical(r))
    requires KeyIn(p.table, m, p.Canonical(l)) == KeyIn(p.table, m, p.Canonical(r))
    ensures p.SameIdentity(l, r, visiting)
  {
    var a, b := p.Canonical(l), p.Canonical(r);
    KeyMeans(p.table, m, a, b);
    var deeper := visiting + {OrderedPair(a, b)};
    assert p.SameIdentity(TargetOf(p.table, a), TargetOf(p.table, b), deeper);
  }

  lemma RoundFaithful(p: Partition, named: Subs, m: Subs, next: Subs)
    requires p.prev == Some(named) && NamesStay(p.table, p.base, named) && PlainStructures(p.table, named)
    requires Folded(p.table, named, m) && next == m + Lows(p.table, m) && Faithful(p, m)
    ensures Faithful(p, next)
  {
    forall l, r, visiting | Canon(next, l) == Canon(next, r)
      ensures p.SameIdentity(l, r, visiting)
    {
      RoundFaithfulTo(p, named, m, next, l, r, visiting);
    }
  }

  lemma RoundFaithfulTo(p: Partition, named: Subs, m: Subs, next: Subs, l: TypeId, r: TypeId, visiting: set<Pair>)
    requires p.prev == Some(named) && NamesStay(p.table, p.base, named) && PlainStructures(p.table, named)
    requires Folded(p.table, named, m) && next == m + Lows(p.table, m) && Faithful(p, m)
    requires Canon(next, l) == Canon(next, r)
    ensures p.SameIdentity(l, r, visiting)
  {
    CanonAfterRound(p.table, named, m, next, l);
    CanonAfterRound(p.table, named, m, next, r);
    var x, y := Canon(named, l), Canon(named, r);
    if p.table.IsAnonymous(x) && p.table.IsAnonymous(y) {
      LowIsKey(p.table, m, x, y);
      AnonymousIsRoot(p, named, l);
      AnonymousIsRoot(p, named, r);
      SameKeySame(p, m, l, r, visiting);
    } else {
      SameCanonSame(p, named, l, r, visiting);
    }
  }

  lemma AnonymousIsRoot(p: Partition, named: Subs, l: TypeId)
    requires NamesStay(p.table, p.base, named) && p.table.IsAnonymous(Canon(named, l))
    ensures p.Canonical(l) == Canon(named, l)
  {
    RootCanon(p.table, p.base, named, l);
    if p.table.IsNamed(p.Canonical(l)) {
      NamedEndsNamed(p.table, p.base, named, p.Canonical(l));
    }
  }

  // ----- the other way: what the partition identifies is merged, function signatures apart

  lemma {:induction false} SameSigMerged(p: Partition, named: Subs, m: Subs, l: TypeId, r: TypeId)
    requires GraphOf(p).ShortChains() && p.prev == Some(named) && NamesStay(p.table, p.base, named)
    requires AddsDown(p.table, named, m) && IsCongruence(p.table, m)
    requires GraphOf(p).SigBy(LabelOf(p), l) == GraphOf(p).SigBy(LabelOf(p), r)
    requires !GraphOf(p).SigBy(LabelOf(p), l).end.FunctionSignature?
    ensures Canon(m, l) == Canon(m, r)
    decreases GraphOf(p).Len(l)
  {
    var g := GraphOf(p);
    var x, y := g.Root(l), g.Root(r);
    CanonThrough(p.base, m, l);
    CanonThrough(p.base, m, r);
    if g.Anonymous(l) {
      assert |g.Links(r)| == |g.Links(l)| > 0;
      assert g.Links(l)[1..] == g.Links(g.Target(l)) && g.Links(r)[1..] == g.Links(g.Target(r));
      assert g.Links(l)[0] == g.LinkAt(l) && g.Links(r)[0] == g.LinkAt(r);
      g.LenStep(l);
      SameSigMerged(p, named, m, g.Target(l), g.Target(r));
      assert SameLink(p.table, x, y);
    } else {
      assert |g.Links(r)| == |g.Links(l)| == 0;
      if p.table.IsNamed(x) {
        NamedAgree(p, x, y);
        CanonThrough(named, m, x);
        CanonThrough(named, m, y);
      }
    }
  }

  /** At the end two references share a canonical exactly when the partition calls them one,
  but for references to function signatures, which it does not tell apart and the map does
  not merge. */
  lemma MergedIsIdentity(p: Partition, named: Subs, m: Subs, l: TypeId, r: TypeId)
    requires GraphOf(p).ShortChains() && GraphOf(p).Homogeneous(l, r)
    requires p.prev == Some(named) && NamesStay(p.table, p.base, named)
    requires AddsDown(p.table, named, m) && IsCongruence(p.table, m) && Faithful(p, m)
    requires !GraphOf(p).SigBy(LabelOf(p), l).end.FunctionSignature?
    ensures Canon(m, l) == Canon(m, r) <==> p.SameReference(l, r)
  {
    if p.SameReference(l, r) {
      ReferenceIsSignature(p, l, r);
      SameSigMerged(p, named, m, l, r);
    }
  }

  // ----- the loop itself

  /** The anonymous types among `seen`, filed by what they lead to. */
  ghost predicate Filed<K(!new)>(table: Table, subs: Subs, seen: set<TypeId>, buckets: map<K, seq<TypeId>>,
                                 key: StructKey -> Option<K>) {
    && (forall k, x | k in buckets && x in buckets[k] ::
          x in seen && table.IsAnonymous(x) && key(KeyIn(table, subs, x)) == Some(k))
    && (forall x | x in seen && table.IsAnonymous(x) && key(KeyIn(table, subs, x)).Some? ::
          var k := key(KeyIn(table, subs, x)).value; k in buckets && x in buckets[k])
    && (forall k | k in buckets :: buckets[k] != [])
  }

  function PointerKey(key: StructKey): Option<TypeId> {
    if key.PointerTo? then Some(key.target) else None
  }

  function ArrayKey(key: StructKey): Option<(TypeId, nat)> {
    if key.ArrayOf? then Some((key.elem, key.count)) else None
  }

  function Pushed<K>(buckets: map<K, seq<TypeId>>, k: K, x: TypeId): map<K, seq<TypeId>> {
    buckets[k := (if k in buckets then buckets[k] else []) + [x]]
  }

  lemma FiledOneMore<K(!new)>(table: Table, subs: Subs, seen: set<TypeId>, buckets: map<K, seq<TypeId>>,
                        key: StructKey -> Option<K>, x: TypeId)
    requires Filed(table, subs, seen, buckets, key)
    ensures table.IsAnonymous(x) && key(KeyIn(table, subs, x)).Some?
            ==> Filed(table, subs, seen + {x}, Pushed(buckets, key(KeyIn(table, subs, x)).value, x), key)
    ensures !(table.IsAnonymous(x) && key(KeyIn(table, subs, x)).Some?) ==> Filed(table, subs, seen + {x}, buckets, key)
  {
    if table.IsAnonymous(x) && key(KeyIn(table, subs, x)).Some? {
      var k := key(KeyIn(table, subs, x)).value;
      var r := Pushed(buckets, k, x);
      forall j, y | j in r && y in r[j]
        ensures y in seen + {x} && table.IsAnonymous(y) && key(KeyIn(table, subs, y)) == Some(j)
      {
        if y != x || j != k {
          assert j in buckets && y in buckets[j];
        }
      }
    }
  }

  method FileStructures(table: Table, subs: Subs)
    returns (pointers: map<TypeId, seq<TypeId>>, arrays: map<(TypeId, nat), seq<TypeId>>)
    ensures Filed(table, subs, table.types.Keys, pointers, PointerKey)
    ensures Filed(table, subs, table.types.Keys, arrays, ArrayKey)
  {
    pointers, arrays := map[], map[];
    var todo := table.types.Keys;
    ghost var seen: set<TypeId> := {};
    while todo != {}
      invariant seen + todo == table.types.Keys && seen !! todo
      invariant Filed(table, subs, seen, pointers, PointerKey)
      invariant Filed(table, subs, seen, arrays, ArrayKey)
      decreases todo
    {
      var x :| x in todo;
      FiledOneMore(table, subs, seen, pointers, PointerKey, x);
      FiledOneMore(table, subs, seen, arrays, ArrayKey, x);
      match table.types[x] {
        case Pointer(name, target) =>
          if name.None? {
            var k := CanonicalizeIn(subs, target);
            pointers := Pushed(pointers, k, x);
          }
        case Array(elem, count) =>
          var k := CanonicalizeIn(subs, elem);
          arrays := Pushed(arrays, (k, count), x);
        case _ =>
      }
      todo, seen := todo - {x}, seen + {x};
    }
  }

  function SentTo(ids: set<TypeId>, canonical: TypeId): map<TypeId, TypeId> {
    map x | x in ids && x != canonical :: canonical
  }

  method Lowest(ids: seq<TypeId>) returns (canonical: TypeId)
    requires ids != []
    ensures IsLeast(Elements(ids), canonical)
  {
    canonical := ids[0];
    for i := 1 to |ids|
      invariant canonical in ids && forall j | 0 <= j < i :: canonical <= ids[j]
    {
      if ids[i] < canonical {
        canonical := ids[i];
      }
    }
  }

  lemma SentOneMore(subs: map<TypeId, TypeId>, ids: seq<TypeId>, i: nat, canonical: TypeId)
    requires i < |ids|
    ensures subs + SentTo(Elements(ids[..i + 1]), canonical)
            == if ids[i] == canonical then subs + SentTo(Elements(ids[..i]), canonical)
               else (subs + SentTo(Elements(ids[..i]), canonical))[ids[i] := canonical]
  {
    assert ids[..i + 1] == ids[..i] + [ids[i]];
    assert Elements(ids[..i + 1]) == Elements(ids[..i]) + {ids[i]};
  }

  /** All of `ids` but the lowest, sent to the lowest. */
  method AliasToLowest(subs: map<TypeId, TypeId>, ids: seq<TypeId>) returns (r: map<TypeId, TypeId>)
    ensures ids == [] ==> r == subs
    ensures ids != [] ==> Elements(ids) != {} && r == subs + SentTo(Elements(ids), Least(Elements(ids)))
  {
    r := subs;
    if ids == [] {
      return;
    }
    var canonical := Lowest(ids);
    for i := 0 to |ids|
      invariant r == subs + SentTo(Elements(ids[..i]), canonical)
    {
      SentOneMore(subs, ids, i, canonical);
      if ids[i] != canonical {
        r := r[ids[i] := canonical];
      }
    }
    assert ids[..|ids|] == ids;
  }

  lemma BucketIs<K(!new)>(table: Table, subs: Subs, buckets: map<K, seq<TypeId>>, key: StructKey -> Option<K>, k: K,
                          x: TypeId)
    requires Filed(table, subs, table.types.Keys, buckets, key) && k in buckets && x in buckets[k]
    requires forall a, b | key(a).Some? && key(a) == key(b) :: a == b
    ensures table.IsAnonymous(x) && Elements(buckets[k]) == Bucket(table, subs, x)
  {
  }

  /** What has been aliased once the buckets in `done` have been gone through. */
  ghost predicate Aliased<K(!new)>(table: Table, m: Subs, key: StructKey -> Option<K>, done: set<K>,
                             before: map<TypeId, TypeId>, after: map<TypeId, TypeId>) {
    forall x :: AliasedAt(table, m, key, done, before, after, x)
  }

  ghost predicate AliasedAt<K(!new)>(table: Table, m: Subs, key: StructKey -> Option<K>, done: set<K>,
                               before: map<TypeId, TypeId>, after: map<TypeId, TypeId>, x: TypeId) {
    if x in Lows(table, m) && key(KeyIn(table, m, x)).Some? && key(KeyIn(table, m, x)).value in done then
      x in after && after[x] == Low(table, m, x)
    else
      (x in after <==> x in before) && (x in before ==> after[x] == before[x])
  }

  method AliasEach<K(!new)>(ghost table: Table, ghost m: Subs, subs: map<TypeId, TypeId>, buckets: map<K, seq<TypeId>>,
                            ghost key: StructKey -> Option<K>)
    returns (r: map<TypeId, TypeId>)
    requires Filed(table, m, table.types.Keys, buckets, key)
    requires forall a, b | key(a).Some? && key(a) == key(b) :: a == b
    ensures Aliased(table, m, key, buckets.Keys, subs, r)
  {
    r := subs;
    var todo := buckets.Keys;
    ghost var done: set<K> := {};
    while todo != {}
      invariant done + todo == buckets.Keys && done !! todo
      invariant Aliased(table, m, key, done, subs, r)
      decreases todo
    {
      var k :| k in todo;
      var next := AliasToLowest(r, buckets[k]);
      AliasedOneMore(table, m, buckets, key, done, subs, r, k, next);
      r, todo, done := next, todo - {k}, done + {k};
    }
  }

  lemma AliasedOneMore<K(!new)>(table: Table, m: Subs, buckets: map<K, seq<TypeId>>, key: StructKey -> Option<K>,
                                done: set<K>,
                          before: map<TypeId, TypeId>, r: map<TypeId, TypeId>, k: K, next: map<TypeId, TypeId>)
    requires Filed(table, m, table.types.Keys, buckets, key) && k in buckets && k !in done
    requires forall a, b | key(a).Some? && key(a) == key(b) :: a == b
    requires Aliased(table, m, key, done, before, r)
    requires Elements(buckets[k]) != {} && next == r + SentTo(Elements(buckets[k]), Least(Elements(buckets[k])))
    ensures Aliased(table, m, key, done + {k}, before, next)
  {
    forall x
      ensures AliasedAt(table, m, key, done + {k}, before, next, x)
    {
      assert AliasedAt(table, m, key, done, before, r, x);
      if x in buckets[k] {
        BucketIs(table, m, buckets, key, k, x);
      }
    }
  }

  // ----- rounds until one adds nothing

  lemma BothFiled(table: Table, m: Subs, pointers: map<TypeId, seq<TypeId>>, arrays: map<(TypeId, nat), seq<TypeId>>,
                  half: map<TypeId, TypeId>, next: map<TypeId, TypeId>)
    requires Filed(table, m, table.types.Keys, pointers, PointerKey)
             && Filed(table, m, table.types.Keys, arrays, ArrayKey)
    requires Aliased(table, m, PointerKey, pointers.Keys, m, half)
             && Aliased(table, m, ArrayKey, arrays.Keys, half, next)
    ensures next == m + Lows(table, m)
  {
    forall x: TypeId
      ensures x in next <==> x in m + Lows(table, m)
      ensures x in next ==> next[x] == (m + Lows(table, m))[x]
    {
      assert AliasedAt(table, m, PointerKey, pointers.Keys, m, half, x);
      assert AliasedAt(table, m, ArrayKey, arrays.Keys, half, next, x);
    }
  }

  method StructuralRound(table: Table, m: Subs) returns (next: map<TypeId, TypeId>)
    ensures next == m + Lows(table, m)
  {
    var pointers, arrays := FileStructures(table, m);
    var half := AliasEach(table, m, m, pointers, PointerKey);
    next := AliasEach(table, m, half, arrays, ArrayKey);
    BothFiled(table, m, pointers, arrays, half, next);
  }

  ghost predicate FaithfulToAll(table: Table, named: Subs, m: Subs) {
    forall p: Partition | p.table == table && p.prev == Some(named) && NamesStay(table, p.base, named) :: Faithful(p, m)
  }

  lemma RoundFaithfulToAll(table: Table, named: Subs, m: Subs, next: Subs)
    requires PlainStructures(table, named) && Folded(table, named, m) && next == m + Lows(table, m)
    requires FaithfulToAll(table, named, m)
    ensures FaithfulToAll(table, named, next)
  {
    forall p: Partition | p.table == table && p.prev == Some(named) && NamesStay(table, p.base, named)
      ensures Faithful(p, next)
    {
      RoundFaithful(p, named, m, next);
    }
  }

  lemma StartFaithful(table: Table, named: Subs)
    ensures FaithfulToAll(table, named, named)
  {
    forall p: Partition | p.table == table && p.prev == Some(named) && NamesStay(table, p.base, named)
      ensures Faithful(p, named)
    {
      NamedFaithful(p, named);
    }
  }

  /** With no links between anonymous types, every round keeps all of these. */
  ghost predicate InRound(table: Table, named: Subs, m: Subs) {
    PlainStructures(table, named) ==> Folded(table, named, m) && FaithfulToAll(table, named, m)
  }

  lemma RoundKeeps(table: Table, named: Subs, m: Subs, next: Subs)
    requires InRound(table, named, m) && next == m + Lows(table, m)
    ensures InRound(table, named, next)
  {
    if PlainStructures(table, named) {
      RoundFolds(table, named, m, next);
      RoundFaithfulToAll(table, named, m, next);
    }
  }

  /** The round before the last is the last: the length is test enough. */
  lemma RoundEnds(table: Table, named: Subs, m: Subs)
    requires InRound(table, named, m) && |m + Lows(table, m)| == |m| && PlainStructures(table, named)
    ensures m + Lows(table, m) == m && IsCongruence(table, m)
  {
    SameLengthSameMap(table, named, m);
    ClosedIsCongruence(table, named, m);
  }

  lemma RoundGrows(table: Table, named: Subs, m: Subs)
    requires SendsDown(table, named, m)
    ensures |m| <= |m + Lows(table, m)| <= |named| + |table.types|
  {
    SumBound(m, Lows(table, m), named.Keys, table.types.Keys);
  }

  lemma SumBound(m: map<TypeId, TypeId>, n: map<TypeId, TypeId>, a: set<TypeId>, b: set<TypeId>)
    requires m.Keys <= a + b && n.Keys <= a + b
    ensures |m| <= |m + n| <= |a| + |b|
  {
    assert (m + n).Keys == m.Keys + n.Keys;
    NotLarger(m.Keys, (m + n).Keys);
    NotLarger((m + n).Keys, a + b);
    UnionBound(a, b);
  }

  lemma UnionBound<T>(a: set<T>, b: set<T>)
    ensures |a + b| <= |a| + |b|
  {
  }

  /** The map closed over anonymous pointers and arrays. No cycle closes and nothing is merged
  that need not be; with no links between anonymous types it is the least congruence over the
  named one, and no coarser than the partition's own identity of references. */
  method CloseStructures(table: Table, ghost base: map<TypeId, TypeId>, named: Subs) returns (subs: Subs)
    requires BaseDescends(table, base) && Descends(table, base, named) && NamesStay(table, base, named)
    requires LinkedAbove(table, base, named)
    ensures SendsDown(table, named, subs) && DeclaredDown(table, subs)
    ensures Needed(table, named, subs)
    ensures PlainStructures(table, named)
            ==> AddsDown(table, named, subs) && IsCongruence(table, subs) && FaithfulToAll(table, named, subs)
  {
    subs := named;
    StartFaithful(table, named);
    while true
      invariant SendsDown(table, named, subs) && (subs == named || DeclaredDown(table, subs))
      invariant InRound(table, named, subs) && Needed(table, named, subs)
      decreases |named| + |table.types| - |subs|
    {
      var before := |subs|;
      var next := StructuralRound(table, subs);
      RoundGrows(table, named, subs);
      RoundSendsDown(table, base, named, subs);
      SendsDownAcyclic(table, base, named, next);
      RoundNeeded(table, named, subs);
      RoundKeeps(table, named, subs, next);
      if |next| == before && PlainStructures(table, named) {
        RoundEnds(table, named, subs);
      }
      subs := next;
      if |subs| == before {
        return;
      }
    }
  }
}
