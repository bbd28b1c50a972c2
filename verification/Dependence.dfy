/** Which groups a group's partition depends on, and that it depends on nothing else. */
module Dependence {
  import opened RawTypes
  import opened Substitution
  import opened Layout
  import opened Signature
  import opened LayoutSignature
  import opened Groups
  import opened GroupFacts
  import opened Passes
  import opened Grouping

  // ----- the conditions the result rests on

  /** Two definitions of one name that no link folds away: what a pass compares. */
  ghost predicate Comparable(g: Graph, d: TypeId, e: TypeId) {
    && g.table.IsNamed(d) && g.table.IsNamed(e) && g.table.Key(d) == g.table.Key(e)
    && d !in g.table.declarations && e !in g.table.declarations
    && d !in g.base && e !in g.base
  }

  /** No comparison of two same-named definitions meets a named pointer on one side and an
  anonymous one on the other. */
  ghost predicate HomogeneousTypes(g: Graph)
    requires g.ShortChains()
  {
    forall d, e | Comparable(g, d, e) ::
      HomogeneousOn(g, AlignedPairs(g.table.types[d], g.table.types[e]))
  }

  /** No definition leaves empty a list a same-named definition fills. */
  ghost predicate Complete(g: Graph) {
    forall d, e | Comparable(g, d, e) :: CompleteTypes(g.table.types[d], g.table.types[e])
  }

  ghost predicate Regular(table: Table, groups: seq<seq<TypeId>>, base: Subs) {
    && Grouped(table, groups)
    && BaseDescends(table, base)
    && GroupClosed(table, base)
    && Graph(table, base).ShortChains()
    && HomogeneousTypes(Graph(table, base))
  }

  // ----- a partition depends on its references' labels alone

  /** Labels tell groups apart. */
  ghost predicate Separates(table: Table, naming: TypeId -> Label) {
    forall x, y | table.IsNamed(x) && table.IsNamed(y) && naming(x) == naming(y) :: table.Key(x) == table.Key(y)
  }

  /** Two labellings identify the same ids of a group. */
  ghost predicate SameKernel(ids: seq<TypeId>, f: TypeId -> Label, h: TypeId -> Label) {
    forall x, y | x in ids && y in ids :: f(x) == f(y) <==> h(x) == h(y)
  }

  /** The group a reference's chain ends in, if any, is among `deps`. */
  ghost predicate Reaches(g: Graph, groups: seq<seq<TypeId>>, deps: set<nat>, id: TypeId)
    requires g.ShortChains() && Grouped(g.table, groups)
  {
    g.table.IsNamed(g.EndOf(id)) ==> OwnerOf(g.table, groups, g.EndOf(id)) in deps
  }

  ghost predicate ReachesAll(g: Graph, groups: seq<seq<TypeId>>, deps: set<nat>, pairs: set<Pair>)
    requires g.ShortChains() && Grouped(g.table, groups)
  {
    forall pair | pair in pairs :: Reaches(g, groups, deps, pair.0) && Reaches(g, groups, deps, pair.1)
  }

  /** Every group a comparison inside group `i` looks at is among its dependencies. */
  ghost predicate Covered(g: Graph, groups: seq<seq<TypeId>>, deps: set<nat>, i: nat)
    requires g.ShortChains() && Grouped(g.table, groups) && i < |groups|
  {
    forall d, e | Comparable(g, d, e) && d in groups[i] && e in groups[i] ::
      ReachesAll(g, groups, deps, AlignedPairs(g.table.types[d], g.table.types[e]))
  }

  lemma SigsAgree(g: Graph, groups: seq<seq<TypeId>>, deps: set<nat>, f: TypeId -> Label, h: TypeId -> Label,
                  l: TypeId, r: TypeId)
    requires g.ShortChains() && Grouped(g.table, groups)
    requires Separates(g.table, f) && Separates(g.table, h)
    requires forall i | i in deps && 0 <= i < |groups| :: SameKernel(groups[i], f, h)
    requires Reaches(g, groups, deps, l) && Reaches(g, groups, deps, r)
    ensures g.SigBy(f, l) == g.SigBy(f, r) <==> g.SigBy(h, l) == g.SigBy(h, r)
  {
    var x, y := g.EndOf(l), g.EndOf(r);
    if g.table.IsNamed(x) && g.table.IsNamed(y) {
      var i, j := OwnerOf(g.table, groups, x), OwnerOf(g.table, groups, y);
      if g.table.Key(x) == g.table.Key(y) {
        assert y in groups[i];
        assert SameKernel(groups[i], f, h);
      }
    }
  }

  lemma LayoutsAgree(p: Partition, q: Partition, groups: seq<seq<TypeId>>, deps: set<nat>, i: nat, d: TypeId, e: TypeId)
    requires p.table == q.table && p.base == q.base
    requires Regular(p.table, groups, p.base) && i < |groups|
    requires Covered(GraphOf(p), groups, deps, i)
    requires Separates(p.table, LabelOf(p)) && Separates(p.table, LabelOf(q))
    requires forall j | j in deps && 0 <= j < |groups| :: SameKernel(groups[j], LabelOf(p), LabelOf(q))
    requires d in Definitions(p, groups[i]) && e in Definitions(p, groups[i])
    ensures p.CompatibleLayout(d, e) == q.CompatibleLayout(d, e)
  {
    ResolvedInGroup(p, groups, i);
    MembersNamed(p.table, groups, i, d);
    MembersNamed(p.table, groups, i, e);
    assert p.table.Key(d) == p.table.Key(groups[i][0]) == p.table.Key(e);
    assert Comparable(GraphOf(p), d, e);
    var g := GraphOf(p);
    var a, b := p.table.types[d], p.table.types[e];
    var pairs := AlignedPairs(a, b);
    assert ReachesAll(g, groups, deps, pairs) && HomogeneousOn(g, pairs);
    forall pair | pair in pairs
      ensures p.SameReference(pair.0, pair.1) == q.SameReference(pair.0, pair.1)
    {
      ReferenceIsSignature(p, pair.0, pair.1);
      ReferenceIsSignature(q, pair.0, pair.1);
      SigsAgree(g, groups, deps, LabelOf(p), LabelOf(q), pair.0, pair.1);
    }
    if p.CompatibleTypes(a, b) {
      CompatibleMonotone(p, q, a, b);
    }
    if q.CompatibleTypes(a, b) {
      CompatibleMonotone(q, p, a, b);
    }
  }

  /** A group whose dependencies' labels identify what they did is partitioned as it was. */
  lemma ResultDependsOn(p: Partition, q: Partition, groups: seq<seq<TypeId>>, deps: set<nat>, i: nat)
    requires p.table == q.table && p.base == q.base
    requires Regular(p.table, groups, p.base) && i < |groups|
    requires Covered(GraphOf(p), groups, deps, i)
    requires Separates(p.table, LabelOf(p)) && Separates(p.table, LabelOf(q))
    requires forall j | j in deps && 0 <= j < |groups| :: SameKernel(groups[j], LabelOf(p), LabelOf(q))
    ensures Result(p, groups[i]) == Result(q, groups[i])
  {
    var ids := groups[i];
    assert Resolved(p, ids) == Resolved(q, ids);
    assert Definitions(p, ids) == Definitions(q, ids) && Declarations(p, ids) == Declarations(q, ids);
    var detail := Details(p.table, Definitions(p, ids));
    forall x, y | x in OrderedDefinitions(p, ids) && y in OrderedDefinitions(p, ids)
      ensures p.CompatibleLayout(x, y) == q.CompatibleLayout(x, y)
    {
      LayoutsAgree(p, q, groups, deps, i, x, y);
    }
    ClassesAgree(p, q, detail, OrderedDefinitions(p, ids));
  }

  lemma KeysSeparate(p: Partition)
    requires p.prev.None?
    ensures Separates(p.table, LabelOf(p))
  {
  }

  ghost predicate KeepsGroups(m: map<TypeId, TypeId>, groups: seq<seq<TypeId>>) {
    forall g | 0 <= g < |groups| :: KeepsGroup(m, groups[g])
  }

  lemma CanonSeparates(table: Table, groups: seq<seq<TypeId>>, m: Subs, x: TypeId, y: TypeId)
    requires Grouped(table, groups) && KeepsGroups(m, groups)
    requires table.IsNamed(x) && table.IsNamed(y) && Canon(m, x) == Canon(m, y)
    ensures table.Key(x) == table.Key(y)
  {
    var g, h := OwnerOf(table, groups, x), OwnerOf(table, groups, y);
    CanonKeepsGroup(m, groups[g], x);
    CanonKeepsGroup(m, groups[h], y);
    OneOwner(table, groups, g, h, Canon(m, x));
  }

  lemma ClassesSeparate(p: Partition, groups: seq<seq<TypeId>>)
    requires p.prev.Some? && Grouped(p.table, groups) && KeepsGroups(p.prev.value, groups)
    ensures Separates(p.table, LabelOf(p))
  {
    forall x, y | p.table.IsNamed(x) && p.table.IsNamed(y) && LabelOf(p)(x) == LabelOf(p)(y)
      ensures p.table.Key(x) == p.table.Key(y)
    {
      CanonSeparates(p.table, groups, p.prev.value, x, y);
    }
  }
}
