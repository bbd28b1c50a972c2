/** What taking placed declarations into the base changes, and what it leaves as it was: the
by-name partition of every group, so that a round may start from the first pass's results. */
module Rounds {
  import opened RawTypes
  import opened Substitution
  import opened Layout
  import opened Signature
  import opened LayoutSignature
  import opened Groups
  import opened GroupFacts
  import opened Passes
  import opened Grouping
  import opened Dependence

  /** Declarations the base leaves alone, each sent to a definition it leaves alone. */
  ghost predicate PlacesDeclarations(table: Table, base: map<TypeId, TypeId>, placed: map<TypeId, TypeId>) {
    forall d | d in placed ::
      && d in table.declarations && d !in base
      && placed[d] !in table.declarations && placed[d] !in base
  }

  ghost predicate PlacesInGroup(table: Table, placed: map<TypeId, TypeId>) {
    forall d | d in placed :: table.IsNamed(d) && table.Key(placed[d]) == table.Key(d)
  }

  lemma PlacedDescends(table: Table, base: map<TypeId, TypeId>, placed: map<TypeId, TypeId>)
    requires BaseDescends(table, base) && PlacesDeclarations(table, base, placed)
    ensures BaseDescends(table, base + placed) && Acyclic(base + placed)
  {
    BaseIsAcyclic(table, base + placed);
  }

  lemma PlacedClosed(table: Table, base: map<TypeId, TypeId>, placed: map<TypeId, TypeId>)
    requires GroupClosed(table, base) && PlacesInGroup(table, placed)
    ensures GroupClosed(table, base + placed)
  {
  }

  ghost function Sent(placed: map<TypeId, TypeId>, x: TypeId): TypeId {
    if x in placed then placed[x] else x
  }

  lemma {:induction false} CanonPlaced(table: Table, base: Subs, placed: map<TypeId, TypeId>, after: Subs, x: TypeId)
    requires PlacesDeclarations(table, base, placed) && after == base + placed
    ensures Canon(after, x) == Sent(placed, Canon(base, x))
    decreases RankOf(base)(x).a, RankOf(base)(x).b, RankOf(base)(x).c, RankOf(base)(x).d
  {
    if x in base {
      CanonPlaced(table, base, placed, after, base[x]);
    } else if x in placed {
      assert placed[x] !in after;
    }
  }

  // ----- the graph keeps its chains

  ghost predicate Placing(g: Graph, placed: map<TypeId, TypeId>, after: Graph) {
    && after.table == g.table
    && after.base == g.base + placed
    && PlacesDeclarations(g.table, g.base, placed)
    && PlacesInGroup(g.table, placed)
  }

  lemma RootPlaced(g: Graph, placed: map<TypeId, TypeId>, after: Graph, x: TypeId)
    requires Placing(g, placed, after)
    ensures after.Root(x) == Sent(placed, g.Root(x))
    ensures g.table.Key(after.Root(x)) == g.table.Key(g.Root(x))
    ensures after.Anonymous(x) == g.Anonymous(x)
    ensures g.Anonymous(x) ==> after.Root(x) == g.Root(x)
    ensures !g.table.IsNamed(g.Root(x)) ==> after.Root(x) == g.Root(x)
  {
    CanonPlaced(g.table, g.base, placed, after.base, x);
    if g.Root(x) in placed {
      assert g.table.IsNamed(g.Root(x));
      assert g.table.Key(placed[g.Root(x)]).Some?;
    }
  }

  lemma {:induction false} EndsPlaced(g: Graph, placed: map<TypeId, TypeId>, after: Graph, x: TypeId, n: nat)
    requires Placing(g, placed, after)
    ensures g.EndsWithin(x, n) <==> after.EndsWithin(x, n)
    ensures g.EndsWithin(x, n) ==> g.LenWithin(x, n) == after.LenWithin(x, n)
    decreases n
  {
    RootPlaced(g, placed, after, x);
    if g.Anonymous(x) && n > 0 {
      EndsPlaced(g, placed, after, g.Target(x), n - 1);
    }
  }

  lemma ChainsPlaced(g: Graph, placed: map<TypeId, TypeId>, after: Graph)
    requires Placing(g, placed, after) && g.ShortChains()
    ensures after.ShortChains()
  {
    forall x: TypeId
      ensures after.EndsWithin(x, MAX_LINKS)
    {
      assert g.EndsWithin(x, MAX_LINKS);
      EndsPlaced(g, placed, after, x, MAX_LINKS);
    }
  }

  lemma {:induction false} EndPlaced(g: Graph, placed: map<TypeId, TypeId>, after: Graph, x: TypeId)
    requires Placing(g, placed, after) && g.ShortChains() && after.ShortChains()
    ensures after.Links(x) == g.Links(x)
    ensures g.table.Key(after.EndOf(x)) == g.table.Key(g.EndOf(x))
    ensures !g.table.IsNamed(g.EndOf(x)) ==> after.EndOf(x) == g.EndOf(x)
    decreases g.Len(x)
  {
    RootPlaced(g, placed, after, x);
    if g.Anonymous(x) {
      g.LenStep(x);
      EndPlaced(g, placed, after, g.Target(x));
    }
  }

  /** By name, every reference keeps its signature. */
  lemma SigPlaced(p: Partition, placed: map<TypeId, TypeId>, q: Partition, x: TypeId)
    requires Placing(GraphOf(p), placed, GraphOf(q)) && p.prev.None? && q.prev.None?
    requires GraphOf(p).ShortChains() && GraphOf(q).ShortChains()
    ensures GraphOf(q).SigBy(LabelOf(q), x) == GraphOf(p).SigBy(LabelOf(p), x)
  {
    EndPlaced(GraphOf(p), placed, GraphOf(q), x);
    var a, b := GraphOf(p).EndOf(x), GraphOf(q).EndOf(x);
    assert p.table.IsNamed(a) <==> p.table.Key(a).Some?;
    assert p.table.IsNamed(b) <==> p.table.Key(b).Some?;
  }

  lemma {:induction false} HomogeneousPlaced(g: Graph, placed: map<TypeId, TypeId>, after: Graph, l: TypeId, r: TypeId)
    requires Placing(g, placed, after) && g.ShortChains() && after.ShortChains()
    requires g.Homogeneous(l, r)
    ensures after.Homogeneous(l, r)
    decreases g.Len(l)
  {
    RootPlaced(g, placed, after, l);
    RootPlaced(g, placed, after, r);
    var x, y := g.Root(l), g.Root(r);
    var x', y' := after.Root(l), after.Root(r);
    if x' != y' && x' in g.table.types && y' in g.table.types {
      KindOfKey(g.table, x, x');
      KindOfKey(g.table, y, y');
      if g.Anonymous(l) && g.Anonymous(r) && g.LinkAt(l) == g.LinkAt(r) {
        g.LenStep(l);
        HomogeneousPlaced(g, placed, after, g.Target(l), g.Target(r));
      }
    }
  }

  lemma KindOfKey(table: Table, x: TypeId, y: TypeId)
    requires table.Key(x) == table.Key(y)
    ensures table.IsNamed(x) ==> table.IsNamed(y) && table.types[x].Pointer? == table.types[y].Pointer?
                                 && table.types[x].Array? == table.types[y].Array?
    ensures table.IsNamed(y) ==> table.IsNamed(x)
  {
  }

  lemma HomogeneousTypesPlaced(g: Graph, placed: map<TypeId, TypeId>, after: Graph)
    requires Placing(g, placed, after) && g.ShortChains() && after.ShortChains()
    requires HomogeneousTypes(g)
    ensures HomogeneousTypes(after)
  {
    forall d, e | Comparable(after, d, e)
      ensures HomogeneousOn(after, AlignedPairs(g.table.types[d], g.table.types[e]))
    {
      assert Comparable(g, d, e);
      var pairs := AlignedPairs(g.table.types[d], g.table.types[e]);
      assert HomogeneousOn(g, pairs);
      forall pair | pair in pairs
        ensures after.Homogeneous(pair.0, pair.1)
      {
        HomogeneousPlaced(g, placed, after, pair.0, pair.1);
      }
    }
  }

  lemma ComparablePlaced(g: Graph, placed: map<TypeId, TypeId>, after: Graph, d: TypeId, e: TypeId)
    requires Placing(g, placed, after)
    ensures Comparable(after, d, e) <==> Comparable(g, d, e)
  {
  }

  /** The conditions survive a placement. */
  lemma RegularPlaced(table: Table, groups: seq<seq<TypeId>>, base: Subs, placed: map<TypeId, TypeId>, after: Subs)
    requires Regular(table, groups, base) && Placing(Graph(table, base), placed, Graph(table, after))
    ensures Regular(table, groups, after)
  {
    PlacedDescends(table, base, placed);
    PlacedClosed(table, base, placed);
    ChainsPlaced(Graph(table, base), placed, Graph(table, after));
    HomogeneousTypesPlaced(Graph(table, base), placed, Graph(table, after));
  }

  lemma CoveredPlaced(g: Graph, placed: map<TypeId, TypeId>, after: Graph, groups: seq<seq<TypeId>>, deps: set<nat>,
                      i: nat)
    requires Placing(g, placed, after) && g.ShortChains() && after.ShortChains() && Grouped(g.table, groups)
    requires i < |groups| && Covered(g, groups, deps, i)
    ensures Covered(after, groups, deps, i)
  {
    forall d, e | Comparable(after, d, e) && d in groups[i] && e in groups[i]
      ensures ReachesAll(after, groups, deps, AlignedPairs(g.table.types[d], g.table.types[e]))
    {
      assert Comparable(g, d, e);
      var pairs := AlignedPairs(g.table.types[d], g.table.types[e]);
      assert ReachesAll(g, groups, deps, pairs);
      forall pair | pair in pairs
        ensures Reaches(after, groups, deps, pair.0) && Reaches(after, groups, deps, pair.1)
      {
        ReachesPlaced(g, placed, after, groups, deps, pair.0);
        ReachesPlaced(g, placed, after, groups, deps, pair.1);
      }
    }
  }

  lemma ReachesPlaced(g: Graph, placed: map<TypeId, TypeId>, after: Graph, groups: seq<seq<TypeId>>, deps: set<nat>,
                      x: TypeId)
    requires Placing(g, placed, after) && g.ShortChains() && after.ShortChains() && Grouped(g.table, groups)
    requires Reaches(g, groups, deps, x)
    ensures Reaches(after, groups, deps, x)
  {
    EndPlaced(g, placed, after, x);
    var a, b := g.EndOf(x), after.EndOf(x);
    if g.table.IsNamed(b) {
      KindOfKey(g.table, a, b);
      var i, j := OwnerOf(g.table, groups, a), OwnerOf(g.table, groups, b);
      assert b in groups[i];
      OneOwner(g.table, groups, i, j, b);
    }
  }

  // ----- the by-name partition keeps its classes

  lemma CompatiblePlaced(p: Partition, placed: map<TypeId, TypeId>, q: Partition, d: TypeId, e: TypeId)
    requires Placing(GraphOf(p), placed, GraphOf(q)) && p.prev.None? && q.prev.None?
    requires GraphOf(p).ShortChains() && GraphOf(q).ShortChains()
    requires HomogeneousTypes(GraphOf(p)) && HomogeneousTypes(GraphOf(q))
    requires Comparable(GraphOf(p), d, e)
    ensures p.CompatibleLayout(d, e) == q.CompatibleLayout(d, e)
  {
    ComparablePlaced(GraphOf(p), placed, GraphOf(q), d, e);
    var a, b := p.table.types[d], p.table.types[e];
    var pairs := AlignedPairs(a, b);
    assert HomogeneousOn(GraphOf(p), pairs) && HomogeneousOn(GraphOf(q), pairs);
    forall pair | pair in pairs
      ensures p.SameReference(pair.0, pair.1) == q.SameReference(pair.0, pair.1)
    {
      ReferenceIsSignature(p, pair.0, pair.1);
      ReferenceIsSignature(q, pair.0, pair.1);
      SigPlaced(p, placed, q, pair.0);
      SigPlaced(p, placed, q, pair.1);
    }
    if p.CompatibleTypes(a, b) {
      CompatibleMonotone(p, q, a, b);
    }
    if q.CompatibleTypes(a, b) {
      CompatibleMonotone(q, p, a, b);
    }
  }

  lemma PlacedInDefinitions(p: Partition, groups: seq<seq<TypeId>>, placed: map<TypeId, TypeId>, q: Partition, i: nat,
                            d: TypeId)
    requires Regular(p.table, groups, p.base) && i < |groups|
    requires Placing(GraphOf(p), placed, GraphOf(q)) && d in placed && d in groups[i]
    ensures placed[d] in Definitions(p, groups[i])
  {
    ResolvedInGroup(p, groups, i);
    assert p.table.Key(placed[d]) == p.table.Key(d) == p.table.Key(groups[i][0]);
  }

  lemma RootStays(p: Partition, groups: seq<seq<TypeId>>, placed: map<TypeId, TypeId>, q: Partition, i: nat, x: TypeId)
    requires Regular(p.table, groups, p.base) && Regular(q.table, groups, q.base) && i < |groups|
    requires Placing(GraphOf(p), placed, GraphOf(q))
    ensures x in Resolved(q, groups[i]) <==> x in Resolved(p, groups[i]) && x !in placed
  {
    ResolvedInGroup(p, groups, i);
    ResolvedInGroup(q, groups, i);
  }

  lemma ResolvedPlaced(p: Partition, groups: seq<seq<TypeId>>, placed: map<TypeId, TypeId>, q: Partition, i: nat)
    requires Regular(p.table, groups, p.base) && Regular(q.table, groups, q.base) && i < |groups|
    requires Placing(GraphOf(p), placed, GraphOf(q))
    ensures Definitions(q, groups[i]) == Definitions(p, groups[i])
    ensures forall x :: x in Declarations(q, groups[i]) <==> x in Declarations(p, groups[i]) && x !in placed
    ensures forall d | d in placed && d in groups[i] :: placed[d] in Definitions(p, groups[i])
  {
    forall x
      ensures x in Resolved(q, groups[i]) <==> x in Resolved(p, groups[i]) && x !in placed
    {
      RootStays(p, groups, placed, q, i, x);
    }
    forall d | d in placed && d in groups[i]
      ensures placed[d] in Definitions(p, groups[i])
    {
      PlacedInDefinitions(p, groups, placed, q, i, d);
    }
  }

  lemma ClassesPlaced(p: Partition, groups: seq<seq<TypeId>>, placed: map<TypeId, TypeId>, q: Partition, i: nat)
    requires p.prev.None? && q.prev.None?
    requires Regular(p.table, groups, p.base) && Regular(q.table, groups, q.base) && i < |groups|
    requires Placing(GraphOf(p), placed, GraphOf(q))
    ensures ClassesOf(q, groups[i]) == ClassesOf(p, groups[i])
  {
    var ids := groups[i];
    ResolvedPlaced(p, groups, placed, q, i);
    ResolvedInGroup(p, groups, i);
    var detail := Details(p.table, Definitions(p, ids));
    var defs := OrderedDefinitions(p, ids);
    forall x, y | x in defs && y in defs
      ensures p.CompatibleLayout(x, y) == q.CompatibleLayout(x, y)
    {
      MembersNamed(p.table, groups, i, x);
      MembersNamed(p.table, groups, i, y);
      assert p.table.Key(x) == p.table.Key(groups[i][0]) == p.table.Key(y);
      CompatiblePlaced(p, placed, q, x, y);
    }
    ClassesAgree(p, q, detail, defs);
  }

  /** Over a base grown by placements a by-name result has the same effect, and more than one
  canonical exactly when it had before. */
  lemma FirstPassPlaced(p: Partition, groups: seq<seq<TypeId>>, placed: map<TypeId, TypeId>, q: Partition, i: nat)
    requires p.prev.None? && q.prev.None?
    requires Regular(p.table, groups, p.base) && Regular(q.table, groups, q.base) && i < |groups|
    requires Placing(GraphOf(p), placed, GraphOf(q))
    ensures Effective(q.base, Result(p, groups[i])) == Effective(q.base, Result(q, groups[i]))
    ensures Result(p, groups[i]).canonicals > 1 <==> Result(q, groups[i]).canonicals > 1
  {
    if |groups[i]| != 1 {
      ClassesPlaced(p, groups, placed, q, i);
      CountsAgree(p, q, groups[i]);
      var m, n := AliasMap(Result(p, groups[i]).aliases), AliasMap(Result(q, groups[i]).aliases);
      forall x | x !in q.base
        ensures (x in m <==> x in n) && (x in m ==> m[x] == n[x])
      {
        EntryPlaced(p, groups, placed, q, i, x);
      }
      RemovalsAgree(m, n, q.base.Keys);
    }
  }

  lemma CountsAgree(p: Partition, q: Partition, ids: seq<TypeId>)
    requires |ids| != 1 && ClassesOf(q, ids) == ClassesOf(p, ids)
    ensures Result(p, ids).canonicals > 1 <==> Result(q, ids).canonicals > 1
  {
  }

  lemma RemovalsAgree(m: map<TypeId, TypeId>, n: map<TypeId, TypeId>, keys: set<TypeId>)
    requires forall x | x !in keys :: (x in m <==> x in n) && (x in m ==> m[x] == n[x])
    ensures m - keys == n - keys
  {
  }

  lemma EntryPlaced(p: Partition, groups: seq<seq<TypeId>>, placed: map<TypeId, TypeId>, q: Partition, i: nat,
                    x: TypeId)
    requires p.prev.None? && q.prev.None?
    requires Regular(p.table, groups, p.base) && Regular(q.table, groups, q.base) && i < |groups|
    requires Placing(GraphOf(p), placed, GraphOf(q))
    requires |groups[i]| != 1 && ClassesOf(q, groups[i]) == ClassesOf(p, groups[i]) && x !in q.base
    ensures var m, n := AliasMap(Result(p, groups[i]).aliases), AliasMap(Result(q, groups[i]).aliases);
            (x in m <==> x in n) && (x in m ==> m[x] == n[x])
  {
    var ids := groups[i];
    ResolvedPlaced(p, groups, placed, q, i);
    ResolvedInGroup(p, groups, i);
    ResolvedInGroup(q, groups, i);
    ClassesOfFacts(p, ids);
    var classes := ClassesOf(p, ids);
    if x in Definitions(p, ids) {
      var j :| 0 <= j < |classes| && x in classes[j];
      DefinitionLookup(p, ids, j, x);
      DefinitionLookup(q, ids, j, x);
    } else if x in Declarations(p, ids) {
      DeclarationLookup(p, ids, x);
      DeclarationLookup(q, ids, x);
      if |classes| == 0 {
        DeclaredPlaced(p, groups, placed, q, i);
      }
    } else {
      StrangerLookup(p, ids, x);
      StrangerLookup(q, ids, x);
    }
  }

  lemma DeclaredPlaced(p: Partition, groups: seq<seq<TypeId>>, placed: map<TypeId, TypeId>, q: Partition, i: nat)
    requires Regular(p.table, groups, p.base) && Regular(q.table, groups, q.base) && i < |groups|
    requires Placing(GraphOf(p), placed, GraphOf(q))
    requires ClassesOf(p, groups[i]) == []
    ensures DeclaredOf(q, groups[i]) == DeclaredOf(p, groups[i])
  {
    ResolvedPlaced(p, groups, placed, q, i);
    ResolvedInGroup(p, groups, i);
    ClassesOfFacts(p, groups[i]);
    forall x
      ensures x in Declarations(q, groups[i]) <==> x in Declarations(p, groups[i])
    {
      if x in Declarations(p, groups[i]) && x in placed {
        assert false;
      }
    }
    assert Declarations(q, groups[i]) == Declarations(p, groups[i]);
  }
}
