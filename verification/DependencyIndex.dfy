/** Which groups a group's partition may depend on. Only the definitions its by-name result does
not alias are looked at, and of their references only the first named type along the chain. */
module DependencyIndex {
  import opened RawTypes
  import opened Substitution
  import opened Layout
  import opened Signature
  import opened LayoutSignature
  import opened Groups
  import opened GroupFacts
  import opened Grouping
  import opened Dependence

  /** The group each key is filed under, keyed off a group's first id. */
  ghost predicate Indexes(table: Table, groups: seq<seq<TypeId>>, index: map<GroupKey, nat>) {
    && (forall key | key in index ::
          index[key] < |groups| && groups[index[key]] != [] && table.Key(groups[index[key]][0]) == Some(key))
    && (forall g | 0 <= g < |groups| && groups[g] != [] && table.Key(groups[g][0]).Some? ::
          table.Key(groups[g][0]).value in index)
  }

  method GroupIndex(table: Table, groups: seq<seq<TypeId>>) returns (index: map<GroupKey, nat>)
    ensures Indexes(table, groups, index)
  {
    index := map[];
    for g := 0 to |groups|
      invariant forall key | key in index ::
                  index[key] < g && groups[index[key]] != [] && table.Key(groups[index[key]][0]) == Some(key)
      invariant forall h | 0 <= h < g && groups[h] != [] && table.Key(groups[h][0]).Some? ::
                  table.Key(groups[h][0]).value in index
    {
      if groups[g] != [] {
        var key := table.Key(groups[g][0]);
        if key.Some? {
          index := index[key.value := g];
        }
      }
    }
  }

  /** The ids `ty` mentions; `Refs`, those its layout value has signatures of, are among them. */
  function ReferencedTypes(ty: RawType): seq<TypeId> {
    match ty
    case Struct(_, _, _, m, p) => MemberRefs(m) + ParamRefs(p)
    case Union(_, _, _, m, p) => MemberRefs(m) + ParamRefs(p)
    case Enum(_, _, _, _, shape, p) =>
      ParamRefs(p) +
      (match shape
       case Zero => []
       case One(m) => [m.ty]
       case Many(d, v) => (if d.Some? then [d.value.ty] else []) + VariantRefs(v)
       case CStyle(r, _) => if r.Some? then [r.value] else [])
    case Pointer(_, t) => [t]
    case Array(t, _) => [t]
    case Base(_, _, _, _, _) => []
  }

  ghost predicate InMembers(members: seq<Member>, id: TypeId) {
    exists i :: 0 <= i < |members| && members[i].ty == id
  }

  ghost predicate InParams(params: seq<Param>, id: TypeId) {
    exists i :: 0 <= i < |params| && params[i].ty == id
  }

  /** Some part of the definition has the type. */
  ghost predicate HasPart(ty: RawType, id: TypeId) {
    || ((ty.Struct? || ty.Union?) && (InMembers(ty.members, id) || InParams(ty.params, id)))
    || (ty.Enum? && InParams(ty.params, id))
    || (ty.Enum? && ty.shape.One? && ty.shape.member.ty == id)
    || (ty.Enum? && ty.shape.Many? && ty.shape.discr.Some? && ty.shape.discr.value.ty == id)
    || (ty.Enum? && ty.shape.Many? && exists i :: 0 <= i < |ty.shape.variants| && ty.shape.variants[i].member.ty == id)
    || (ty.Enum? && ty.shape.CStyle? && ty.shape.repr == Some(id))
    || (ty.Pointer? && ty.target == id)
    || (ty.Array? && ty.elem == id)
  }

  lemma MembersMentioned(members: seq<Member>, id: TypeId)
    ensures id in MemberRefs(members) <==> InMembers(members, id)
  {
    if i :| 0 <= i < |members| && members[i].ty == id {
      assert MemberRefs(members)[i] == id;
    }
  }

  lemma ParamsMentioned(params: seq<Param>, id: TypeId)
    ensures id in ParamRefs(params) <==> InParams(params, id)
  {
    if i :| 0 <= i < |params| && params[i].ty == id {
      assert ParamRefs(params)[i] == id;
    }
  }

  /** What a definition mentions is what its parts have for types, and nothing else. */
  lemma ReferencedExactly(ty: RawType, id: TypeId)
    ensures id in ReferencedTypes(ty) <==> HasPart(ty, id)
  {
    match ty
    case Struct(_, _, _, m, p) =>
      MembersMentioned(m, id);
      ParamsMentioned(p, id);
    case Union(_, _, _, m, p) =>
      MembersMentioned(m, id);
      ParamsMentioned(p, id);
    case Enum(_, _, _, _, shape, p) =>
      ParamsMentioned(p, id);
      if shape.Many? {
        var v := shape.variants;
        if i :| 0 <= i < |v| && v[i].member.ty == id {
          assert VariantRefs(v)[i] == id;
        }
      }
    case _ =>
  }

  lemma RefsAreReferenced(ty: RawType, id: TypeId)
    requires id in Refs(ty)
    ensures id in ReferencedTypes(ty)
  {
  }

  const CHAIN_BOUND := 32

  /** The index of the first named type on the chain from `id`, if it is among the first `n`. */
  function Reached(table: Table, base: Subs, index: map<GroupKey, nat>, id: TypeId, n: nat): Option<nat>
    decreases n
  {
    if n == 0 then None
    else
      var root := Canon(base, id);
      if table.Key(root).Some? then
        if table.Key(root).value in index then Some(index[table.Key(root).value]) else None
      else if root in table.types && table.types[root].Pointer? then
        Reached(table, base, index, table.types[root].target, n - 1)
      else if root in table.types && table.types[root].Array? then
        Reached(table, base, index, table.types[root].elem, n - 1)
      else
        None
  }

  method GroupReached(table: Table, base: Subs, index: map<GroupKey, nat>, start: TypeId) returns (r: Option<nat>)
    ensures r == Reached(table, base, index, start, 32)
  {
    var id := start;
    for i := 0 to CHAIN_BOUND
      invariant Reached(table, base, index, id, CHAIN_BOUND - i) == Reached(table, base, index, start, CHAIN_BOUND)
    {
      id := CanonicalizeIn(base, id);
      var key := table.Key(id);
      if key.Some? {
        return if key.value in index then Some(index[key.value]) else None;
      }
      if id in table.types && table.types[id].Pointer? {
        id := table.types[id].target;
      } else if id in table.types && table.types[id].Array? {
        id := table.types[id].elem;
      } else {
        return None;
      }
    }
    return None;
  }

  /** Walking a short chain finds the group its end is in. */
  lemma {:induction false} ReachedIsOwner(g: Graph, groups: seq<seq<TypeId>>, index: map<GroupKey, nat>, id: TypeId,
                                          n: nat)
    requires g.ShortChains() && Grouped(g.table, groups) && Indexes(g.table, groups, index)
    requires g.Len(id) < n
    ensures Reached(g.table, g.base, index, id, n)
            == if g.table.IsNamed(g.EndOf(id)) then Some(OwnerOf(g.table, groups, g.EndOf(id))) else None
    decreases n
  {
    if g.Anonymous(id) {
      g.LenStep(id);
      ReachedIsOwner(g, groups, index, g.Target(id), n - 1);
    } else if g.table.IsNamed(g.Root(id)) {
      var owner := OwnerOf(g.table, groups, g.Root(id));
      assert g.table.Key(g.Root(id)) == g.table.Key(groups[owner][0]);
      var found := index[g.table.Key(g.Root(id)).value];
      assert g.Root(id) in groups[found];
      OneOwner(g.table, groups, owner, found, g.Root(id));
    }
  }

  lemma ReferenceReachesOwner(g: Graph, groups: seq<seq<TypeId>>, index: map<GroupKey, nat>, id: TypeId)
    requires g.ShortChains() && Grouped(g.table, groups) && Indexes(g.table, groups, index)
    requires g.table.IsNamed(g.EndOf(id))
    ensures Reached(g.table, g.base, index, id, CHAIN_BOUND) == Some(OwnerOf(g.table, groups, g.EndOf(id)))
  {
    assert g.EndsWithin(id, MAX_LINKS);
    g.LenBound(id, MAX_LINKS);
    ReachedIsOwner(g, groups, index, id, CHAIN_BOUND);
  }

  // ----- the dependencies of one group

  /** A definition that stands for its by-name class. */
  predicate Walked(table: Table, byName: GroupResult, id: TypeId) {
    id !in AliasMap(byName.aliases) && id !in table.declarations && id in table.types
  }

  ghost predicate ReachesFrom(table: Table, base: Subs, index: map<GroupKey, nat>, refs: seq<TypeId>, dep: nat) {
    exists r :: r in refs && Reached(table, base, index, r, CHAIN_BOUND) == Some(dep)
  }

  method ReachAll(table: Table, base: Subs, index: map<GroupKey, nat>, refs: seq<TypeId>) returns (deps: set<nat>)
    ensures forall dep: nat :: dep in deps <==> ReachesFrom(table, base, index, refs, dep)
  {
    deps := {};
    for j := 0 to |refs|
      invariant forall dep: nat :: dep in deps <==> ReachesFrom(table, base, index, refs[..j], dep)
    {
      ghost var was := deps;
      var found := GroupReached(table, base, index, refs[j]);
      if found.Some? {
        deps := deps + {found.value};
      }
      assert refs[..j + 1] == refs[..j] + [refs[j]];
      forall dep: nat
        ensures dep in deps <==> ReachesFrom(table, base, index, refs[..j + 1], dep)
      {
        if dep in deps {
          if dep in was {
            var r :| r in refs[..j] && Reached(table, base, index, r, CHAIN_BOUND) == Some(dep);
            assert r in refs[..j + 1];
          } else {
            assert refs[j] in refs[..j + 1];
          }
        }
      }
    }
    assert refs[..|refs|] == refs;
  }

  ghost predicate DependsWithin(table: Table, base: Subs, byName: GroupResult, index: map<GroupKey, nat>,
                                ids: seq<TypeId>, dep: nat) {
    exists i | 0 <= i < |ids| && Walked(table, byName, Canon(base, ids[i])) ::
      ReachesFrom(table, base, index, ReferencedTypes(table.types[Canon(base, ids[i])]), dep)
  }

  method GroupDependencies(table: Table, base: Subs, ids: seq<TypeId>, byName: GroupResult, index: map<GroupKey, nat>)
    returns (deps: set<nat>)
    ensures forall dep: nat :: dep in deps <==> DependsWithin(table, base, byName, index, ids, dep)
  {
    var duplicates := AliasMap(byName.aliases);
    deps := {};
    for i := 0 to |ids|
      invariant forall dep: nat :: dep in deps <==> DependsWithin(table, base, byName, index, ids[..i], dep)
    {
      ghost var was := deps;
      var id := CanonicalizeIn(base, ids[i]);
      var more: set<nat> := {};
      if id !in duplicates && id !in table.declarations && id in table.types {
        more := ReachAll(table, base, index, ReferencedTypes(table.types[id]));
      }
      deps := deps + more;
      forall dep: nat
        ensures dep in deps <==> DependsWithin(table, base, byName, index, ids[..i + 1], dep)
      {
        DependsWithinStep(table, base, byName, index, ids, i, dep);
      }
    }
    assert ids[..|ids|] == ids;
  }

  lemma DependsWithinStep(table: Table, base: Subs, byName: GroupResult, index: map<GroupKey, nat>,
                          ids: seq<TypeId>, i: nat, dep: nat)
    requires i < |ids|
    ensures DependsWithin(table, base, byName, index, ids[..i + 1], dep) <==>
            || DependsWithin(table, base, byName, index, ids[..i], dep)
            || (&& Walked(table, byName, Canon(base, ids[i]))
                && ReachesFrom(table, base, index, ReferencedTypes(table.types[Canon(base, ids[i])]), dep))
  {
    var all, init := ids[..i + 1], ids[..i];
    if DependsWithin(table, base, byName, index, all, dep) {
      var k :| 0 <= k < |all| && Walked(table, byName, Canon(base, all[k]))
               && ReachesFrom(table, base, index, ReferencedTypes(table.types[Canon(base, all[k])]), dep);
      if k < i {
        assert init[k] == all[k];
      }
    }
    if DependsWithin(table, base, byName, index, init, dep) {
      var k :| 0 <= k < |init| && Walked(table, byName, Canon(base, init[k]))
               && ReachesFrom(table, base, index, ReferencedTypes(table.types[Canon(base, init[k])]), dep);
      assert init[k] == all[k];
    }
    assert all[i] == ids[i];
  }

  // ----- the index covers every comparison

  lemma RefParts(ty: RawType, l: TypeId)
    requires l in Refs(ty)
    ensures l in LeadRefs(ty) || l in ItemRefs(ty) || l in ParamRefsOf(ty)
  {
  }

  lemma AlignedInRefs(a: RawType, b: RawType, pair: Pair)
    requires pair in AlignedPairs(a, b)
    ensures pair.0 in Refs(a) && pair.1 in Refs(b)
  {
    var x, y := pair.0, pair.1;
    match (a, b)
    case (Struct(_, _, _, m, p), Struct(_, _, _, n, q)) =>
      AlignedMembers(m, n, pair);
      AlignedParams(p, q, pair);
      assert (x in MemberRefs(m) && y in MemberRefs(n)) || (x in ParamRefs(p) && y in ParamRefs(q));
    case (Union(_, _, _, m, p), Union(_, _, _, n, q)) =>
      AlignedMembers(m, n, pair);
      AlignedParams(p, q, pair);
      assert (x in MemberRefs(m) && y in MemberRefs(n)) || (x in ParamRefs(p) && y in ParamRefs(q));
    case (Enum(_, _, _, _, s, p), Enum(_, _, _, _, t, q)) =>
      AlignedShapes(a, b, pair);
      AlignedParams(p, q, pair);
    case _ =>
  }

  lemma AlignedMembers(m: seq<Member>, n: seq<Member>, pair: Pair)
    ensures pair in MemberPairs(m, n) ==> pair.0 in MemberRefs(m) && pair.1 in MemberRefs(n)
  {
    if pair in MemberPairs(m, n) {
      var i :| 0 <= i < |m| && pair == (m[i].ty, n[i].ty);
      assert MemberRefs(m)[i] == pair.0 && MemberRefs(n)[i] == pair.1;
    }
  }

  lemma AlignedParams(m: seq<Param>, n: seq<Param>, pair: Pair)
    ensures pair in ParamPairs(m, n) ==> pair.0 in ParamRefs(m) && pair.1 in ParamRefs(n)
  {
    if pair in ParamPairs(m, n) {
      var i :| 0 <= i < |m| && pair == (m[i].ty, n[i].ty);
      assert ParamRefs(m)[i] == pair.0 && ParamRefs(n)[i] == pair.1;
    }
  }

  lemma AlignedShapes(a: RawType, b: RawType, pair: Pair)
    requires a.Enum? && b.Enum?
    ensures pair in ShapePairs(a.shape, b.shape) ==>
              && (pair.0 in LeadRefs(a) || pair.0 in ItemRefs(a))
              && (pair.1 in LeadRefs(b) || pair.1 in ItemRefs(b))
  {
    if pair in ShapePairs(a.shape, b.shape) && a.shape.Many? && b.shape.Many? {
      var v, w := a.shape.variants, b.shape.variants;
      if pair in VariantPairs(v, w) {
        var i :| 0 <= i < |v| && pair == (v[i].member.ty, w[i].member.ty);
        assert VariantRefs(v)[i] == pair.0 && VariantRefs(w)[i] == pair.1;
      }
    }
  }

  /** Each reference of a complete definition has its counterpart in the class's canonical. */
  lemma Counterpart(p: Partition, a: RawType, b: RawType, l: TypeId) returns (k: TypeId)
    requires CompleteTypes(a, b) && p.CompatibleTypes(a, b) && l in Refs(b)
    ensures (k, l) in AlignedPairs(a, b) && p.SameReference(k, l)
  {
    RefParts(b, l);
    if l in ParamRefsOf(b) {
      k := ParamCounterpart(p, a.params, b.params, l);
    } else if l in ItemRefs(b) {
      if b.Enum? {
        k := VariantCounterpart(p, a.shape, b.shape, l);
      } else {
        k := MemberCounterpart(p, a.members, b.members, l);
      }
    } else {
      k := LeadRefs(a)[0];
    }
  }

  lemma MemberCounterpart(p: Partition, a: seq<Member>, b: seq<Member>, l: TypeId) returns (k: TypeId)
    requires BothOrNeither(a, b) && p.CompatibleMembers(a, b) && l in MemberRefs(b)
    ensures (k, l) in MemberPairs(a, b) && p.SameReference(k, l)
  {
    var i :| 0 <= i < |b| && MemberRefs(b)[i] == l;
    assert p.CompatibleMember(a[i], b[i]);
    k := a[i].ty;
    assert (a[i].ty, b[i].ty) in MemberPairs(a, b);
  }

  lemma ParamCounterpart(p: Partition, a: seq<Param>, b: seq<Param>, l: TypeId) returns (k: TypeId)
    requires BothOrNeither(a, b) && p.CompatibleParams(a, b) && l in ParamRefs(b)
    ensures (k, l) in ParamPairs(a, b) && p.SameReference(k, l)
  {
    var i :| 0 <= i < |b| && ParamRefs(b)[i] == l;
    assert p.CompatibleParam(a[i], b[i]);
    k := a[i].ty;
    assert (a[i].ty, b[i].ty) in ParamPairs(a, b);
  }

  lemma VariantCounterpart(p: Partition, a: VariantShape, b: VariantShape, l: TypeId) returns (k: TypeId)
    requires CompleteShapes(a, b) && p.CompatibleShapes(a, b) && b.Many? && l in VariantRefs(b.variants)
    ensures (k, l) in ShapePairs(a, b) && p.SameReference(k, l)
  {
    var v, w := a.variants, b.variants;
    var i :| 0 <= i < |w| && VariantRefs(w)[i] == l;
    assert p.CompatibleVariant(v[i], w[i]);
    k := v[i].member.ty;
    assert (v[i].member.ty, w[i].member.ty) in VariantPairs(v, w);
  }

  lemma WalkedReaches(p: Partition, groups: seq<seq<TypeId>>, index: map<GroupKey, nat>, deps: set<nat>, i: nat,
                      c: TypeId, l: TypeId)
    requires p.prev.None? && Regular(p.table, groups, p.base) && i < |groups|
    requires Indexes(p.table, groups, index)
    requires forall dep: nat :: dep in deps <==>
               DependsWithin(p.table, p.base, Result(p, groups[i]), index, groups[i], dep)
    requires c in Definitions(p, groups[i]) && c !in AliasMap(Result(p, groups[i]).aliases)
    requires c in p.table.types && l in Refs(p.table.types[c])
    ensures Reaches(GraphOf(p), groups, deps, l)
  {
    var g, ids := GraphOf(p), groups[i];
    if g.table.IsNamed(g.EndOf(l)) {
      ReferenceReachesOwner(g, groups, index, l);
      RefsAreReferenced(p.table.types[c], l);
      var k :| 0 <= k < |ids| && c == p.Canonical(ids[k]);
      var owner := OwnerOf(p.table, groups, g.EndOf(l));
      assert ReachesFrom(p.table, p.base, index, ReferencedTypes(p.table.types[Canon(p.base, ids[k])]), owner);
      assert Walked(p.table, Result(p, ids), Canon(p.base, ids[k]));
      assert DependsWithin(p.table, p.base, Result(p, ids), index, ids, owner);
    }
  }

  /** By name, same references end in the same group. */
  lemma SameReferenceSameOwner(p: Partition, groups: seq<seq<TypeId>>, deps: set<nat>, k: TypeId, l: TypeId)
    requires p.prev.None? && GraphOf(p).ShortChains() && Grouped(p.table, groups)
    requires GraphOf(p).Homogeneous(k, l) && p.SameReference(k, l)
    requires Reaches(GraphOf(p), groups, deps, k)
    ensures Reaches(GraphOf(p), groups, deps, l)
  {
    ReferenceIsSignature(p, k, l);
    var g := GraphOf(p);
    var x, y := g.EndOf(k), g.EndOf(l);
    assert g.EndBy(LabelOf(p), x) == g.EndBy(LabelOf(p), y);
    if p.table.IsNamed(y) {
      assert p.table.IsNamed(x) && p.table.Key(x) == p.table.Key(y);
      assert y in groups[OwnerOf(p.table, groups, x)];
      OneOwner(p.table, groups, OwnerOf(p.table, groups, x), OwnerOf(p.table, groups, y), y);
    }
  }

  lemma DefinitionReaches(p: Partition, groups: seq<seq<TypeId>>, index: map<GroupKey, nat>, deps: set<nat>, i: nat,
                          d: TypeId, l: TypeId)
    requires p.prev.None? && Regular(p.table, groups, p.base) && Complete(GraphOf(p)) && i < |groups|
    requires Indexes(p.table, groups, index)
    requires forall dep: nat :: dep in deps <==>
               DependsWithin(p.table, p.base, Result(p, groups[i]), index, groups[i], dep)
    requires d in Definitions(p, groups[i])
    requires d in p.table.types && l in Refs(p.table.types[d])
    ensures Reaches(GraphOf(p), groups, deps, l)
  {
    var ids := groups[i];
    if d !in AliasMap(Result(p, ids).aliases) {
      WalkedReaches(p, groups, index, deps, i, d, l);
    } else {
      ClassesOfFacts(p, ids);
      var classes := ClassesOf(p, ids);
      assert d in OrderedDefinitions(p, ids);
      var j :| 0 <= j < |classes| && d in classes[j];
      var c := classes[j][0];
      assert c in classes[j];
      DefinitionLookup(p, ids, j, d);
      DefinitionLookup(p, ids, j, c);
      assert p.CompatibleLayout(c, d);
      ResolvedInGroup(p, groups, i);
      MembersNamed(p.table, groups, i, c);
      MembersNamed(p.table, groups, i, d);
      assert p.table.Key(c) == p.table.Key(groups[i][0]) == p.table.Key(d);
      assert Comparable(GraphOf(p), c, d);
      var k := Counterpart(p, p.table.types[c], p.table.types[d], l);
      AlignedInRefs(p.table.types[c], p.table.types[d], (k, l));
      WalkedReaches(p, groups, index, deps, i, c, k);
      assert HomogeneousOn(GraphOf(p), AlignedPairs(p.table.types[c], p.table.types[d]));
      assert GraphOf(p).Homogeneous((k, l).0, (k, l).1);
      SameReferenceSameOwner(p, groups, deps, k, l);
    }
  }

  /** On complete definitions it is enough to walk the unaliased ones: what they reach is all
  that any comparison within the group reaches. */
  lemma DependenciesCover(p: Partition, groups: seq<seq<TypeId>>, index: map<GroupKey, nat>, deps: set<nat>, i: nat)
    requires p.prev.None? && Regular(p.table, groups, p.base) && Complete(GraphOf(p)) && i < |groups|
    requires Indexes(p.table, groups, index)
    requires forall dep: nat :: dep in deps <==>
               DependsWithin(p.table, p.base, Result(p, groups[i]), index, groups[i], dep)
    ensures Covered(GraphOf(p), groups, deps, i)
  {
    ResolvedInGroup(p, groups, i);
    forall d, e | Comparable(GraphOf(p), d, e) && d in groups[i] && e in groups[i]
      ensures ReachesAll(GraphOf(p), groups, deps, AlignedPairs(p.table.types[d], p.table.types[e]))
    {
      forall pair | pair in AlignedPairs(p.table.types[d], p.table.types[e])
        ensures Reaches(GraphOf(p), groups, deps, pair.0) && Reaches(GraphOf(p), groups, deps, pair.1)
      {
        AlignedInRefs(p.table.types[d], p.table.types[e], pair);
        DefinitionReaches(p, groups, index, deps, i, d, pair.0);
        DefinitionReaches(p, groups, index, deps, i, e, pair.1);
      }
    }
  }
}
