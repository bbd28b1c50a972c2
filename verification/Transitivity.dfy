/** When comparing layouts is transitive. An empty list and an absent alignment match anything,
so a definition that leaves one out goes with others that do not go together; nothing else does. */
module Transitivity {
  import opened RawTypes
  import opened Layout
  import opened Signature
  import opened LayoutSignature
  import opened Dependence
  import opened Coarsest

  // ----- what two definitions fill in alike, as values

  ghost predicate SameMembers(p: Partition, a: seq<Member>, b: seq<Member>)
    requires GraphOf(p).ShortChains()
  {
    && BareMembers(a) == BareMembers(b)
    && Sigs(GraphOf(p), LabelOf(p), MemberRefs(a)) == Sigs(GraphOf(p), LabelOf(p), MemberRefs(b))
  }

  ghost predicate SameParams(p: Partition, a: seq<Param>, b: seq<Param>)
    requires GraphOf(p).ShortChains()
  {
    && BareParams(a) == BareParams(b)
    && Sigs(GraphOf(p), LabelOf(p), ParamRefs(a)) == Sigs(GraphOf(p), LabelOf(p), ParamRefs(b))
  }

  ghost predicate SameMany(p: Partition, d: Option<Member>, v: seq<Variant>, e: Option<Member>, w: seq<Variant>)
    requires GraphOf(p).ShortChains()
  {
    && BareShape(Many(d, v)) == BareShape(Many(e, w))
    && (d.Some? && e.Some? ==> SameSig(p, d.value.ty, e.value.ty))
    && Sigs(GraphOf(p), LabelOf(p), VariantRefs(v)) == Sigs(GraphOf(p), LabelOf(p), VariantRefs(w))
  }

  // ----- what the one in the middle leaves out, the others fill in alike

  ghost predicate MembersBridged(p: Partition, a: seq<Member>, b: seq<Member>, c: seq<Member>)
    requires GraphOf(p).ShortChains()
  {
    b == [] && a != [] && c != [] ==> SameMembers(p, a, c)
  }

  ghost predicate ParamsBridged(p: Partition, a: seq<Param>, b: seq<Param>, c: seq<Param>)
    requires GraphOf(p).ShortChains()
  {
    b == [] && a != [] && c != [] ==> SameParams(p, a, c)
  }

  predicate AlignmentBridged(a: Option<nat>, b: Option<nat>, c: Option<nat>) {
    b.None? && a.Some? && c.Some? ==> a == c
  }

  ghost predicate ShapeBridged(p: Partition, a: VariantShape, b: VariantShape, c: VariantShape)
    requires GraphOf(p).ShortChains()
  {
    match (a, b, c)
    case (Many(d, v), Many(_, w), Many(f, x)) => w == [] && v != [] && x != [] ==> SameMany(p, d, v, f, x)
    case (CStyle(_, v), CStyle(_, w), CStyle(_, x)) => w == [] && v != [] && x != [] ==> v == x
    case _ => true
  }

  /** Every list or alignment that `b` leaves out and both others fill, they fill alike. */
  ghost predicate Bridged(p: Partition, a: RawType, b: RawType, c: RawType)
    requires GraphOf(p).ShortChains()
  {
    match (a, b, c)
    case (Base(_, _, _, _, x), Base(_, _, _, _, y), Base(_, _, _, _, z)) => AlignmentBridged(x, y, z)
    case (Struct(_, _, _, m, x), Struct(_, _, _, n, y), Struct(_, _, _, o, z)) =>
      MembersBridged(p, m, n, o) && ParamsBridged(p, x, y, z)
    case (Union(_, _, _, m, x), Union(_, _, _, n, y), Union(_, _, _, o, z)) =>
      MembersBridged(p, m, n, o) && ParamsBridged(p, x, y, z)
    case (Enum(_, _, _, k, s, x), Enum(_, _, _, l, t, y), Enum(_, _, _, m, u, z)) =>
      AlignmentBridged(k, l, m) && ShapeBridged(p, s, t, u) && ParamsBridged(p, x, y, z)
    case _ => true
  }

  // ----- part by part

  lemma MembersTransitive(p: Partition, a: seq<Member>, b: seq<Member>, c: seq<Member>)
    requires GraphOf(p).ShortChains() && HomogeneousOn(GraphOf(p), MemberPairs(a, b))
    requires HomogeneousOn(GraphOf(p), MemberPairs(b, c)) && HomogeneousOn(GraphOf(p), MemberPairs(a, c))
    requires p.CompatibleMembers(a, b) && p.CompatibleMembers(b, c)
    ensures p.CompatibleMembers(a, c) <==> MembersBridged(p, a, b, c)
  {
    if a != [] && c != [] {
      MembersAreSigs(p, a, c);
      if b != [] {
        MembersAreSigs(p, a, b);
        MembersAreSigs(p, b, c);
      }
    }
  }

  lemma ParamsTransitive(p: Partition, a: seq<Param>, b: seq<Param>, c: seq<Param>)
    requires GraphOf(p).ShortChains() && HomogeneousOn(GraphOf(p), ParamPairs(a, b))
    requires HomogeneousOn(GraphOf(p), ParamPairs(b, c)) && HomogeneousOn(GraphOf(p), ParamPairs(a, c))
    requires p.CompatibleParams(a, b) && p.CompatibleParams(b, c)
    ensures p.CompatibleParams(a, c) <==> ParamsBridged(p, a, b, c)
  {
    if a != [] && c != [] {
      ParamsAreSigs(p, a, c);
      if b != [] {
        ParamsAreSigs(p, a, b);
        ParamsAreSigs(p, b, c);
      }
    }
  }

  lemma ManyTransitive(p: Partition, d: Option<Member>, v: seq<Variant>, e: Option<Member>, w: seq<Variant>,
                       f: Option<Member>, x: seq<Variant>)
    requires GraphOf(p).ShortChains() && HomogeneousOn(GraphOf(p), ShapePairs(Many(d, v), Many(e, w)))
    requires HomogeneousOn(GraphOf(p), ShapePairs(Many(e, w), Many(f, x)))
    requires HomogeneousOn(GraphOf(p), ShapePairs(Many(d, v), Many(f, x)))
    requires p.CompatibleShapes(Many(d, v), Many(e, w)) && p.CompatibleShapes(Many(e, w), Many(f, x))
    ensures p.CompatibleShapes(Many(d, v), Many(f, x)) <==> ShapeBridged(p, Many(d, v), Many(e, w), Many(f, x))
  {
    if v != [] && x != [] {
      ManyAreSigs(p, d, v, f, x);
      if w != [] {
        ManyAreSigs(p, d, v, e, w);
        ManyAreSigs(p, e, w, f, x);
      }
    }
  }

  lemma ReprTransitive(p: Partition, r: Option<TypeId>, s: Option<TypeId>, t: Option<TypeId>, pairs: set<Pair>)
    requires GraphOf(p).ShortChains() && HomogeneousOn(GraphOf(p), pairs)
    requires r.Some? && s.Some? ==> (r.value, s.value) in pairs
    requires s.Some? && t.Some? ==> (s.value, t.value) in pairs
    requires r.Some? && t.Some? ==> (r.value, t.value) in pairs
    requires p.CompatibleOptionalType(r, s) && p.CompatibleOptionalType(s, t)
    ensures p.CompatibleOptionalType(r, t)
  {
    if r.Some? && t.Some? {
      PairIsSig(p, pairs, r.value, s.value);
      PairIsSig(p, pairs, s.value, t.value);
      PairIsSig(p, pairs, r.value, t.value);
    }
  }

  lemma ShapesTransitive(p: Partition, a: VariantShape, b: VariantShape, c: VariantShape)
    requires GraphOf(p).ShortChains() && HomogeneousOn(GraphOf(p), ShapePairs(a, b))
    requires HomogeneousOn(GraphOf(p), ShapePairs(b, c)) && HomogeneousOn(GraphOf(p), ShapePairs(a, c))
    requires p.CompatibleShapes(a, b) && p.CompatibleShapes(b, c)
    ensures p.CompatibleShapes(a, c) <==> ShapeBridged(p, a, b, c)
  {
    match (a, b, c)
    case (One(l), One(m), One(n)) =>
      PairIsSig(p, ShapePairs(a, b), l.ty, m.ty);
      PairIsSig(p, ShapePairs(b, c), m.ty, n.ty);
      PairIsSig(p, ShapePairs(a, c), l.ty, n.ty);
    case (Many(d, v), Many(e, w), Many(f, x)) =>
      ManyTransitive(p, d, v, e, w, f, x);
    case (CStyle(r, _), CStyle(s, _), CStyle(t, _)) =>
      ReprTransitive(p, r, s, t, ShapePairs(a, b) + ShapePairs(b, c) + ShapePairs(a, c));
    case _ =>
  }

  /** Two definitions that go with a third go together if and only if every list and alignment
  the third leaves out and both fill, they fill alike. */
  lemma CompatibleTransitive(p: Partition, a: RawType, b: RawType, c: RawType)
    requires GraphOf(p).ShortChains() && HomogeneousOn(GraphOf(p), AlignedPairs(a, b))
    requires HomogeneousOn(GraphOf(p), AlignedPairs(b, c)) && HomogeneousOn(GraphOf(p), AlignedPairs(a, c))
    requires p.CompatibleTypes(a, b) && p.CompatibleTypes(b, c)
    ensures p.CompatibleTypes(a, c) <==> Bridged(p, a, b, c)
  {
    match (a, b, c)
    case (Pointer(_, t), Pointer(_, u), Pointer(_, v)) =>
      ReprTransitive(p, Some(t), Some(u), Some(v), AlignedPairs(a, b) + AlignedPairs(b, c) + AlignedPairs(a, c));
    case (Array(t, _), Array(u, _), Array(v, _)) =>
      ReprTransitive(p, Some(t), Some(u), Some(v), AlignedPairs(a, b) + AlignedPairs(b, c) + AlignedPairs(a, c));
    case (Struct(_, _, _, m, x), Struct(_, _, _, n, y), Struct(_, _, _, o, z)) =>
      MembersTransitive(p, m, n, o);
      ParamsTransitive(p, x, y, z);
    case (Union(_, _, _, m, x), Union(_, _, _, n, y), Union(_, _, _, o, z)) =>
      MembersTransitive(p, m, n, o);
      ParamsTransitive(p, x, y, z);
    case (Enum(_, _, _, _, s, x), Enum(_, _, _, _, t, y), Enum(_, _, _, _, u, z)) =>
      ShapesTransitive(p, s, t, u);
      ParamsTransitive(p, x, y, z);
    case _ =>
  }

  /** Complete definitions, alike in which alignments they give, leave nothing out between them. */
  lemma CompleteIsBridged(p: Partition, a: RawType, b: RawType, c: RawType)
    requires GraphOf(p).ShortChains()
    requires CompleteTypes(a, b) && AlignedAlike(a, b)
    ensures Bridged(p, a, b, c)
  {
  }

  lemma CompatibleTypesOf(p: Partition, x: TypeId, y: TypeId)
    requires Comparable(GraphOf(p), x, y)
    ensures p.CompatibleLayout(x, y) <==> p.CompatibleTypes(p.table.types[x], p.table.types[y])
  {
  }

  /** Of three definitions a pass may compare, two that go with the third go together if and only
  if it leaves out nothing they fill differently. */
  lemma LayoutTransitive(p: Partition, groups: seq<seq<TypeId>>, x: TypeId, y: TypeId, z: TypeId)
    requires Regular(p.table, groups, p.base)
    requires Comparable(GraphOf(p), x, y) && Comparable(GraphOf(p), y, z)
    requires p.CompatibleLayout(x, y) && p.CompatibleLayout(y, z)
    ensures p.CompatibleLayout(x, z) <==> Bridged(p, p.table.types[x], p.table.types[y], p.table.types[z])
  {
    assert Comparable(GraphOf(p), x, z);
    CompatibleTypesOf(p, x, y);
    CompatibleTypesOf(p, y, z);
    CompatibleTypesOf(p, x, z);
    CompatibleTransitive(p, p.table.types[x], p.table.types[y], p.table.types[z]);
  }

  /** With complete definitions, alike in which alignments they give, the test is transitive. */
  lemma UniformTransitive(p: Partition, groups: seq<seq<TypeId>>, x: TypeId, y: TypeId, z: TypeId)
    requires Uniform(p.table, groups, p.base)
    requires Comparable(GraphOf(p), x, y) && Comparable(GraphOf(p), y, z)
    requires p.CompatibleLayout(x, y) && p.CompatibleLayout(y, z)
    ensures p.CompatibleLayout(x, z)
  {
    CompleteIsBridged(p, p.table.types[x], p.table.types[y], p.table.types[z]);
    LayoutTransitive(p, groups, x, y, z);
  }
}
