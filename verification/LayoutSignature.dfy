/** A definition's layout as a value: its shape with every reference replaced by that
reference's signature. */
module LayoutSignature {
  import opened RawTypes
  import opened Layout
  import opened Signature

  // ----- which references a comparison sets side by side

  ghost function MemberPairs(a: seq<Member>, b: seq<Member>): set<Pair> {
    if |a| == |b| then set i | 0 <= i < |a| :: (a[i].ty, b[i].ty) else {}
  }

  ghost function ParamPairs(a: seq<Param>, b: seq<Param>): set<Pair> {
    if |a| == |b| then set i | 0 <= i < |a| :: (a[i].ty, b[i].ty) else {}
  }

  ghost function VariantPairs(a: seq<Variant>, b: seq<Variant>): set<Pair> {
    if |a| == |b| then set i | 0 <= i < |a| :: (a[i].member.ty, b[i].member.ty) else {}
  }

  ghost function ShapePairs(a: VariantShape, b: VariantShape): set<Pair> {
    match (a, b)
    case (One(m), One(n)) => {(m.ty, n.ty)}
    case (Many(d, v), Many(e, w)) =>
      if v == [] || w == [] then {}
      else (if d.Some? && e.Some? then {(d.value.ty, e.value.ty)} else {}) + VariantPairs(v, w)
    case (CStyle(r, _), CStyle(s, _)) => if r.Some? && s.Some? then {(r.value, s.value)} else {}
    case _ => {}
  }

  /** The reference pairs a comparison of two layouts looks at. */
  ghost function AlignedPairs(a: RawType, b: RawType): set<Pair> {
    match (a, b)
    case (Pointer(_, t), Pointer(_, u)) => {(t, u)}
    case (Array(t, _), Array(u, _)) => {(t, u)}
    case (Struct(_, _, _, m, p), Struct(_, _, _, n, q)) => MemberPairs(m, n) + ParamPairs(p, q)
    case (Union(_, _, _, m, p), Union(_, _, _, n, q)) => MemberPairs(m, n) + ParamPairs(p, q)
    case (Enum(_, _, _, _, s, p), Enum(_, _, _, _, t, q)) => ShapePairs(s, t) + ParamPairs(p, q)
    case _ => {}
  }

  /** Identifying more references makes no comparison fail that held. */
  ghost predicate Implies(p: Partition, q: Partition, pairs: set<Pair>) {
    forall pair | pair in pairs :: p.SameReference(pair.0, pair.1) ==> q.SameReference(pair.0, pair.1)
  }

  lemma MembersMonotone(p: Partition, q: Partition, a: seq<Member>, b: seq<Member>)
    requires Implies(p, q, MemberPairs(a, b)) && p.CompatibleMembers(a, b)
    ensures q.CompatibleMembers(a, b)
  {
    if a != [] && b != [] {
      forall i | 0 <= i < |a|
        ensures q.CompatibleMember(a[i], b[i])
      {
        assert p.CompatibleMember(a[i], b[i]);
        assert (a[i].ty, b[i].ty) in MemberPairs(a, b);
      }
    }
  }

  lemma ParamsMonotone(p: Partition, q: Partition, a: seq<Param>, b: seq<Param>)
    requires Implies(p, q, ParamPairs(a, b)) && p.CompatibleParams(a, b)
    ensures q.CompatibleParams(a, b)
  {
    if a != [] && b != [] {
      forall i | 0 <= i < |a|
        ensures q.CompatibleParam(a[i], b[i])
      {
        assert p.CompatibleParam(a[i], b[i]);
        assert (a[i].ty, b[i].ty) in ParamPairs(a, b);
      }
    }
  }

  lemma ShapesMonotone(p: Partition, q: Partition, a: VariantShape, b: VariantShape)
    requires Implies(p, q, ShapePairs(a, b)) && p.CompatibleShapes(a, b)
    ensures q.CompatibleShapes(a, b)
  {
    match (a, b)
    case (One(m), One(n)) =>
      assert (m.ty, n.ty) in ShapePairs(a, b);
    case (Many(d, v), Many(e, w)) =>
      if v != [] && w != [] {
        if d.Some? && e.Some? {
          assert (d.value.ty, e.value.ty) in ShapePairs(a, b);
        }
        forall i | 0 <= i < |v|
          ensures q.CompatibleVariant(v[i], w[i])
        {
          assert p.CompatibleVariant(v[i], w[i]);
          assert (v[i].member.ty, w[i].member.ty) in VariantPairs(v, w);
        }
      }
    case (CStyle(r, _), CStyle(s, _)) =>
      if r.Some? && s.Some? {
        assert (r.value, s.value) in ShapePairs(a, b);
      }
    case _ =>
  }

  lemma CompatibleMonotone(p: Partition, q: Partition, a: RawType, b: RawType)
    requires Implies(p, q, AlignedPairs(a, b)) && p.CompatibleTypes(a, b)
    ensures q.CompatibleTypes(a, b)
  {
    match (a, b)
    case (Pointer(_, t), Pointer(_, u)) =>
      assert (t, u) in AlignedPairs(a, b);
    case (Array(t, _), Array(u, _)) =>
      assert (t, u) in AlignedPairs(a, b);
    case (Struct(_, _, _, m, x), Struct(_, _, _, n, y)) =>
      MembersMonotone(p, q, m, n);
      ParamsMonotone(p, q, x, y);
    case (Union(_, _, _, m, x), Union(_, _, _, n, y)) =>
      MembersMonotone(p, q, m, n);
      ParamsMonotone(p, q, x, y);
    case (Enum(_, _, _, _, s, x), Enum(_, _, _, _, t, y)) =>
      ShapesMonotone(p, q, s, t);
      ParamsMonotone(p, q, x, y);
    case _ =>
  }

  // ----- complete definitions

  predicate BothOrNeither<T(==)>(a: seq<T>, b: seq<T>) {
    a == [] <==> b == []
  }

  predicate CompleteShapes(a: VariantShape, b: VariantShape) {
    match (a, b)
    case (Many(_, v), Many(_, w)) => BothOrNeither(v, w)
    case (CStyle(_, v), CStyle(_, w)) => BothOrNeither(v, w)
    case _ => true
  }

  /** Neither leaves empty a list the other fills. An empty list matches anything, so
  without this the comparison is not transitive. */
  predicate CompleteTypes(a: RawType, b: RawType) {
    match (a, b)
    case (Struct(_, _, _, m, p), Struct(_, _, _, n, q)) => BothOrNeither(m, n) && BothOrNeither(p, q)
    case (Union(_, _, _, m, p), Union(_, _, _, n, q)) => BothOrNeither(m, n) && BothOrNeither(p, q)
    case (Enum(_, _, _, _, s, p), Enum(_, _, _, _, t, q)) => CompleteShapes(s, t) && BothOrNeither(p, q)
    case _ => true
  }

  /** Alignments are both present or both absent: an absent one matches anything too. */
  predicate AlignedAlike(a: RawType, b: RawType) {
    match (a, b)
    case (Base(_, _, _, _, x), Base(_, _, _, _, y)) => x.Some? == y.Some?
    case (Enum(_, _, _, x, _, _), Enum(_, _, _, y, _, _)) => x.Some? == y.Some?
    case _ => true
  }

  // ----- the layout as a value

  function BareMember(m: Member): Member {
    m.(ty := 0)
  }

  function BareMembers(ms: seq<Member>): seq<Member> {
    seq(|ms|, i requires 0 <= i < |ms| => BareMember(ms[i]))
  }

  function BareParams(ps: seq<Param>): seq<Param> {
    seq(|ps|, i requires 0 <= i < |ps| => ps[i].(ty := 0))
  }

  function BareVariants(vs: seq<Variant>): seq<Variant> {
    seq(|vs|, i requires 0 <= i < |vs| => vs[i].(member := BareMember(vs[i].member)))
  }

  function BareShape(s: VariantShape): VariantShape {
    match s
    case Zero => Zero
    case One(m) => One(BareMember(m))
    case Many(d, v) =>
      if v == [] then Many(None, [])
      else Many(if d.Some? then Some(BareMember(d.value)) else None, BareVariants(v))
    case CStyle(r, e) => CStyle(if r.Some? then Some(0) else None, e)
  }

  /** A layout without its names of its own and without its references: sizes, member names
  and offsets, discriminants and enumerators. */
  function Bare(ty: RawType): RawType {
    match ty
    case Base(_, _, encoding, size, alignment) => Base(None, None, encoding, size, alignment)
    case Pointer(_, _) => Pointer(None, 0)
    case Array(_, count) => Array(0, count)
    case Struct(_, _, size, m, p) => Struct(None, None, size, BareMembers(m), BareParams(p))
    case Union(_, _, size, m, p) => Union(None, None, size, BareMembers(m), BareParams(p))
    case Enum(_, _, size, alignment, s, p) => Enum(None, None, size, alignment, BareShape(s), BareParams(p))
  }

  function MemberRefs(ms: seq<Member>): seq<TypeId> {
    seq(|ms|, i requires 0 <= i < |ms| => ms[i].ty)
  }

  function ParamRefs(ps: seq<Param>): seq<TypeId> {
    seq(|ps|, i requires 0 <= i < |ps| => ps[i].ty)
  }

  function VariantRefs(vs: seq<Variant>): seq<TypeId> {
    seq(|vs|, i requires 0 <= i < |vs| => vs[i].member.ty)
  }

  /** The single reference a layout leads with: a target, an element, a discriminant, a
  representation or a lone variant. */
  function LeadRefs(ty: RawType): seq<TypeId> {
    match ty
    case Pointer(_, t) => [t]
    case Array(t, _) => [t]
    case Enum(_, _, _, _, One(m), _) => [m.ty]
    case Enum(_, _, _, _, Many(d, v), _) => if v != [] && d.Some? then [d.value.ty] else []
    case Enum(_, _, _, _, CStyle(r, _), _) => if r.Some? then [r.value] else []
    case _ => []
  }

  function ItemRefs(ty: RawType): seq<TypeId> {
    match ty
    case Struct(_, _, _, m, _) => MemberRefs(m)
    case Union(_, _, _, m, _) => MemberRefs(m)
    case Enum(_, _, _, _, Many(_, v), _) => VariantRefs(v)
    case _ => []
  }

  function ParamRefsOf(ty: RawType): seq<TypeId> {
    match ty
    case Struct(_, _, _, _, p) => ParamRefs(p)
    case Union(_, _, _, _, p) => ParamRefs(p)
    case Enum(_, _, _, _, _, p) => ParamRefs(p)
    case _ => []
  }

  /** Every reference a comparison of this layout can look at. */
  function Refs(ty: RawType): seq<TypeId> {
    LeadRefs(ty) + ItemRefs(ty) + ParamRefsOf(ty)
  }

  datatype LayoutSig = LayoutSig(bare: RawType, lead: seq<Sig>, items: seq<Sig>, params: seq<Sig>)

  ghost function Sigs(g: Graph, naming: TypeId -> Label, ids: seq<TypeId>): seq<Sig>
    requires g.ShortChains()
  {
    seq(|ids|, i requires 0 <= i < |ids| => g.SigBy(naming, ids[i]))
  }

  ghost function LayoutBy(g: Graph, naming: TypeId -> Label, ty: RawType): LayoutSig
    requires g.ShortChains()
  {
    LayoutSig(Bare(ty), Sigs(g, naming, LeadRefs(ty)), Sigs(g, naming, ItemRefs(ty)),
              Sigs(g, naming, ParamRefsOf(ty)))
  }

  // ----- comparing layouts is comparing those values

  ghost predicate HomogeneousOn(g: Graph, pairs: set<Pair>)
    requires g.ShortChains()
  {
    forall pair | pair in pairs :: g.Homogeneous(pair.0, pair.1)
  }

  ghost predicate SameSig(p: Partition, l: TypeId, r: TypeId)
    requires GraphOf(p).ShortChains()
  {
    GraphOf(p).SigBy(LabelOf(p), l) == GraphOf(p).SigBy(LabelOf(p), r)
  }

  lemma PairIsSig(p: Partition, pairs: set<Pair>, l: TypeId, r: TypeId)
    requires GraphOf(p).ShortChains() && HomogeneousOn(GraphOf(p), pairs) && (l, r) in pairs
    ensures p.SameReference(l, r) <==> SameSig(p, l, r)
  {
    assert GraphOf(p).Homogeneous((l, r).0, (l, r).1);
    ReferenceIsSignature(p, l, r);
  }

  lemma MembersAreSigs(p: Partition, a: seq<Member>, b: seq<Member>)
    requires GraphOf(p).ShortChains() && HomogeneousOn(GraphOf(p), MemberPairs(a, b)) && BothOrNeither(a, b)
    ensures p.CompatibleMembers(a, b) <==>
            (&& BareMembers(a) == BareMembers(b)
             && Sigs(GraphOf(p), LabelOf(p), MemberRefs(a)) == Sigs(GraphOf(p), LabelOf(p), MemberRefs(b)))
  {
    var x, y := Sigs(GraphOf(p), LabelOf(p), MemberRefs(a)), Sigs(GraphOf(p), LabelOf(p), MemberRefs(b));
    var u, v := BareMembers(a), BareMembers(b);
    assert |u| == |a| == |x| && |v| == |b| == |y|;
    if |a| == |b| {
      forall i | 0 <= i < |a|
        ensures p.CompatibleMember(a[i], b[i]) <==> u[i] == v[i] && x[i] == y[i]
      {
        assert (a[i].ty, b[i].ty) in MemberPairs(a, b);
        PairIsSig(p, MemberPairs(a, b), a[i].ty, b[i].ty);
      }
    }
  }

  lemma ParamsAreSigs(p: Partition, a: seq<Param>, b: seq<Param>)
    requires GraphOf(p).ShortChains() && HomogeneousOn(GraphOf(p), ParamPairs(a, b)) && BothOrNeither(a, b)
    ensures p.CompatibleParams(a, b) <==>
            (&& BareParams(a) == BareParams(b)
             && Sigs(GraphOf(p), LabelOf(p), ParamRefs(a)) == Sigs(GraphOf(p), LabelOf(p), ParamRefs(b)))
  {
    var x, y := Sigs(GraphOf(p), LabelOf(p), ParamRefs(a)), Sigs(GraphOf(p), LabelOf(p), ParamRefs(b));
    var u, v := BareParams(a), BareParams(b);
    assert |u| == |a| == |x| && |v| == |b| == |y|;
    if |a| == |b| {
      forall i | 0 <= i < |a|
        ensures p.CompatibleParam(a[i], b[i]) <==> u[i] == v[i] && x[i] == y[i]
      {
        assert (a[i].ty, b[i].ty) in ParamPairs(a, b);
        PairIsSig(p, ParamPairs(a, b), a[i].ty, b[i].ty);
      }
    }
  }

  ghost predicate CompatibleVariants(p: Partition, a: seq<Variant>, b: seq<Variant>) {
    |a| == |b| && forall i | 0 <= i < |a| :: p.CompatibleVariant(a[i], b[i])
  }

  lemma VariantsAreSigs(p: Partition, a: seq<Variant>, b: seq<Variant>)
    requires GraphOf(p).ShortChains() && HomogeneousOn(GraphOf(p), VariantPairs(a, b))
    ensures CompatibleVariants(p, a, b) <==>
            (&& BareVariants(a) == BareVariants(b)
             && Sigs(GraphOf(p), LabelOf(p), VariantRefs(a)) == Sigs(GraphOf(p), LabelOf(p), VariantRefs(b)))
  {
    var x, y := Sigs(GraphOf(p), LabelOf(p), VariantRefs(a)), Sigs(GraphOf(p), LabelOf(p), VariantRefs(b));
    var u, v := BareVariants(a), BareVariants(b);
    assert |u| == |a| == |x| && |v| == |b| == |y|;
    if |a| == |b| {
      forall i | 0 <= i < |a|
        ensures p.CompatibleVariant(a[i], b[i]) <==> u[i] == v[i] && x[i] == y[i]
      {
        assert (a[i].member.ty, b[i].member.ty) in VariantPairs(a, b);
        PairIsSig(p, VariantPairs(a, b), a[i].member.ty, b[i].member.ty);
        var m, n := a[i].member, b[i].member;
        assert BareMember(m) == BareMember(n) <==> m.name == n.name && m.offset == n.offset;
      }
    }
  }

  /** One reference is one signature; no reference is none. */
  lemma LoneIsSig(p: Partition, l: TypeId, r: TypeId)
    requires GraphOf(p).ShortChains()
    ensures SameSig(p, l, r) <==> Sigs(GraphOf(p), LabelOf(p), [l]) == Sigs(GraphOf(p), LabelOf(p), [r])
  {
    var x, y := Sigs(GraphOf(p), LabelOf(p), [l]), Sigs(GraphOf(p), LabelOf(p), [r]);
    assert x == [GraphOf(p).SigBy(LabelOf(p), l)] && y == [GraphOf(p).SigBy(LabelOf(p), r)];
    assert x[0] == GraphOf(p).SigBy(LabelOf(p), l) && y[0] == GraphOf(p).SigBy(LabelOf(p), r);
  }

  lemma PointersAreLayouts(p: Partition, a: RawType, b: RawType)
    requires (a.Pointer? && b.Pointer?) || (a.Array? && b.Array?)
    requires GraphOf(p).ShortChains() && HomogeneousOn(GraphOf(p), AlignedPairs(a, b))
    ensures p.CompatibleTypes(a, b) <==> LayoutBy(GraphOf(p), LabelOf(p), a) == LayoutBy(GraphOf(p), LabelOf(p), b)
  {
    var t, u := if a.Pointer? then a.target else a.elem, if b.Pointer? then b.target else b.elem;
    assert (t, u) in AlignedPairs(a, b);
    PairIsSig(p, AlignedPairs(a, b), t, u);
    LoneIsSig(p, t, u);
    assert Sigs(GraphOf(p), LabelOf(p), ItemRefs(a)) == Sigs(GraphOf(p), LabelOf(p), ItemRefs(b)) == [];
    assert Sigs(GraphOf(p), LabelOf(p), ParamRefsOf(a)) == Sigs(GraphOf(p), LabelOf(p), ParamRefsOf(b)) == [];
  }

  lemma AggregatesAreLayouts(p: Partition, a: RawType, b: RawType)
    requires (a.Struct? && b.Struct?) || (a.Union? && b.Union?)
    requires CompleteTypes(a, b)
    requires GraphOf(p).ShortChains() && HomogeneousOn(GraphOf(p), AlignedPairs(a, b))
    ensures p.CompatibleTypes(a, b) <==> LayoutBy(GraphOf(p), LabelOf(p), a) == LayoutBy(GraphOf(p), LabelOf(p), b)
  {
    MembersAreSigs(p, a.members, b.members);
    ParamsAreSigs(p, a.params, b.params);
    assert Sigs(GraphOf(p), LabelOf(p), LeadRefs(a)) == Sigs(GraphOf(p), LabelOf(p), LeadRefs(b)) == [];
  }

  lemma ManyAreSigs(p: Partition, d: Option<Member>, v: seq<Variant>, e: Option<Member>, w: seq<Variant>)
    requires v != [] && w != []
    requires GraphOf(p).ShortChains() && HomogeneousOn(GraphOf(p), ShapePairs(Many(d, v), Many(e, w)))
    ensures p.CompatibleShapes(Many(d, v), Many(e, w)) <==>
            (&& BareShape(Many(d, v)) == BareShape(Many(e, w))
             && (d.Some? && e.Some? ==> SameSig(p, d.value.ty, e.value.ty))
             && Sigs(GraphOf(p), LabelOf(p), VariantRefs(v)) == Sigs(GraphOf(p), LabelOf(p), VariantRefs(w)))
  {
    VariantsAreSigs(p, v, w);
    if d.Some? && e.Some? {
      assert (d.value.ty, e.value.ty) in ShapePairs(Many(d, v), Many(e, w));
      PairIsSig(p, ShapePairs(Many(d, v), Many(e, w)), d.value.ty, e.value.ty);
    }
  }

  ghost predicate SameShapeLayout(p: Partition, a: RawType, b: RawType)
    requires a.Enum? && b.Enum?
    requires GraphOf(p).ShortChains()
  {
    && BareShape(a.shape) == BareShape(b.shape)
    && Sigs(GraphOf(p), LabelOf(p), LeadRefs(a)) == Sigs(GraphOf(p), LabelOf(p), LeadRefs(b))
    && Sigs(GraphOf(p), LabelOf(p), ItemRefs(a)) == Sigs(GraphOf(p), LabelOf(p), ItemRefs(b))
  }

  lemma ShapesAreSigs(p: Partition, a: RawType, b: RawType)
    requires a.Enum? && b.Enum? && CompleteShapes(a.shape, b.shape)
    requires GraphOf(p).ShortChains() && HomogeneousOn(GraphOf(p), ShapePairs(a.shape, b.shape))
    ensures p.CompatibleShapes(a.shape, b.shape) <==> SameShapeLayout(p, a, b)
  {
    match (a.shape, b.shape)
    case (One(m), One(n)) =>
      PairIsSig(p, ShapePairs(a.shape, b.shape), m.ty, n.ty);
      LoneIsSig(p, m.ty, n.ty);
    case (Many(d, v), Many(e, w)) =>
      if v != [] {
        ManyAreSigs(p, d, v, e, w);
        if d.Some? && e.Some? {
          LoneIsSig(p, d.value.ty, e.value.ty);
        }
      }
    case (CStyle(r, _), CStyle(s, _)) =>
      if r.Some? && s.Some? {
        PairIsSig(p, ShapePairs(a.shape, b.shape), r.value, s.value);
        LoneIsSig(p, r.value, s.value);
      }
    case _ =>
  }

  lemma EnumsAreLayouts(p: Partition, a: RawType, b: RawType)
    requires a.Enum? && b.Enum? && CompleteTypes(a, b) && AlignedAlike(a, b)
    requires GraphOf(p).ShortChains() && HomogeneousOn(GraphOf(p), AlignedPairs(a, b))
    ensures p.CompatibleTypes(a, b) <==> LayoutBy(GraphOf(p), LabelOf(p), a) == LayoutBy(GraphOf(p), LabelOf(p), b)
  {
    ShapesAreSigs(p, a, b);
    ParamsAreSigs(p, a.params, b.params);
  }

  /** On complete definitions the layout test decides equality of layout signatures: sizes,
  names, offsets and discriminants agree, and references agree pairwise. */
  lemma CompatibleIsLayout(p: Partition, a: RawType, b: RawType)
    requires CompleteTypes(a, b) && AlignedAlike(a, b)
    requires GraphOf(p).ShortChains() && HomogeneousOn(GraphOf(p), AlignedPairs(a, b))
    ensures p.CompatibleTypes(a, b) <==> LayoutBy(GraphOf(p), LabelOf(p), a) == LayoutBy(GraphOf(p), LabelOf(p), b)
  {
    if (a.Pointer? && b.Pointer?) || (a.Array? && b.Array?) {
      PointersAreLayouts(p, a, b);
    } else if (a.Struct? && b.Struct?) || (a.Union? && b.Union?) {
      AggregatesAreLayouts(p, a, b);
    } else if a.Enum? && b.Enum? {
      EnumsAreLayouts(p, a, b);
    }
  }

  // ----- whatever is left out

  function Filled<T>(a: seq<T>, b: seq<T>): seq<T> {
    if |b| == 0 then [] else a
  }

  function Given(a: Option<nat>, b: Option<nat>): Option<nat> {
    if b.None? then None else a
  }

  function CommonShape(s: VariantShape, t: VariantShape): VariantShape {
    match (s, t)
    case (Many(d, v), Many(_, w)) => Many(d, Filled(v, w))
    case (CStyle(r, v), CStyle(_, w)) => CStyle(r, Filled(v, w))
    case _ => s
  }

  /** `a` without the lists that `b` leaves empty and the alignment it does not give. */
  function Common(a: RawType, b: RawType): RawType {
    match (a, b)
    case (Base(name, space, encoding, size, x), Base(_, _, _, _, y)) =>
      Base(name, space, encoding, size, Given(x, y))
    case (Struct(name, space, size, m, p), Struct(_, _, _, n, q)) =>
      Struct(name, space, size, Filled(m, n), Filled(p, q))
    case (Union(name, space, size, m, p), Union(_, _, _, n, q)) =>
      Union(name, space, size, Filled(m, n), Filled(p, q))
    case (Enum(name, space, size, x, s, p), Enum(_, _, _, y, t, q)) =>
      Enum(name, space, size, Given(x, y), CommonShape(s, t), Filled(p, q))
    case _ => a
  }

  /** What one definition leaves out is no obstacle: the test sees only what both give. */
  lemma CompatibleInCommon(p: Partition, a: RawType, b: RawType)
    ensures p.CompatibleTypes(a, b) <==> p.CompatibleTypes(Common(a, b), Common(b, a))
  {
    if a.Enum? && b.Enum? {
      ShapesInCommon(p, a.shape, b.shape);
    }
  }

  lemma ShapesInCommon(p: Partition, s: VariantShape, t: VariantShape)
    ensures p.CompatibleShapes(s, t) <==> p.CompatibleShapes(CommonShape(s, t), CommonShape(t, s))
  {
  }

  lemma CommonIsComplete(a: RawType, b: RawType)
    ensures CompleteTypes(Common(a, b), Common(b, a)) && AlignedAlike(Common(a, b), Common(b, a))
    ensures AlignedPairs(Common(a, b), Common(b, a)) <= AlignedPairs(a, b)
  {
  }

  /** Two definitions are compatible exactly when what both give of them is one layout: every list
  both fill, every alignment both give, and all else. */
  lemma CompatibleExactly(p: Partition, a: RawType, b: RawType)
    requires GraphOf(p).ShortChains() && HomogeneousOn(GraphOf(p), AlignedPairs(a, b))
    ensures p.CompatibleTypes(a, b)
            <==> LayoutBy(GraphOf(p), LabelOf(p), Common(a, b)) == LayoutBy(GraphOf(p), LabelOf(p), Common(b, a))
  {
    CompatibleInCommon(p, a, b);
    CommonIsComplete(a, b);
    CompatibleIsLayout(p, Common(a, b), Common(b, a));
  }

  /** Two ids are compatible exactly when they have one canonical, typed or not, or what the
  definitions of both canonicals give is one layout. */
  lemma LayoutExactly(p: Partition, left: TypeId, right: TypeId)
    requires GraphOf(p).ShortChains()
    requires var l, r, types := p.Canonical(left), p.Canonical(right), p.table.types;
             l in types && r in types ==> HomogeneousOn(GraphOf(p), AlignedPairs(types[l], types[r]))
    ensures var l, r, types := p.Canonical(left), p.Canonical(right), p.table.types;
            p.CompatibleLayout(left, right) <==>
            || l == r
            || (&& l in types && r in types
                && LayoutBy(GraphOf(p), LabelOf(p), Common(types[l], types[r]))
                   == LayoutBy(GraphOf(p), LabelOf(p), Common(types[r], types[l])))
  {
    var l, r := p.Canonical(left), p.Canonical(right);
    if l in p.table.types && r in p.table.types {
      CompatibleExactly(p, p.table.types[l], p.table.types[r]);
    }
  }
}
