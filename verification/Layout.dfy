/** One pass's comparison of definitions: by layout, with references identified by name on
the first pass and by the class the previous map puts them in on every later one. */
module Layout {
  import opened RawTypes
  import opened Substitution

  type Pair = (TypeId, TypeId)

  function OrderedPair(left: TypeId, right: TypeId): Pair {
    if left <= right then (left, right) else (right, left)
  }

  function Pairs(ids: set<TypeId>): set<Pair> {
    set x, y | x in ids && y in ids :: (x, y)
  }

  predicate CompatibleAlignment(left: Option<nat>, right: Option<nat>) {
    left.None? || right.None? || left == right
  }

  /** `prev` is the previous pass's whole map; the first pass has none. */
  datatype Partition = Partition(table: Table, base: Subs, prev: Option<Subs>)
  {
    function Canonical(id: TypeId): TypeId {
      Canon(base, id)
    }

    function Get(id: TypeId): Option<RawType> {
      if Canonical(id) in table.types then Some(table.types[Canonical(id)]) else None
    }

    /** Whether two named types, both canonical in the base, are one identity. */
    predicate SameNamed(left: TypeId, right: TypeId)
      requires left in table.types && right in table.types
    {
      match prev
      case Some(previous) => Canon(previous, left) == Canon(previous, right)
      case None =>
        && table.types[left].Kind() == table.types[right].Kind()
        && table.types[left].Namespace() == table.types[right].Namespace()
        && table.types[left].Name() == table.types[right].Name()
    }

    /** Whether two references have one identity. `visiting` holds the pairs already being
    compared, which a cycle through nothing named comes back to. */
    predicate SameIdentity(left: TypeId, right: TypeId, visiting: set<Pair>)
      decreases Pairs(table.types.Keys) - visiting
    {
      var l, r := Canonical(left), Canonical(right);
      var pair := OrderedPair(l, r);
      if l == r || pair in visiting then
        true
      else if l in table.types && r in table.types then
        var a, b := table.types[l], table.types[r];
        if a.Name().Some? && b.Name().Some? then
          SameNamed(l, r)
        else if a.Pointer? && b.Pointer? then
          SameIdentity(a.target, b.target, visiting + {pair})
        else if a.Array? && b.Array? then
          a.count == b.count && SameIdentity(a.elem, b.elem, visiting + {pair})
        else
          false
      else
        l !in table.types && r !in table.types && l in table.subroutines && r in table.subroutines
    }

    predicate SameReference(left: TypeId, right: TypeId) {
      SameIdentity(left, right, {})
    }

    predicate CompatibleMember(left: Member, right: Member) {
      left.name == right.name && left.offset == right.offset && SameReference(left.ty, right.ty)
    }

    predicate CompatibleMembers(left: seq<Member>, right: seq<Member>) {
      || left == []
      || right == []
      || (|left| == |right| && forall i | 0 <= i < |left| :: CompatibleMember(left[i], right[i]))
    }

    predicate CompatibleParam(left: Param, right: Param) {
      left.name == right.name && SameReference(left.ty, right.ty)
    }

    predicate CompatibleParams(left: seq<Param>, right: seq<Param>) {
      || left == []
      || right == []
      || (|left| == |right| && forall i | 0 <= i < |left| :: CompatibleParam(left[i], right[i]))
    }

    predicate CompatibleOptionalMember(left: Option<Member>, right: Option<Member>) {
      match (left, right)
      case (Some(a), Some(b)) => CompatibleMember(a, b)
      case (None, None) => true
      case _ => false
    }

    predicate CompatibleOptionalType(left: Option<TypeId>, right: Option<TypeId>) {
      match (left, right)
      case (Some(a), Some(b)) => SameReference(a, b)
      case (None, None) => true
      case _ => false
    }

    predicate CompatibleVariant(left: Variant, right: Variant) {
      left.discr == right.discr && CompatibleMember(left.member, right.member)
    }

    predicate CompatibleShapes(left: VariantShape, right: VariantShape) {
      match (left, right)
      case (Zero, Zero) => true
      case (One(a), One(b)) => CompatibleMember(a, b)
      case (Many(discr, variants), Many(discr', variants')) =>
        || variants == []
        || variants' == []
        || (&& CompatibleOptionalMember(discr, discr')
            && |variants| == |variants'|
            && forall i | 0 <= i < |variants| :: CompatibleVariant(variants[i], variants'[i]))
      case (CStyle(repr, enumerators), CStyle(repr', enumerators')) =>
        && CompatibleOptionalType(repr, repr')
        && (enumerators == [] || enumerators' == [] || enumerators == enumerators')
      case _ => false
    }

    predicate CompatibleTypes(left: RawType, right: RawType) {
      match (left, right)
      case (Base(_, _, encoding, size, alignment), Base(_, _, encoding', size', alignment')) =>
        encoding == encoding' && size == size' && CompatibleAlignment(alignment, alignment')
      case (Pointer(_, target), Pointer(_, target')) => SameReference(target, target')
      case (Array(elem, count), Array(elem', count')) => count == count' && SameReference(elem, elem')
      case (Struct(_, _, size, members, params), Struct(_, _, size', members', params')) =>
        size == size' && CompatibleMembers(members, members') && CompatibleParams(params, params')
      case (Union(_, _, size, members, params), Union(_, _, size', members', params')) =>
        size == size' && CompatibleMembers(members, members') && CompatibleParams(params, params')
      case (Enum(_, _, size, alignment, shape, params), Enum(_, _, size', alignment', shape', params')) =>
        && size == size'
        && CompatibleAlignment(alignment, alignment')
        && CompatibleShapes(shape, shape')
        && CompatibleParams(params, params')
      case _ => false
    }

    predicate CompatibleLayout(left: TypeId, right: TypeId) {
      || Canonical(left) == Canonical(right)
      || (Get(left).Some? && Get(right).Some? && CompatibleTypes(Get(left).value, Get(right).value))
    }
  }
}
