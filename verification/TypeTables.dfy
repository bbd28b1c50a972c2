/** A bundle's type table, and how members, variants and sizes are looked up in it. */
module TypeTables {
  import opened RawTypes

  const WORD64 := 0x1_0000_0000_0000_0000

  type U64 = n: nat | n < WORD64

  const POINTER_SIZE: U64 := 8

  function Fitting(n: int): Option<U64> {
    if 0 <= n < WORD64 then Some(n) else None
  }

  function CheckedAdd(a: U64, b: U64): Option<U64> {
    Fitting(a + b)
  }

  function CheckedMul(a: U64, b: U64): Option<U64> {
    Fitting(a * b)
  }

  type Id = nat
  type Name = nat

  datatype MemberDef = MemberDef(name: Name, offset: U64, ty: Id)

  datatype VariantDef = VariantDef(name: Name, payload: MemberDef)

  datatype TypeDef =
    | Base(size: U64)
    | Pointer(target: Id)
    | Array(elem: Id, count: U64)
    | Struct(size: U64, members: seq<MemberDef>)
    | Union(size: U64, members: seq<MemberDef>)
    | Enum(size: U64, variants: seq<VariantDef>)
    | CEnum(size: U64)
    | Opaque(known: Option<U64>)

  type Types = seq<TypeDef>

  datatype MemberRef = Index(index: nat) | Named(name: Name)

  datatype Step = Member(at: MemberRef) | Deref | Variant(name: Name) | ActiveVariant

  // ----- addresses

  ghost predicate IsNamed(names: seq<Name>, name: Name, i: nat) {
    i < |names| && names[i] == name
  }

  function FirstNamed(names: seq<Name>, name: Name, from: nat): (r: nat)
    requires from <= |names|
    ensures from <= r <= |names|
    ensures r < |names| ==> names[r] == name
    ensures forall i | from <= i < r :: names[i] != name
    decreases |names| - from
  {
    if from == |names| || names[from] == name then from else FirstNamed(names, name, from + 1)
  }

  /** The one position that bears a name; a name borne twice addresses nothing. */
  function UniqueNamed(names: seq<Name>, name: Name): (r: Option<nat>)
    ensures r.Some? <==> exists i: nat :: IsNamed(names, name, i) && forall j: nat | IsNamed(names, name, j) :: j == i
    ensures r.Some? ==> IsNamed(names, name, r.value)
  {
    var first := FirstNamed(names, name, 0);
    if first == |names| then None
    else if FirstNamed(names, name, first + 1) == |names| then
      assert IsNamed(names, name, first);
      Some(first)
    else
      assert IsNamed(names, name, first) && IsNamed(names, name, FirstNamed(names, name, first + 1));
      None
  }

  function Resolve(at: MemberRef, names: seq<Name>): (r: Option<nat>)
    ensures r.Some? ==> r.value < |names|
  {
    match at
    case Index(index) => if index < |names| then Some(index) else None
    case Named(name) => UniqueNamed(names, name)
  }

  function MemberNames(members: seq<MemberDef>): seq<Name> {
    seq(|members|, i requires 0 <= i < |members| => members[i].name)
  }

  function VariantNames(variants: seq<VariantDef>): seq<Name> {
    seq(|variants|, i requires 0 <= i < |variants| => variants[i].name)
  }

  /** Position `i` is the one an address means: the position given, or the only one of the name. */
  ghost predicate Picks(members: seq<MemberDef>, at: MemberRef, i: nat) {
    && i < |members|
    && match at
       case Index(index) => i == index
       case Named(name) => members[i].name == name && forall j | 0 <= j < |members| && members[j].name == name :: j == i
  }

  ghost predicate PicksVariant(variants: seq<VariantDef>, name: Name, i: nat) {
    && i < |variants| && variants[i].name == name
    && forall j | 0 <= j < |variants| && variants[j].name == name :: j == i
  }

  function MemberAt(members: seq<MemberDef>, at: MemberRef): Option<MemberDef> {
    match Resolve(at, MemberNames(members))
    case Some(i) => Some(members[i])
    case None => None
  }

  function VariantNamed(variants: seq<VariantDef>, name: Name): Option<VariantDef> {
    match UniqueNamed(VariantNames(variants), name)
    case Some(i) => Some(variants[i])
    case None => None
  }

  lemma SoleName(names: seq<Name>, name: Name, i: nat)
    requires i < |names|
    ensures UniqueNamed(names, name) == Some(i)
            <==> names[i] == name && forall j | 0 <= j < |names| && names[j] == name :: j == i
  {
    if UniqueNamed(names, name) == Some(i) {
      forall j | 0 <= j < |names| && names[j] == name
        ensures j == i
      {
        assert IsNamed(names, name, j);
      }
    }
    if names[i] == name && forall j | 0 <= j < |names| && names[j] == name :: j == i {
      assert IsNamed(names, name, i);
    }
  }

  /** An address finds a member exactly when it means one position, and then the member there. */
  lemma MemberFound(members: seq<MemberDef>, at: MemberRef, m: MemberDef)
    ensures MemberAt(members, at) == Some(m) <==> exists i: nat :: Picks(members, at, i) && members[i] == m
  {
    var names := MemberNames(members);
    var found := Resolve(at, names);
    if found.Some? {
      PickedAt(members, at, found.value);
    }
    if i: nat :| Picks(members, at, i) && members[i] == m {
      PickedAt(members, at, i);
    }
  }

  lemma PickedAt(members: seq<MemberDef>, at: MemberRef, i: nat)
    requires i < |members|
    ensures Resolve(at, MemberNames(members)) == Some(i) <==> Picks(members, at, i)
  {
    if at.Named? {
      SoleName(MemberNames(members), at.name, i);
      assert forall j | 0 <= j < |members| :: MemberNames(members)[j] == members[j].name;
    }
  }

  lemma VariantFound(variants: seq<VariantDef>, name: Name, v: VariantDef)
    ensures VariantNamed(variants, name) == Some(v)
            <==> exists i: nat :: PicksVariant(variants, name, i) && variants[i] == v
  {
    var names := VariantNames(variants);
    var found := UniqueNamed(names, name);
    assert forall j | 0 <= j < |variants| :: names[j] == variants[j].name;
    if found.Some? {
      SoleName(names, name, found.value);
      assert PicksVariant(variants, name, found.value);
    }
    if i: nat :| PicksVariant(variants, name, i) && variants[i] == v {
      SoleName(names, name, i);
    }
  }

  /** Every type a type leads to is in the table. */
  ghost predicate InRange(types: Types) {
    forall id | 0 <= id < |types| :: LeadsWithin(types[id], |types|)
  }

  ghost predicate LeadsWithin(def: TypeDef, n: nat) {
    match def
    case Pointer(target) => target < n
    case Array(elem, _) => elem < n
    case Struct(_, members) => forall i | 0 <= i < |members| :: members[i].ty < n
    case Union(_, members) => forall i | 0 <= i < |members| :: members[i].ty < n
    case Enum(_, variants) => forall i | 0 <= i < |variants| :: variants[i].payload.ty < n
    case _ => true
  }

  // ----- sizes

  ghost function Ids(types: Types): (r: set<Id>)
    ensures forall i: nat :: i in r <==> i < |types|
  {
    if types == [] then {} else Ids(types[..|types| - 1]) + {|types| - 1}
  }

  /** The size of `id`, coming from the arrays in `seen`, whose element chain it must not
  rejoin. */
  function SizeFrom(types: Types, id: Id, seen: set<Id>): Option<U64>
    decreases Ids(types) - seen
  {
    if id in seen || id >= |types| then None
    else
      match types[id]
      case Base(size) => Some(size)
      case Struct(size, _) => Some(size)
      case Union(size, _) => Some(size)
      case Enum(size, _) => Some(size)
      case CEnum(size) => Some(size)
      case Pointer(_) => Some(POINTER_SIZE)
      case Opaque(known) => known
      case Array(elem, count) =>
        assert id in Ids(types) - seen;
        match SizeFrom(types, elem, seen + {id})
        case None => None
        case Some(size) => CheckedMul(size, count)
  }

  function SizeOf(types: Types, id: Id): Option<U64> {
    SizeFrom(types, id, {})
  }

  lemma {:induction false} SizeForgets(types: Types, id: Id, seen: set<Id>, fewer: set<Id>)
    requires fewer <= seen && SizeFrom(types, id, seen).Some?
    ensures SizeFrom(types, id, fewer) == SizeFrom(types, id, seen)
    decreases Ids(types) - seen
  {
    if types[id].Array? {
      assert id in Ids(types) - seen;
      SizeForgets(types, types[id].elem, seen + {id}, fewer + {id});
    }
  }

  /** A chain that ends does not come through an array it has already left the element of. */
  lemma {:induction false} SizeAvoids(types: Types, id: Id, seen: set<Id>, outer: Id)
    requires outer < |types| && types[outer].Array? && types[outer].elem in seen + {id}
    requires SizeFrom(types, id, seen).Some?
    ensures SizeFrom(types, id, seen + {outer}) == SizeFrom(types, id, seen)
    decreases Ids(types) - seen
  {
    if types[id].Array? {
      assert id in Ids(types) - seen;
      if id != outer {
        SizeAvoids(types, types[id].elem, seen + {id}, outer);
        assert seen + {id} + {outer} == seen + {outer} + {id};
      }
    }
  }

  /** The guard is not seen from outside: an array is as large as its elements together, when
  their size is known and the product fits. */
  lemma ArraySize(types: Types, id: Id)
    requires id < |types| && types[id].Array?
    ensures SizeOf(types, id)
            == match SizeOf(types, types[id].elem)
               case None => None
               case Some(size) => CheckedMul(size, types[id].count)
  {
    var elem := types[id].elem;
    assert {} + {id} == {id};
    if SizeFrom(types, elem, {id}).Some? {
      SizeForgets(types, elem, {id}, {});
    } else if SizeOf(types, elem).Some? {
      SizeAvoids(types, elem, {}, id);
    }
  }

  // ----- exactly which types have a size

  /** The size a type gives itself; an array has none of its own. */
  function Declared(def: TypeDef): Option<U64> {
    if def.Array? then None
    else if def.Pointer? then Some(8)
    else if def.Opaque? then def.known
    else Some(def.size)
  }

  /** Some number of elements in, a type declares its size; outward from there the products with the
  counts fit, and `id` takes `n` bytes. */
  ghost predicate Measures(types: Types, id: Id, n: nat, depth: nat)
    decreases depth
  {
    && id < |types| && n < 0x1_0000_0000_0000_0000
    && if types[id].Array? then
         depth > 0 && exists m: nat :: Measures(types, types[id].elem, m, depth - 1) && n == m * types[id].count
       else
         Declared(types[id]) == Some(n)
  }

  lemma {:induction false} SizeMeasures(types: Types, id: Id, seen: set<Id>) returns (depth: nat)
    requires SizeFrom(types, id, seen).Some?
    ensures Measures(types, id, SizeFrom(types, id, seen).value, depth)
    decreases Ids(types) - seen
  {
    depth := 0;
    if types[id].Array? {
      assert id in Ids(types) - seen;
      var rest := SizeMeasures(types, types[id].elem, seen + {id});
      depth := rest + 1;
      assert Measures(types, types[id].elem, SizeFrom(types, types[id].elem, seen + {id}).value, depth - 1);
    }
  }

  lemma {:induction false} MeasuredSize(types: Types, id: Id, n: nat, depth: nat)
    requires Measures(types, id, n, depth)
    ensures SizeOf(types, id) == Some(n)
    decreases depth
  {
    if types[id].Array? {
      var m: nat :| Measures(types, types[id].elem, m, depth - 1) && n == m * types[id].count;
      MeasuredSize(types, types[id].elem, m, depth - 1);
      ArraySize(types, id);
    }
  }

  /** A type has a size exactly when its chain of elements comes to a type that declares its own, and
  the products fit all the way back. */
  lemma SizeExactly(types: Types, id: Id, n: U64)
    ensures SizeOf(types, id) == Some(n) <==> exists depth: nat :: Measures(types, id, n, depth)
  {
    if SizeOf(types, id) == Some(n) {
      var depth := SizeMeasures(types, id, {});
      assert Measures(types, id, n, depth);
    }
    if depth: nat :| Measures(types, id, n, depth) {
      MeasuredSize(types, id, n, depth);
    }
  }
}
