/** The collected DWARF types as the identity passes see them.

Strings and namespaces are interned ids, type ids are offsets in the reader's id
space. Source locations take no part in identity and are not modelled.
 */
module RawTypes {
  datatype Option<+T> = None | Some(value: T)

  type TypeId = nat
  type StrId = nat
  type NsId = nat

  datatype Encoding = Unsigned | Signed | Float | Boolean | Character | OtherEncoding(code: nat)

  datatype Member = Member(name: Option<StrId>, offset: nat, ty: TypeId)

  datatype Param = Param(name: Option<StrId>, ty: TypeId)

  datatype DiscrBits = DiscrBits(bits: nat, width: nat)

  datatype Enumerator = Enumerator(name: StrId, value: DiscrBits)

  datatype Variant = Variant(discr: Option<DiscrBits>, member: Member)

  datatype VariantShape =
    | Zero
    | One(member: Member)
    | Many(discr: Option<Member>, variants: seq<Variant>)
    | CStyle(repr: Option<TypeId>, enumerators: seq<Enumerator>)

  datatype RawType =
    | Base(name: Option<StrId>, namespace: Option<NsId>, encoding: Encoding, size: nat, alignment: Option<nat>)
    | Pointer(name: Option<StrId>, target: TypeId)
    | Enum(name: Option<StrId>, namespace: Option<NsId>, size: nat, alignment: Option<nat>,
           shape: VariantShape, params: seq<Param>)
    | Struct(name: Option<StrId>, namespace: Option<NsId>, size: nat, members: seq<Member>, params: seq<Param>)
    | Union(name: Option<StrId>, namespace: Option<NsId>, size: nat, members: seq<Member>, params: seq<Param>)
    | Array(elem: TypeId, count: nat)
  {
    function Name(): Option<StrId> {
      if Array? then None else name
    }

    function Namespace(): Option<NsId> {
      if Array? || Pointer? then None else namespace
    }

    function Kind(): nat {
      match this
      case Base(_, _, _, _, _) => 0
      case Pointer(_, _) => 1
      case Enum(_, _, _, _, _, _) => 2
      case Struct(_, _, _, _, _) => 3
      case Union(_, _, _, _, _) => 4
      case Array(_, _) => 5
    }

    /** How complete a definition is: the canonical of a class is its most detailed member. */
    function Detail(): nat {
      match this
      case Base(_, _, _, _, _) => 1
      case Pointer(_, _) => 2
      case Array(_, _) => 2
      case Struct(_, _, _, members, params) => |members| * 2 + |params| + 1
      case Union(_, _, _, members, params) => |members| * 2 + |params| + 1
      case Enum(_, _, _, _, shape, params) => ShapeDetail(shape) + |params| + 1
    }
  }

  function ShapeDetail(shape: VariantShape): nat {
    match shape
    case Zero => 0
    case One(_) => 1
    case Many(discr, variants) => |variants| * 2 + (if discr.Some? then 1 else 0)
    case CStyle(_, enumerators) => |enumerators|
  }

  /** Kind, namespace and name: what a named type is grouped under. */
  type GroupKey = (nat, Option<NsId>, StrId)

  /** What the alias passes read and never write: the types, which of their DIEs are
  declarations, and the ids of the function signatures. */
  datatype Table = Table(types: map<TypeId, RawType>, declarations: set<TypeId>, subroutines: set<TypeId>)
  {
    function Key(id: TypeId): Option<GroupKey> {
      if id in types && types[id].Name().Some? then
        Some((types[id].Kind(), types[id].Namespace(), types[id].Name().value))
      else
        None
    }

    predicate IsNamed(id: TypeId) {
      id in types && types[id].Name().Some?
    }

    predicate IsAnonymous(id: TypeId) {
      id in types && types[id].Name().None? && (types[id].Pointer? || types[id].Array?)
    }

    function Detail(id: TypeId): nat {
      if id in types then types[id].Detail() else 0
    }
  }
}
