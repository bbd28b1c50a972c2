/** What goes into one group, and which definition of a class the others are aliased to: the one that
records most, by how long its lists are, and of two that record as much the lower. */
module Canonicals {
  import opened RawTypes
  import opened Substitution
  import opened Layout
  import opened Signature
  import opened Groups
  import opened GroupFacts
  import opened Passes
  import opened Grouping
  import opened Coarsest

  // ----- one group

  ghost predicate Alike(a: RawType, b: RawType) {
    && (a.Base? <==> b.Base?) && (a.Pointer? <==> b.Pointer?) && (a.Enum? <==> b.Enum?)
    && (a.Struct? <==> b.Struct?) && (a.Union? <==> b.Union?) && (a.Array? <==> b.Array?)
  }

  /** The two are declared alike: as the same sort of type, under one name in one namespace. */
  ghost predicate Namesakes(a: RawType, b: RawType) {
    && Alike(a, b) && !a.Array? && a.name.Some? && a.name == b.name
    && (a.Pointer? || a.namespace == b.namespace)
  }

  lemma KeysOfNamesakes(table: Table, x: TypeId, y: TypeId)
    ensures table.IsNamed(x) <==> x in table.types && !table.types[x].Array? && table.types[x].name.Some?
    ensures table.IsNamed(x) && table.IsNamed(y) ==>
              (table.Key(x) == table.Key(y) <==> Namesakes(table.types[x], table.types[y]))
  {
  }

  /** Two named types are in one group exactly when they are declared alike. */
  lemma GroupedNamesakes(table: Table, groups: seq<seq<TypeId>>, g: nat, x: TypeId, y: TypeId)
    requires Grouped(table, groups) && g < |groups| && x in groups[g]
    ensures x in table.types
    ensures y in groups[g] <==> y in table.types && Namesakes(table.types[x], table.types[y])
  {
    MembersNamed(table, groups, g, x);
    assert table.Key(x) == table.Key(groups[g][0]);
    KeysOfNamesakes(table, y, x);
    KeysOfNamesakes(table, x, y);
  }

  // ----- the order of definitions

  /** How many entries a definition records that count double: members and variants. */
  ghost function Doubles(ty: RawType): nat {
    match ty
    case Struct(_, _, _, members, _) => |members|
    case Union(_, _, _, members, _) => |members|
    case Enum(_, _, _, _, Many(_, variants), _) => |variants|
    case _ => 0
  }

  /** And how many that count once: parameters, enumerators, a discriminant or a lone variant. */
  ghost function Singles(ty: RawType): nat {
    match ty
    case Struct(_, _, _, _, params) => |params|
    case Union(_, _, _, _, params) => |params|
    case Enum(_, _, _, _, One(_), params) => 1 + |params|
    case Enum(_, _, _, _, Many(discr, _), params) => (if discr.Some? then 1 else 0) + |params|
    case Enum(_, _, _, _, CStyle(_, enumerators), params) => |enumerators| + |params|
    case Enum(_, _, _, _, Zero, params) => |params|
    case _ => 0
  }

  /** `a` records more than `b`. */
  ghost predicate Fuller(a: RawType, b: RawType) {
    2 * (Doubles(a) - Doubles(b)) > Singles(b) - Singles(a)
  }

  lemma DetailIsFuller(a: RawType, b: RawType)
    requires Alike(a, b)
    ensures a.Detail() > b.Detail() <==> Fuller(a, b)
  {
  }

  /** Of two definitions of one sort, `y` comes before `x`. */
  ghost predicate Outranks(table: Table, y: TypeId, x: TypeId)
    requires x in table.types && y in table.types
  {
    Fuller(table.types[y], table.types[x]) || (!Fuller(table.types[x], table.types[y]) && y < x)
  }

  ghost predicate OneSort(table: Table, ids: set<TypeId>) {
    && (forall x | x in ids :: x in table.types)
    && forall x, y | x in ids && y in ids :: Alike(table.types[x], table.types[y])
  }

  lemma BeforeOutranks(table: Table, ids: set<TypeId>, y: TypeId, x: TypeId)
    requires OneSort(table, ids) && x in ids && y in ids
    ensures Before(Details(table, ids), y, x) <==> Outranks(table, y, x)
  {
    DetailIsFuller(table.types[x], table.types[y]);
    DetailIsFuller(table.types[y], table.types[x]);
  }

  /** A group's definitions are of one sort. */
  lemma DefinitionsOneSort(p: Partition, groups: seq<seq<TypeId>>, g: nat)
    requires Grouped(p.table, groups) && GroupClosed(p.table, p.base) && g < |groups|
    ensures OneSort(p.table, Definitions(p, groups[g]))
  {
    ResolvedInGroup(p, groups, g);
    forall x, y | x in Definitions(p, groups[g]) && y in Definitions(p, groups[g])
      ensures x in p.table.types && y in p.table.types && Alike(p.table.types[x], p.table.types[y])
    {
      GroupedNamesakes(p.table, groups, g, x, y);
    }
  }

  /** The definitions are taken in that order, each once. */
  lemma TakenByRank(p: Partition, ids: seq<TypeId>, i: nat, j: nat)
    requires OneSort(p.table, Definitions(p, ids)) && i < j < |OrderedDefinitions(p, ids)|
    ensures var order := OrderedDefinitions(p, ids);
            && order[i] in Definitions(p, ids) && order[j] in Definitions(p, ids)
            && Outranks(p.table, order[i], order[j])
  {
    var order := OrderedDefinitions(p, ids);
    assert order[i] in order && order[j] in order;
    BeforeOutranks(p.table, Definitions(p, ids), order[i], order[j]);
  }

  // ----- the canonical of a class

  lemma AliasOfDefinition(p: Partition, ids: seq<TypeId>, x: TypeId)
    requires x in Definitions(p, ids) && x in AliasMap(Result(p, ids).aliases)
    ensures var head := AliasMap(Result(p, ids).aliases)[x];
            && head in Definitions(p, ids) && Before(Details(p.table, Definitions(p, ids)), head, x)
            && p.CompatibleLayout(head, x)
  {
    ClassesOfFacts(p, ids);
    var classes := ClassesOf(p, ids);
    assert x in OrderedDefinitions(p, ids);
    var j :| 0 <= j < |classes| && x in classes[j];
    DefinitionLookup(p, ids, j, x);
    assert classes[j][0] in classes[j];
    assert classes[j][0] in OrderedDefinitions(p, ids);
  }

  /** A definition is aliased only to one that records more, or as much under a lower id. */
  lemma CanonicalOutranks(p: Partition, ids: seq<TypeId>, x: TypeId)
    requires OneSort(p.table, Definitions(p, ids)) && x in Definitions(p, ids)
    requires x in AliasMap(Result(p, ids).aliases)
    ensures var head := AliasMap(Result(p, ids).aliases)[x];
            head in Definitions(p, ids) && p.CompatibleLayout(head, x) && Outranks(p.table, head, x)
  {
    AliasOfDefinition(p, ids, x);
    BeforeOutranks(p.table, Definitions(p, ids), AliasMap(Result(p, ids).aliases)[x], x);
  }

  ghost predicate SameOrMore<T(!new)>(a: seq<T>, b: seq<T>) {
    b == [] || |a| == |b|
  }

  ghost predicate More<T(!new)>(a: seq<T>, b: seq<T>) {
    b == [] && a != []
  }

  /** `a` fills at the same length all that `b` fills, and something besides. */
  ghost predicate FillsMore(a: RawType, b: RawType) {
    match (a, b)
    case (Struct(_, _, _, m, p), Struct(_, _, _, n, q)) =>
      SameOrMore(m, n) && SameOrMore(p, q) && (More(m, n) || More(p, q))
    case (Union(_, _, _, m, p), Union(_, _, _, n, q)) =>
      SameOrMore(m, n) && SameOrMore(p, q) && (More(m, n) || More(p, q))
    case (Enum(_, _, _, _, Many(d, v), p), Enum(_, _, _, _, Many(e, w), q)) =>
      && SameOrMore(v, w) && SameOrMore(p, q) && (e.Some? ==> d.Some?)
      && (More(v, w) || More(p, q) || (e.None? && d.Some?))
    case (Enum(_, _, _, _, CStyle(_, v), p), Enum(_, _, _, _, CStyle(_, w), q)) =>
      SameOrMore(v, w) && SameOrMore(p, q) && (More(v, w) || More(p, q))
    case (Enum(_, _, _, _, s, p), Enum(_, _, _, _, t, q)) =>
      ((s.Zero? && t.Zero?) || (s.One? && t.One?)) && SameOrMore(p, q) && More(p, q)
    case _ => false
  }

  /** What fills more than another is never aliased to it: it leads their class. */
  lemma FullestLeads(p: Partition, ids: seq<TypeId>, x: TypeId)
    requires OneSort(p.table, Definitions(p, ids)) && x in Definitions(p, ids)
    requires x in AliasMap(Result(p, ids).aliases)
    ensures var head := AliasMap(Result(p, ids).aliases)[x];
            head in p.table.types && !FillsMore(p.table.types[x], p.table.types[head])
  {
    CanonicalOutranks(p, ids, x);
    var head := AliasMap(Result(p, ids).aliases)[x];
    MoreIsFuller(p.table.types[x], p.table.types[head]);
  }

  lemma MoreIsFuller(a: RawType, b: RawType)
    ensures FillsMore(a, b) ==> Fuller(a, b) && !Fuller(b, a)
  {
  }

  // ----- exactly which definition it is

  lemma RanksApart(table: Table, x: TypeId, y: TypeId)
    requires x in table.types && y in table.types && x != y
    ensures Outranks(table, x, y) <==> !Outranks(table, y, x)
  {
  }

  /** Compatible definitions of a group are in one class. */
  lemma CompatibleInClass(p: Partition, groups: seq<seq<TypeId>>, i: nat, j: nat, x: TypeId, z: TypeId)
    requires Uniform(p.table, groups, p.base) && i < |groups|
    requires j < |ClassesOf(p, groups[i])| && x in ClassesOf(p, groups[i])[j] && z in Definitions(p, groups[i])
    ensures p.CompatibleLayout(z, x) <==> z in ClassesOf(p, groups[i])[j]
  {
    ClassesOfFacts(p, groups[i]);
    var k :| 0 <= k < |ClassesOf(p, groups[i])| && z in ClassesOf(p, groups[i])[k];
    ClassIsLayout(p, groups, i, k, j, z, x);
    CompatibleIsSame(p, groups, z, x);
  }

  ghost predicate LeadsAll(p: Partition, ids: seq<TypeId>, x: TypeId, h: TypeId)
    requires OneSort(p.table, Definitions(p, ids)) && h in Definitions(p, ids)
  {
    && p.CompatibleLayout(h, x)
    && forall z | z in Definitions(p, ids) && p.CompatibleLayout(z, x) :: z == h || Outranks(p.table, h, z)
  }

  lemma HeadLeadsAll(p: Partition, groups: seq<seq<TypeId>>, i: nat, j: nat, x: TypeId)
    requires Uniform(p.table, groups, p.base) && i < |groups| && OneSort(p.table, Definitions(p, groups[i]))
    requires j < |ClassesOf(p, groups[i])| && x in ClassesOf(p, groups[i])[j]
    ensures ClassesOf(p, groups[i])[j][0] in Definitions(p, groups[i])
    ensures LeadsAll(p, groups[i], x, ClassesOf(p, groups[i])[j][0])
  {
    var ids, head := groups[i], ClassesOf(p, groups[i])[j][0];
    MemberOfClass(p, ids, j, x);
    ClassesOfFacts(p, ids);
    assert head in ClassesOf(p, ids)[j];
    CompatibleInClass(p, groups, i, j, x, head);
    forall z | z in Definitions(p, ids) && p.CompatibleLayout(z, x)
      ensures z == head || Outranks(p.table, head, z)
    {
      CompatibleInClass(p, groups, i, j, x, z);
      if z != head {
        BeforeOutranks(p.table, Definitions(p, ids), head, z);
      }
    }
  }

  /** A pass sends a definition to the highest ranked of those compatible with it. */
  lemma CanonicalExactly(p: Partition, groups: seq<seq<TypeId>>, i: nat, x: TypeId, h: TypeId)
    requires Uniform(p.table, groups, p.base) && i < |groups| && |groups[i]| != 1
    requires x in Definitions(p, groups[i]) && h in Definitions(p, groups[i])
    ensures OneSort(p.table, Definitions(p, groups[i]))
    ensures Canon(PassMap(p, groups), x) == h <==> LeadsAll(p, groups[i], x, h)
  {
    DefinitionsOneSort(p, groups, i);
    ResolvedInGroup(p, groups, i);
    var j := DefinitionCanon(p, groups, i, x);
    var head := ClassesOf(p, groups[i])[j][0];
    HeadLeadsAll(p, groups, i, j, x);
    if LeadsAll(p, groups[i], x, h) && h != head {
      RanksApart(p.table, h, head);
    }
  }
}
