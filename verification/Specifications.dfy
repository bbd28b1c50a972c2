/** Folding specification links: section 2.13.2 of DWARF 5 lets a definition complete a
declaration elsewhere, and the two are one type under either's id. */
module Specifications {
  import opened RawTypes
  import opened Substitution
  import opened Groups
  import opened Passes
  import opened Grouping

  /** The definition of the two; between equals, the lower id. */
  function CanonicalOf(declared: set<TypeId>, definition: TypeId, declaration: TypeId): TypeId {
    if definition !in declared && declaration in declared then definition
    else if definition in declared && declaration !in declared then declaration
    else if definition <= declaration then definition
    else declaration
  }

  function DuplicateOf(declared: set<TypeId>, definition: TypeId, declaration: TypeId): TypeId {
    if CanonicalOf(declared, definition, declaration) == definition then declaration else definition
  }

  function Fold(declared: set<TypeId>, base: map<TypeId, TypeId>, definition: TypeId,
                declaration: TypeId): map<TypeId, TypeId> {
    base[DuplicateOf(declared, definition, declaration) := CanonicalOf(declared, definition, declaration)]
  }

  /** The link of `d` folds `x` away. */
  ghost predicate Folds(specs: map<TypeId, TypeId>, declared: set<TypeId>, d: TypeId, x: TypeId) {
    d in specs && DuplicateOf(declared, d, specs[d]) == x
  }

  /** Each id some link of `done` folds is sent where the last of them, by id, sends it. */
  ghost predicate FoldedAt(specs: map<TypeId, TypeId>, declared: set<TypeId>, done: set<TypeId>,
                           base: map<TypeId, TypeId>, x: TypeId) {
    && (x in base <==> exists d: TypeId :: d in done && Folds(specs, declared, d, x))
    && (x in base ==> exists d: TypeId :: LastWord(specs, declared, done, base, x, d))
  }

  ghost predicate LastWord(specs: map<TypeId, TypeId>, declared: set<TypeId>, done: set<TypeId>,
                           base: map<TypeId, TypeId>,
                           x: TypeId, d: TypeId)
    requires x in base
  {
    && d in done && Folds(specs, declared, d, x) && base[x] == CanonicalOf(declared, d, specs[d])
    && forall e | e in done && Folds(specs, declared, e, x) :: e <= d
  }

  ghost predicate IsBase(specs: map<TypeId, TypeId>, declared: set<TypeId>, done: set<TypeId>,
                         base: map<TypeId, TypeId>) {
    forall x: TypeId :: FoldedAt(specs, declared, done, base, x)
  }

  lemma FoldOneMore(specs: map<TypeId, TypeId>, declared: set<TypeId>, done: set<TypeId>, base: map<TypeId, TypeId>,
                    d: TypeId)
    requires IsBase(specs, declared, done, base) && d in specs && forall e | e in done :: e < d
    ensures IsBase(specs, declared, done + {d},
                   Fold(declared, base, d, specs[d]))
  {
    var dup := DuplicateOf(declared, d, specs[d]);
    var next := Fold(declared, base, d, specs[d]);
    forall x: TypeId
      ensures FoldedAt(specs, declared, done + {d}, next, x)
    {
      assert FoldedAt(specs, declared, done, base, x);
      if x == dup {
        assert d in done + {d} && Folds(specs, declared, d, x);
        assert LastWord(specs, declared, done + {d}, next, x, d);
      } else if x in base {
        var e :| LastWord(specs, declared, done, base, x, e);
        assert LastWord(specs, declared, done + {d}, next, x, e);
      }
    }
  }

  // ----- names a definition takes from its declaration

  function Or<T>(a: Option<T>, b: Option<T>): Option<T> {
    if a.Some? then a else b
  }

  function Inherited(definition: RawType, declaration: RawType): RawType {
    match (definition, declaration)
    case (Base(n, ns, encoding, size, alignment), Base(m, ms, _, _, _)) =>
      Base(Or(n, m), Or(ns, ms), encoding, size, alignment)
    case (Pointer(n, target), Pointer(m, _)) => Pointer(Or(n, m), target)
    case (Enum(n, ns, size, alignment, shape, params), Enum(m, ms, _, _, _, _)) =>
      Enum(Or(n, m), Or(ns, ms), size, alignment, shape, params)
    case (Struct(n, ns, size, members, params), Struct(m, ms, _, _, _)) =>
      Struct(Or(n, m), Or(ns, ms), size, members, params)
    case (Union(n, ns, size, members, params), Union(m, ms, _, _, _)) =>
      Union(Or(n, m), Or(ns, ms), size, members, params)
    case _ => definition
  }

  function Inherit(types: map<TypeId, RawType>, definition: TypeId, declaration: TypeId): map<TypeId, RawType> {
    if declaration in types && definition in types then
      types[definition := Inherited(types[definition], types[declaration])]
    else types
  }

  function InheritAll(types: map<TypeId, RawType>, specs: map<TypeId, TypeId>, order: seq<TypeId>): map<TypeId, RawType>
    requires forall d | d in order :: d in specs
  {
    if order == [] then types
    else
      var last := order[|order| - 1];
      Inherit(InheritAll(types, specs, order[..|order| - 1]), last, specs[last])
  }

  lemma InheritOneMore(types: map<TypeId, RawType>, specs: map<TypeId, TypeId>, order: seq<TypeId>, i: nat)
    requires i < |order| && forall d | d in order :: d in specs
    ensures InheritAll(types, specs, order[..i + 1])
            == Inherit(InheritAll(types, specs, order[..i]), order[i], specs[order[i]])
  {
    assert order[..i + 1][..i] == order[..i] && order[..i + 1][i] == order[i];
  }

  ghost function Through(order: seq<TypeId>, i: nat): set<TypeId>
    requires i <= |order|
  {
    set d | d in order[..i]
  }

  lemma ThroughOneMore(order: seq<TypeId>, i: nat)
    requires i < |order| && forall j, k | 0 <= j < k < |order| :: order[j] < order[k]
    ensures Through(order, i + 1) == Through(order, i) + {order[i]}
    ensures forall e | e in Through(order, i) :: e < order[i]
  {
    assert order[..i + 1] == order[..i] + [order[i]];
  }

  lemma FoldEnds(specs: map<TypeId, TypeId>, declared: set<TypeId>)
    ensures var order := Ascending(specs.Keys);
            Through(order, 0) == {} && Through(order, |order|) == specs.Keys && order[..|order|] == order
    ensures IsBase(specs, declared, {}, map[])
  {
  }

  lemma FoldNext(specs: map<TypeId, TypeId>, declared: set<TypeId>, order: seq<TypeId>, i: nat,
                 base: map<TypeId, TypeId>)
    requires order == Ascending(specs.Keys) && i < |order| && IsBase(specs, declared, Through(order, i), base)
    ensures order[i] in specs && IsBase(specs, declared, Through(order, i + 1),
                                        Fold(declared, base, order[i], specs[order[i]]))
  {
    assert order[i] in order;
    ThroughOneMore(order, i);
    FoldOneMore(specs, declared, Through(order, i), base, order[i]);
  }

  /** Links folded in id order. */
  method FoldSpecifications(types: map<TypeId, RawType>, declared: set<TypeId>, specs: map<TypeId, TypeId>)
    returns (named: map<TypeId, RawType>, base: map<TypeId, TypeId>)
    ensures named == InheritAll(types, specs, Ascending(specs.Keys))
    ensures IsBase(specs, declared, specs.Keys, base)
  {
    var order := Ascending(specs.Keys);
    named, base := types, map[];
    FoldEnds(specs, declared);
    for i := 0 to |order|
      invariant named == InheritAll(types, specs, order[..i])
      invariant IsBase(specs, declared, Through(order, i), base)
    {
      InheritOneMore(types, specs, order, i);
      FoldNext(specs, declared, order, i, base);
      var d := order[i];
      named := Inherit(named, d, specs[d]);
      base := Fold(declared, base, d, specs[d]);
    }
  }

  // ----- when the folded links have no cycle

  /** A DIE given as its own specification, which no later definition of it folds away. */
  ghost predicate SelfLinked(specs: map<TypeId, TypeId>, declared: set<TypeId>, x: TypeId) {
    && x in specs && specs[x] == x
    && !(x in declared && exists y: TypeId :: y > x && y in specs && specs[y] == x && y !in declared)
  }

  lemma LoopIsSelfLink(specs: map<TypeId, TypeId>, declared: set<TypeId>, base: map<TypeId, TypeId>, x: TypeId)
    requires IsBase(specs, declared, specs.Keys, base)
    ensures x in base && base[x] == x <==> SelfLinked(specs, declared, x)
  {
    assert FoldedAt(specs, declared, specs.Keys, base, x);
    if x in base && base[x] == x {
      var d: TypeId :| LastWord(specs, declared, specs.Keys, base, x, d);
      assert d == x && specs[x] == x;
      forall y: TypeId | y > x && y in specs && specs[y] == x && x in declared
        ensures y in declared
      {
        assert y !in declared ==> Folds(specs, declared, y, x);
      }
    }
    if SelfLinked(specs, declared, x) {
      assert x in specs.Keys && Folds(specs, declared, x, x);
      var d: TypeId :| LastWord(specs, declared, specs.Keys, base, x, d);
      if d != x {
        assert false;
      }
    }
  }

  /** But for such loops every link goes down: from declaration to definition, else to the
  lower id. */
  lemma FoldedDescends(table: Table, specs: map<TypeId, TypeId>, base: map<TypeId, TypeId>)
    requires IsBase(specs, table.declarations, specs.Keys, base)
    ensures BaseDescends(table, base) <==> forall x: TypeId :: !SelfLinked(specs, table.declarations, x)
  {
    forall x | x in base
      ensures LowerInBase(table, base[x], x) || SelfLinked(specs, table.declarations, x)
    {
      LoopIsSelfLink(specs, table.declarations, base, x);
      assert FoldedAt(specs, table.declarations, specs.Keys, base, x);
      var d :| LastWord(specs, table.declarations, specs.Keys, base, x, d);
    }
    forall x: TypeId | SelfLinked(specs, table.declarations, x)
      ensures x in base && !LowerInBase(table, base[x], x)
    {
      LoopIsSelfLink(specs, table.declarations, base, x);
    }
  }

  /** The chase through the folded links ends for every id exactly when no DIE is left as its
  own specification. */
  lemma FoldedAcyclic(table: Table, specs: map<TypeId, TypeId>, base: map<TypeId, TypeId>)
    requires IsBase(specs, table.declarations, specs.Keys, base)
    ensures Acyclic(base) <==> forall x: TypeId :: !SelfLinked(specs, table.declarations, x)
  {
    FoldedDescends(table, specs, base);
    if BaseDescends(table, base) {
      BaseIsAcyclic(table, base);
    }
    if x: TypeId :| SelfLinked(specs, table.declarations, x) {
      LoopIsSelfLink(specs, table.declarations, base, x);
    }
  }

  // ----- what inheriting names does and does not change

  function Unnamed(ty: RawType): RawType {
    match ty
    case Base(_, _, encoding, size, alignment) => Base(None, None, encoding, size, alignment)
    case Pointer(_, target) => Pointer(None, target)
    case Enum(_, _, size, alignment, shape, params) => Enum(None, None, size, alignment, shape, params)
    case Struct(_, _, size, members, params) => Struct(None, None, size, members, params)
    case Union(_, _, size, members, params) => Union(None, None, size, members, params)
    case Array(_, _) => ty
  }

  /** Only absent names are filled in, and nothing else of a type changes. */
  ghost predicate OnlyNamed(before: RawType, after: RawType) {
    && Unnamed(after) == Unnamed(before)
    && (before.Name().Some? ==> after.Name() == before.Name())
    && (before.Namespace().Some? ==> after.Namespace() == before.Namespace())
  }

  lemma InheritedOnlyNamed(original: RawType, definition: RawType, declaration: RawType)
    requires OnlyNamed(original, definition)
    ensures OnlyNamed(original, Inherited(definition, declaration))
  {
  }

  lemma {:induction false} InheritOnlyNames(types: map<TypeId, RawType>, specs: map<TypeId, TypeId>, order: seq<TypeId>)
    requires forall d | d in order :: d in specs
    ensures var named := InheritAll(types, specs, order);
            named.Keys == types.Keys && forall x | x in types :: OnlyNamed(types[x], named[x])
  {
    if order != [] {
      var before, last := InheritAll(types, specs, order[..|order| - 1]), order[|order| - 1];
      InheritOnlyNames(types, specs, order[..|order| - 1]);
      if last in types && specs[last] in types {
        InheritedOnlyNamed(types[last], before[last], before[specs[last]]);
      }
    }
  }

  /** What a producer means by a specification link: it leads from a definition to a named
  declaration of the same kind that is complete in itself, and the definition repeats that
  name or leaves it out. */
  ghost predicate ProperLink(types: map<TypeId, RawType>, specs: map<TypeId, TypeId>, d: TypeId)
    requires d in specs
  {
    && d in types && specs[d] in types && specs[d] !in specs
    && types[d].Kind() == types[specs[d]].Kind()
    && types[specs[d]].Name().Some?
    && (types[d].Name().None? || types[d].Name() == types[specs[d]].Name())
    && (types[d].Namespace().None? || types[d].Namespace() == types[specs[d]].Namespace())
  }

  lemma {:induction false} InheritedAt(types: map<TypeId, RawType>, specs: map<TypeId, TypeId>, order: seq<TypeId>,
                                       x: TypeId)
    requires forall d | d in order :: d in specs && ProperLink(types, specs, d)
    requires forall i, j | 0 <= i < j < |order| :: order[i] != order[j]
    ensures var named := InheritAll(types, specs, order);
            && (x in named <==> x in types)
            && (x in types ==>
                  named[x] == if x in order && x in specs && specs[x] in types then Inherited(types[x], types[specs[x]])
                              else types[x])
  {
    if order != [] {
      var init, last := order[..|order| - 1], order[|order| - 1];
      assert last in order && order == init + [last];
      assert forall d | d in init :: d in order;
      InheritedAt(types, specs, init, x);
      InheritedAt(types, specs, init, last);
      InheritedAt(types, specs, init, specs[last]);
      assert specs[last] !in init;
      assert last !in init;
    }
  }

  /** Proper links keep to their groups. */
  lemma ProperLinksClosed(types: map<TypeId, RawType>, declared: set<TypeId>, subroutines: set<TypeId>,
                          specs: map<TypeId, TypeId>, base: map<TypeId, TypeId>)
    requires forall d | d in specs :: ProperLink(types, specs, d)
    requires IsBase(specs, declared, specs.Keys, base)
    ensures GroupClosed(Table(InheritAll(types, specs, Ascending(specs.Keys)), declared, subroutines), base)
  {
    var order := Ascending(specs.Keys);
    var table := Table(InheritAll(types, specs, order), declared, subroutines);
    forall x | x in base
      ensures table.Key(base[x]) == table.Key(x)
    {
      assert FoldedAt(specs, declared, specs.Keys, base, x);
      var d: TypeId :| LastWord(specs, declared, specs.Keys, base, x, d);
      ProperKeys(types, declared, subroutines, specs, d);
    }
  }

  lemma ProperKeys(types: map<TypeId, RawType>, declared: set<TypeId>, subroutines: set<TypeId>,
                   specs: map<TypeId, TypeId>, d: TypeId)
    requires (forall e | e in specs :: ProperLink(types, specs, e)) && d in specs
    ensures var table := Table(InheritAll(types, specs, Ascending(specs.Keys)), declared, subroutines);
            table.Key(d) == table.Key(specs[d]) && table.IsNamed(d)
  {
    var order := Ascending(specs.Keys);
    assert d in order && specs[d] !in order;
    InheritedAt(types, specs, order, d);
    InheritedAt(types, specs, order, specs[d]);
    InheritedKey(types[d], types[specs[d]]);
  }

  lemma InheritedKey(definition: RawType, declaration: RawType)
    requires definition.Kind() == declaration.Kind() && declaration.Name().Some?
    requires definition.Name().None? || definition.Name() == declaration.Name()
    requires definition.Namespace().None? || definition.Namespace() == declaration.Namespace()
    ensures var r := Inherited(definition, declaration);
            r.Kind() == declaration.Kind() && r.Name() == declaration.Name() && r.Namespace() == declaration.Namespace()
  {
  }
}
