/** The value that stands for a reference: its chain of unnamed links and what the chain ends
in. Comparing references is comparing these values, which is what makes a pass a quotient. */
module Signature {
  import opened RawTypes
  import opened Substitution
  import opened Layout

  datatype Link = ToPointee | ToElement(count: nat)

  /** A named type goes by its key on the first pass and by its class on later ones. */
  datatype Label = KeyLabel(key: Option<GroupKey>) | ClassLabel(id: TypeId)

  datatype End = Labelled(mark: Label) | FunctionSignature | Exactly(id: TypeId)

  datatype Sig = Sig(links: seq<Link>, end: End)

  /** The most anonymous links a chain may have and still be walked to its end by the
  dependency index, which gives up after 32 types. */
  const MAX_LINKS := 31

  /** The type graph as the base map folds it. */
  datatype Graph = Graph(table: Table, base: Subs)
  {
    function Root(id: TypeId): TypeId {
      Canon(base, id)
    }

    predicate Anonymous(id: TypeId) {
      table.IsAnonymous(Root(id))
    }

    function Target(id: TypeId): TypeId
      requires Anonymous(id)
    {
      var ty := table.types[Root(id)];
      if ty.Pointer? then ty.target else ty.elem
    }

    function LinkAt(id: TypeId): Link
      requires Anonymous(id)
    {
      var ty := table.types[Root(id)];
      if ty.Pointer? then ToPointee else ToElement(ty.count)
    }

    ghost predicate EndsWithin(id: TypeId, n: nat)
      decreases n
    {
      Anonymous(id) ==> n > 0 && EndsWithin(Target(id), n - 1)
    }

    /** From every id, at most `MAX_LINKS` unnamed links lead to an end. */
    ghost predicate ShortChains() {
      forall id: TypeId :: EndsWithin(id, MAX_LINKS)
    }

    ghost function LenWithin(id: TypeId, n: nat): nat
      requires EndsWithin(id, n)
      decreases n
    {
      if Anonymous(id) then 1 + LenWithin(Target(id), n - 1) else 0
    }

    ghost function Len(id: TypeId): nat
      requires ShortChains()
    {
      LenWithin(id, MAX_LINKS)
    }

    lemma {:induction false} LenIgnoresBound(id: TypeId, m: nat, n: nat)
      requires EndsWithin(id, m) && EndsWithin(id, n)
      ensures LenWithin(id, m) == LenWithin(id, n)
      decreases m
    {
      if Anonymous(id) {
        LenIgnoresBound(Target(id), m - 1, n - 1);
      }
    }

    lemma {:induction false} LenBound(id: TypeId, n: nat)
      requires EndsWithin(id, n)
      ensures LenWithin(id, n) <= n
      decreases n
    {
      if Anonymous(id) {
        LenBound(Target(id), n - 1);
      }
    }

    lemma LenStep(id: TypeId)
      requires ShortChains() && Anonymous(id)
      ensures Len(id) == 1 + Len(Target(id))
    {
      assert EndsWithin(Target(id), MAX_LINKS);
      assert EndsWithin(id, MAX_LINKS);
      LenIgnoresBound(Target(id), MAX_LINKS - 1, MAX_LINKS);
    }

    ghost function Links(id: TypeId): seq<Link>
      requires ShortChains()
      decreases Len(id)
    {
      if Anonymous(id) then
        LenStep(id);
        [LinkAt(id)] + Links(Target(id))
      else
        []
    }

    ghost function EndOf(id: TypeId): (r: TypeId)
      requires ShortChains()
      ensures r !in base && !table.IsAnonymous(r)
      decreases Len(id)
    {
      if Anonymous(id) then
        LenStep(id);
        EndOf(Target(id))
      else
        Root(id)
    }

    /** An end by its label when it is named, as a function signature when it is one, and
    as itself otherwise. */
    ghost function EndBy(naming: TypeId -> Label, end: TypeId): End {
      if table.IsNamed(end) then Labelled(naming(end))
      else if end !in table.types && end in table.subroutines then FunctionSignature
      else Exactly(end)
    }

    ghost function SigBy(naming: TypeId -> Label, id: TypeId): Sig
      requires ShortChains()
    {
      Sig(Links(id), EndBy(naming, EndOf(id)))
    }

    lemma SigOfRoot(naming: TypeId -> Label, id: TypeId)
      requires ShortChains()
      ensures SigBy(naming, id) == SigBy(naming, Root(id))
    {
    }

    /** A named pointer is never compared with an anonymous one: the two would be told apart
    by nothing but their targets. */
    ghost predicate Homogeneous(left: TypeId, right: TypeId)
      requires ShortChains()
      decreases Len(left)
    {
      var l, r := Root(left), Root(right);
      (l != r && l in table.types && r in table.types) ==>
        var a, b := table.types[l], table.types[r];
        if a.Pointer? && b.Pointer? then
          && a.name.Some? == b.name.Some?
          && (a.name.None? ==> (LenStep(left); Homogeneous(a.target, b.target)))
        else if a.Array? && b.Array? && a.count == b.count then
          (LenStep(left); Homogeneous(a.elem, b.elem))
        else
          true
    }
  }

  ghost function GraphOf(p: Partition): Graph {
    Graph(p.table, p.base)
  }

  /** How a pass labels the named types it meets. */
  ghost function LabelOf(p: Partition): TypeId -> Label {
    match p.prev
    case None => (x: TypeId) => KeyLabel(p.table.Key(x))
    case Some(prev) => (x: TypeId) => ClassLabel(Canon(prev, x))
  }

  lemma NamedAgree(p: Partition, l: TypeId, r: TypeId)
    requires p.table.IsNamed(l) && p.table.IsNamed(r)
    ensures p.SameNamed(l, r) <==> LabelOf(p)(l) == LabelOf(p)(r)
  {
  }

  /** The reference test, its guard against cycles included, decides equality of signatures. */
  lemma {:induction false} IdentityIsSignature(p: Partition, left: TypeId, right: TypeId, visiting: set<Pair>)
    requires GraphOf(p).ShortChains()
    requires GraphOf(p).Homogeneous(left, right)
    requires forall pair | pair in visiting ::
               GraphOf(p).Len(pair.0) + GraphOf(p).Len(pair.1) > GraphOf(p).Len(left) + GraphOf(p).Len(right)
    ensures p.SameIdentity(left, right, visiting)
            <==> GraphOf(p).SigBy(LabelOf(p), left) == GraphOf(p).SigBy(LabelOf(p), right)
    decreases GraphOf(p).Len(left)
  {
    var g := GraphOf(p);
    var l, r := g.Root(left), g.Root(right);
    LenOfRoot(g, left);
    LenOfRoot(g, right);
    var pair := OrderedPair(l, r);
    assert pair !in visiting;
    if l == r {
      g.SigOfRoot(LabelOf(p), left);
      g.SigOfRoot(LabelOf(p), right);
    } else if g.Anonymous(left) && g.Anonymous(right) {
      g.LenStep(left);
      g.LenStep(right);
      if g.LinkAt(left) == g.LinkAt(right) {
        IdentityIsSignature(p, g.Target(left), g.Target(right), visiting + {pair});
        assert g.Links(left)[1..] == g.Links(g.Target(left));
        assert g.Links(right)[1..] == g.Links(g.Target(right));
      } else {
        assert g.Links(left)[0] != g.Links(right)[0];
      }
    } else if g.Anonymous(left) || g.Anonymous(right) {
      assert |g.Links(left)| != |g.Links(right)|;
    } else if p.table.IsNamed(l) && p.table.IsNamed(r) {
      NamedAgree(p, l, r);
    }
  }

  lemma LenOfRoot(g: Graph, id: TypeId)
    requires g.ShortChains()
    ensures g.Len(g.Root(id)) == g.Len(id)
  {
    assert g.EndsWithin(id, MAX_LINKS);
    assert g.EndsWithin(g.Root(id), MAX_LINKS);
  }

  lemma ReferenceIsSignature(p: Partition, left: TypeId, right: TypeId)
    requires GraphOf(p).ShortChains()
    requires GraphOf(p).Homogeneous(left, right)
    ensures p.SameReference(left, right)
            <==> GraphOf(p).SigBy(LabelOf(p), left) == GraphOf(p).SigBy(LabelOf(p), right)
  {
    IdentityIsSignature(p, left, right, {});
  }
}
