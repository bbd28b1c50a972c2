/** When two references are one, whatever the types are like: exactly when some set of pairs bears
itself out. The guard against cycles is not seen from outside. */
module Identity {
  import opened RawTypes
  import opened Layout

  /** Two different types pass for one by their names when both have one; by what they point to when
  they are pointers and one has none; element by element; or as function signatures. */
  ghost predicate BorneOut(p: Partition, l: TypeId, r: TypeId, next: (TypeId, TypeId) -> bool) {
    var types := p.table.types;
    if l in types && r in types then
      var a, b := types[l], types[r];
      || (a.Name().Some? && b.Name().Some? && p.SameNamed(l, r))
      || (a.Pointer? && b.Pointer? && (a.name.None? || b.name.None?) && next(a.target, b.target))
      || (a.Array? && b.Array? && a.count == b.count && next(a.elem, b.elem))
    else
      l !in types && r !in types && l in p.table.subroutines && r in p.table.subroutines
  }

  /** The references have one canonical, or their pair is in the set. */
  ghost function Paired(p: Partition, pairs: set<Pair>): (TypeId, TypeId) -> bool {
    (left: TypeId, right: TypeId) =>
      || p.Canonical(left) == p.Canonical(right)
      || OrderedPair(p.Canonical(left), p.Canonical(right)) in pairs
  }

  /** Every pair of the set is borne out by the set. */
  ghost predicate SelfBorne(p: Partition, pairs: set<Pair>) {
    forall pair | pair in pairs :: BorneOut(p, pair.0, pair.1, Paired(p, pairs))
  }

  lemma BorneEitherWay(p: Partition, l: TypeId, r: TypeId, pairs: set<Pair>)
    ensures BorneOut(p, l, r, Paired(p, pairs)) <==> BorneOut(p, r, l, Paired(p, pairs))
  {
  }

  /** What a set bears out the test finds, whatever it is in the middle of. */
  lemma {:induction false} PairedIsSame(p: Partition, pairs: set<Pair>, left: TypeId, right: TypeId,
                                        visiting: set<Pair>)
    requires SelfBorne(p, pairs) && Paired(p, pairs)(left, right)
    ensures p.SameIdentity(left, right, visiting)
    decreases Pairs(p.table.types.Keys) - visiting
  {
    var l, r := p.Canonical(left), p.Canonical(right);
    var pair := OrderedPair(l, r);
    if l != r && pair !in visiting {
      assert BorneOut(p, pair.0, pair.1, Paired(p, pairs));
      BorneEitherWay(p, l, r, pairs);
      if l in p.table.types && r in p.table.types {
        var a, b := p.table.types[l], p.table.types[r];
        if a.Pointer? && b.Pointer? && (a.name.None? || b.name.None?) {
          PairedIsSame(p, pairs, a.target, b.target, visiting + {pair});
        } else if a.Array? && b.Array? && a.count == b.count {
          PairedIsSame(p, pairs, a.elem, b.elem, visiting + {pair});
        }
      }
    }
  }

  /** Each pair is borne out by the set and the pairs the test is in the middle of. */
  ghost predicate BorneWith(p: Partition, pairs: set<Pair>, visiting: set<Pair>) {
    forall pair | pair in pairs :: BorneOut(p, pair.0, pair.1, Paired(p, pairs + visiting))
  }

  lemma WithOneMore(p: Partition, pairs: set<Pair>, visiting: set<Pair>, pair: Pair)
    requires BorneWith(p, pairs, visiting + {pair})
    requires BorneOut(p, pair.0, pair.1, Paired(p, pairs + (visiting + {pair})))
    ensures BorneWith(p, pairs + {pair}, visiting)
  {
    assert pairs + (visiting + {pair}) == (pairs + {pair}) + visiting;
  }

  /** What the test finds some set bears out. */
  lemma {:induction false} SameIsPaired(p: Partition, left: TypeId, right: TypeId, visiting: set<Pair>)
    returns (pairs: set<Pair>)
    requires p.SameIdentity(left, right, visiting)
    ensures BorneWith(p, pairs, visiting) && Paired(p, pairs + visiting)(left, right)
    decreases Pairs(p.table.types.Keys) - visiting
  {
    var l, r := p.Canonical(left), p.Canonical(right);
    var pair := OrderedPair(l, r);
    pairs := {};
    if l != r && pair !in visiting {
      if l in p.table.types && r in p.table.types {
        var a, b := p.table.types[l], p.table.types[r];
        if a.Pointer? && b.Pointer? && (a.name.None? || b.name.None?) {
          pairs := SameIsPaired(p, a.target, b.target, visiting + {pair});
        } else if a.Array? && b.Array? {
          pairs := SameIsPaired(p, a.elem, b.elem, visiting + {pair});
        }
      }
      BorneEitherWay(p, l, r, pairs + (visiting + {pair}));
      WithOneMore(p, pairs, visiting, pair);
      pairs := pairs + {pair};
    }
  }

  ghost predicate BearsOut(p: Partition, left: TypeId, right: TypeId, pairs: set<Pair>) {
    SelfBorne(p, pairs) && Paired(p, pairs)(left, right)
  }

  /** Two references are one exactly when a set that bears itself out pairs them. */
  lemma ReferenceExactly(p: Partition, left: TypeId, right: TypeId)
    ensures p.SameReference(left, right) <==> exists pairs :: BearsOut(p, left, right, pairs)
  {
    if p.SameReference(left, right) {
      var pairs := SameIsPaired(p, left, right, {});
      assert pairs + {} == pairs;
      assert BearsOut(p, left, right, pairs);
    }
    if pairs :| BearsOut(p, left, right, pairs) {
      PairedIsSame(p, pairs, left, right, {});
    }
  }

  ghost function OneReference(p: Partition): (TypeId, TypeId) -> bool {
    (left: TypeId, right: TypeId) => p.SameReference(left, right)
  }

  /** A set that bears out what the pair rests on bears out the pair, with it added. */
  lemma PairAdded(p: Partition, l: TypeId, r: TypeId, pairs: set<Pair>)
    requires SelfBorne(p, pairs) && BorneOut(p, l, r, Paired(p, pairs))
    ensures SelfBorne(p, pairs + {OrderedPair(l, r)})
  {
    var pair := OrderedPair(l, r);
    BorneEitherWay(p, l, r, pairs);
    forall other | other in pairs + {pair}
      ensures BorneOut(p, other.0, other.1, Paired(p, pairs + {pair}))
    {
      assert BorneOut(p, other.0, other.1, Paired(p, pairs));
    }
  }

  lemma RestsOn(p: Partition, l: TypeId, r: TypeId) returns (pairs: set<Pair>)
    requires BorneOut(p, l, r, OneReference(p))
    ensures SelfBorne(p, pairs) && BorneOut(p, l, r, Paired(p, pairs))
  {
    pairs := {};
    if l in p.table.types && r in p.table.types {
      var a, b := p.table.types[l], p.table.types[r];
      if a.Pointer? && b.Pointer? && (a.name.None? || b.name.None?) {
        ReferenceExactly(p, a.target, b.target);
        if p.SameReference(a.target, b.target) {
          pairs :| BearsOut(p, a.target, b.target, pairs);
        }
      } else if a.Array? && b.Array? {
        ReferenceExactly(p, a.elem, b.elem);
        if p.SameReference(a.elem, b.elem) {
          pairs :| BearsOut(p, a.elem, b.elem, pairs);
        }
      }
    }
  }

  /** So a reference is compared by what it rests on, with no memory of the way there: a named pointer
  and an anonymous one, by what they point to. */
  lemma ReferenceUnfolds(p: Partition, left: TypeId, right: TypeId)
    ensures var l, r := p.Canonical(left), p.Canonical(right);
            p.SameReference(left, right) <==> l == r || BorneOut(p, l, r, OneReference(p))
  {
    var l, r := p.Canonical(left), p.Canonical(right);
    ReferenceExactly(p, left, right);
    if p.SameReference(left, right) && l != r {
      var pairs :| BearsOut(p, left, right, pairs);
      var pair := OrderedPair(l, r);
      assert BorneOut(p, pair.0, pair.1, Paired(p, pairs));
      BorneEitherWay(p, l, r, pairs);
      forall x, y | Paired(p, pairs)(x, y)
        ensures OneReference(p)(x, y)
      {
        PairedIsSame(p, pairs, x, y, {});
      }
    }
    if l != r && BorneOut(p, l, r, OneReference(p)) {
      var pairs := RestsOn(p, l, r);
      PairAdded(p, l, r, pairs);
      assert BearsOut(p, left, right, pairs + {OrderedPair(l, r)});
    }
  }
}
