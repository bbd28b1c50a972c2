/** Substitution maps from duplicate type ids to canonical ones, and the chase through them. */
module Substitution {
  import opened RawTypes

  /** A lexicographic rank; a map whose every edge goes down in some rank has no cycle. */
  datatype Rank = Rank(a: nat, b: nat, c: nat, d: nat)

  predicate Below(x: Rank, y: Rank) {
    || x.a < y.a
    || (x.a == y.a && x.b < y.b)
    || (x.a == y.a && x.b == y.b && x.c < y.c)
    || (x.a == y.a && x.b == y.b && x.c == y.c && x.d < y.d)
  }

  ghost predicate RankedBy(s: map<TypeId, TypeId>, rank: TypeId -> Rank) {
    forall x | x in s :: Below(rank(s[x]), rank(x))
  }

  ghost predicate Acyclic(s: map<TypeId, TypeId>) {
    exists rank: TypeId -> Rank :: RankedBy(s, rank)
  }

  lemma EmptyIsAcyclic()
    ensures Acyclic(map[])
  {
    assert RankedBy(map[], (x: TypeId) => Rank(0, 0, 0, 0));
  }

  /** The maps every pass works with. The chase is a loop with no bound of its own, so it
  ends exactly on these. */
  type Subs = s: map<TypeId, TypeId> | Acyclic(s) ghost witness (EmptyIsAcyclic(); map[])

  ghost function RankOf(s: Subs): (rank: TypeId -> Rank)
    ensures RankedBy(s, rank)
  {
    var rank: TypeId -> Rank :| RankedBy(s, rank);
    rank
  }

  /** The end of the substitution chain from `id`. */
  function Canon(s: Subs, id: TypeId): (r: TypeId)
    ensures r !in s
    ensures id !in s ==> r == id
    decreases RankOf(s)(id).a, RankOf(s)(id).b, RankOf(s)(id).c, RankOf(s)(id).d
  {
    if id in s then Canon(s, s[id]) else id
  }

  method CanonicalizeIn(s: Subs, id: TypeId) returns (r: TypeId)
    ensures r == Canon(s, id)
  {
    r := id;
    while r in s
      invariant Canon(s, r) == Canon(s, id)
      decreases RankOf(s)(r).a, RankOf(s)(r).b, RankOf(s)(r).c, RankOf(s)(r).d
    {
      r := s[r];
    }
  }

  lemma NoSelfLink(m: Subs, x: TypeId)
    requires x in m
    ensures m[x] != x
  {
    var rank: TypeId -> Rank :| RankedBy(m, rank);
    assert Below(rank(m[x]), rank(x));
  }

  /** A set the map leads back into holds the whole chain of each of its ids. */
  lemma {:induction false} CanonStaysIn(s: Subs, ids: set<TypeId>, id: TypeId)
    requires forall x | x in ids && x in s :: s[x] in ids
    requires id in ids
    ensures Canon(s, id) in ids
    decreases RankOf(s)(id).a, RankOf(s)(id).b, RankOf(s)(id).c, RankOf(s)(id).d
  {
    if id in s {
      CanonStaysIn(s, ids, s[id]);
    }
  }

  /** Two maps that agree on a closed set agree on where its ids end. */
  lemma {:induction false} CanonAgrees(s: Subs, t: Subs, ids: set<TypeId>, id: TypeId)
    requires forall x | x in ids && x in s :: s[x] in ids
    requires forall x | x in ids :: (x in s <==> x in t) && (x in s ==> s[x] == t[x])
    requires id in ids
    ensures Canon(s, id) == Canon(t, id)
    decreases RankOf(s)(id).a, RankOf(s)(id).b, RankOf(s)(id).c, RankOf(s)(id).d
  {
    if id in s {
      CanonAgrees(s, t, ids, s[id]);
    }
  }

  /** Chasing through a map that extends another picks up where the smaller one ended. */
  lemma {:induction false} CanonThrough(small: Subs, big: Subs, id: TypeId)
    requires forall x | x in small :: x in big && big[x] == small[x]
    ensures Canon(big, Canon(small, id)) == Canon(big, id)
    decreases RankOf(small)(id).a, RankOf(small)(id).b, RankOf(small)(id).c, RankOf(small)(id).d
  {
    if id in small {
      CanonThrough(small, big, small[id]);
    }
  }

  // ----- a map whose cycles all come through a few ids

  ghost function ChainLength(s: Subs, id: TypeId): nat
    decreases RankOf(s)(id).a, RankOf(s)(id).b, RankOf(s)(id).c, RankOf(s)(id).d
  {
    if id in s then 1 + ChainLength(s, s[id]) else 0
  }

  /** With `cut` taken out the rest leads on from each of those ids: to which other of them. */
  ghost function Jumps(m: map<TypeId, TypeId>, cut: set<TypeId>, rest: Subs): map<TypeId, TypeId>
    requires cut <= m.Keys
  {
    map d | d in cut && Canon(rest, m[d]) in cut :: Canon(rest, m[d])
  }

  lemma {:induction false} NotAbove(m: map<TypeId, TypeId>, rank: TypeId -> Rank, rest: Subs, id: TypeId)
    requires RankedBy(m, rank) && forall x | x in rest :: x in m && m[x] == rest[x]
    ensures Canon(rest, id) == id || Below(rank(Canon(rest, id)), rank(id))
    decreases RankOf(rest)(id).a, RankOf(rest)(id).b, RankOf(rest)(id).c, RankOf(rest)(id).d
  {
    if id in rest {
      NotAbove(m, rank, rest, rest[id]);
      assert Below(rank(m[id]), rank(id));
    }
  }

  lemma JumpsFall(m: map<TypeId, TypeId>, cut: set<TypeId>, rest: Subs)
    requires cut <= m.Keys && rest == m - cut && Acyclic(m)
    ensures Acyclic(Jumps(m, cut, rest))
  {
    var rank: TypeId -> Rank :| RankedBy(m, rank);
    var jumps := Jumps(m, cut, rest);
    forall d | d in jumps
      ensures Below(rank(jumps[d]), rank(d))
    {
      NotAbove(m, rank, rest, m[d]);
      assert Below(rank(m[d]), rank(d));
    }
    assert RankedBy(jumps, rank);
  }

  ghost function CutRank(cut: set<TypeId>, rest: Subs, jumps: Subs, id: TypeId): Rank {
    var end := Canon(rest, id);
    Rank(if end in cut then 1 + ChainLength(jumps, end) else 0, ChainLength(rest, id), 0, 0)
  }

  lemma JumpsRank(m: map<TypeId, TypeId>, cut: set<TypeId>, rest: Subs, jumps: Subs)
    requires cut <= m.Keys && rest == m - cut && jumps == Jumps(m, cut, rest)
    ensures Acyclic(m)
  {
    var rank := (x: TypeId) => CutRank(cut, rest, jumps, x);
    forall x | x in m
      ensures Below(rank(m[x]), rank(x))
    {
      if x in cut {
        assert Canon(rest, x) == x;
      } else {
        assert Canon(rest, x) == Canon(rest, m[x]);
      }
    }
    assert RankedBy(m, rank);
  }

  /** A map that is acyclic without a few of its links is acyclic with them if and only if no
  chain of jumps from one of those ids to another closes. */
  lemma CutAcyclic(m: map<TypeId, TypeId>, cut: set<TypeId>, rest: Subs)
    requires cut <= m.Keys && rest == m - cut
    ensures Acyclic(m) <==> Acyclic(Jumps(m, cut, rest))
  {
    if Acyclic(m) {
      JumpsFall(m, cut, rest);
    }
    if Acyclic(Jumps(m, cut, rest)) {
      JumpsRank(m, cut, rest, Jumps(m, cut, rest));
    }
  }
}
