/** How many passes it can take. Two copies of a chain of wrappers that differ only in the last
link come apart one link a pass, from the end: with nothing missing from any definition, there is
no number of passes that is enough for all tables. */
module Chains {
  import opened RawTypes
  import opened Substitution
  import opened Layout
  import opened Signature
  import opened LayoutSignature
  import opened Passes
  import opened Grouping
  import opened Dependence
  import opened Worklist
  import opened Coarsest
  import opened Fixpoints
  import opened Placement
  import opened Reference
  import opened Histories

  /** Ids `2 * i` and `2 * i + 1` are the two copies of link `i`, each holding the next link of its
  own copy. The copies of link `n` hold theirs at different offsets. */
  function LinkType(n: nat, id: TypeId): RawType {
    Struct(Some(id / 2), None, 8, [Member(None, if id / 2 == n then id % 2 else 0, id + 2)], [])
  }

  function ChainTable(n: nat): Table {
    Table(map id: TypeId | id < 2 * n + 2 :: LinkType(n, id), {}, {})
  }

  function ChainGroups(n: nat): (r: seq<seq<TypeId>>)
    ensures |r| == n + 1 && forall i | 0 <= i < |r| :: r[i] == [2 * i, 2 * i + 1]
  {
    seq(n + 1, i requires 0 <= i => [2 * i, 2 * i + 1])
  }

  /** No specification links. */
  ghost function NoLinks(): Subs {
    EmptyIsAcyclic();
    map[]
  }

  ghost function ChainGraph(n: nat): Graph {
    Graph(ChainTable(n), NoLinks())
  }

  lemma LinkKey(n: nat, id: TypeId)
    ensures ChainTable(n).Key(id) == if id < 2 * n + 2 then Some((3, None, id / 2)) else None
    ensures IsRoot(ChainGraph(n), id) <==> id < 2 * n + 2
  {
  }

  lemma InLink(n: nat, i: nat, id: TypeId)
    requires i <= n
    ensures id in ChainGroups(n)[i] <==> id < 2 * n + 2 && id / 2 == i
  {
  }

  lemma ChainGrouped(n: nat)
    ensures Grouped(ChainTable(n), ChainGroups(n))
  {
    var table, groups := ChainTable(n), ChainGroups(n);
    forall g, x | 0 <= g < |groups|
      ensures x in groups[g] <==> table.Key(x) == table.Key(groups[g][0])
    {
      InLink(n, g, x);
      LinkKey(n, x);
      LinkKey(n, groups[g][0]);
    }
    forall g, h | 0 <= g < h < |groups|
      ensures table.Key(groups[g][0]) != table.Key(groups[h][0])
    {
      LinkKey(n, groups[g][0]);
      LinkKey(n, groups[h][0]);
    }
    forall x: TypeId | table.IsNamed(x)
      ensures exists g :: 0 <= g < |groups| && x in groups[g]
    {
      LinkKey(n, x);
      InLink(n, x / 2, x);
    }
    forall g | 0 <= g < |groups|
      ensures groups[g] != [] && table.Key(groups[g][0]).Some?
    {
      LinkKey(n, groups[g][0]);
    }
  }

  lemma ChainShort(n: nat)
    ensures ChainGraph(n).ShortChains()
    ensures forall id: TypeId :: !ChainGraph(n).Anonymous(id)
  {
    forall id: TypeId
      ensures !ChainGraph(n).Anonymous(id)
    {
      LinkKey(n, id);
    }
  }

  /** The table meets every condition the passes ask for. */
  lemma ChainUniform(n: nat)
    ensures Uniform(ChainTable(n), ChainGroups(n), NoLinks())
  {
    ChainGrouped(n);
    ChainShort(n);
    var g := ChainGraph(n);
    forall d, e | Comparable(g, d, e)
      ensures HomogeneousOn(g, AlignedPairs(g.table.types[d], g.table.types[e]))
      ensures CompleteTypes(g.table.types[d], g.table.types[e]) && AlignedAlike(g.table.types[d], g.table.types[e])
    {
      LinkKey(n, d);
      LinkKey(n, e);
    }
  }

  lemma LinkSig(n: nat, naming: TypeId -> Label, id: TypeId)
    requires id < 2 * n + 2
    ensures ChainGraph(n).ShortChains()
    ensures ChainGraph(n).SigBy(naming, id) == Sig([], Labelled(naming(id)))
  {
    ChainShort(n);
    LinkKey(n, id);
  }

  lemma LinkBare(n: nat, i: nat)
    requires i <= n
    ensures Bare(LinkType(n, 2 * i)) == Bare(LinkType(n, 2 * i + 1)) <==> i < n
  {
    var a, b := LinkType(n, 2 * i), LinkType(n, 2 * i + 1);
    assert BareMembers(a.members)[0].offset == a.members[0].offset;
    assert BareMembers(b.members)[0].offset == b.members[0].offset;
    if i < n {
      assert BareMembers(a.members) == BareMembers(b.members);
    }
  }

  lemma LinkSigs(n: nat, naming: TypeId -> Label, id: TypeId)
    requires id < 2 * n
    ensures ChainGraph(n).ShortChains()
    ensures Sigs(ChainGraph(n), naming, ItemRefs(LinkType(n, id))) == [Sig([], Labelled(naming(id + 2)))]
    ensures Sigs(ChainGraph(n), naming, LeadRefs(LinkType(n, id))) == []
    ensures Sigs(ChainGraph(n), naming, ParamRefsOf(LinkType(n, id))) == []
  {
    LinkSig(n, naming, id + 2);
  }

  lemma LoneSigs(a: Label, b: Label)
    ensures [Sig([], Labelled(a))] == [Sig([], Labelled(b))] <==> a == b
  {
    var x, y := [Sig([], Labelled(a))], [Sig([], Labelled(b))];
    assert x == y ==> x[0] == y[0];
  }

  lemma InnerLayouts(n: nat, naming: TypeId -> Label, i: nat)
    requires i < n
    ensures ChainGraph(n).ShortChains()
    ensures LayoutBy(ChainGraph(n), naming, LinkType(n, 2 * i))
            == LayoutBy(ChainGraph(n), naming, LinkType(n, 2 * i + 1))
            <==> naming(2 * i + 2) == naming(2 * i + 3)
  {
    LinkBare(n, i);
    LinkSigs(n, naming, 2 * i);
    LinkSigs(n, naming, 2 * i + 1);
    LoneSigs(naming(2 * i + 2), naming(2 * i + 3));
  }

  lemma LinkAt(n: nat, id: TypeId)
    requires id < 2 * n + 2
    ensures id in ChainTable(n).types && ChainTable(n).types[id] == LinkType(n, id)
  {
  }

  /** The copies of a link look alike exactly when it is not the last and its next link's copies
  bear one label. */
  lemma LinkLayouts(n: nat, naming: TypeId -> Label, i: nat)
    requires i <= n
    ensures ChainGraph(n).ShortChains() && 2 * i in ChainTable(n).types && 2 * i + 1 in ChainTable(n).types
    ensures LayoutAt(ChainGraph(n), naming, 2 * i) == LayoutAt(ChainGraph(n), naming, 2 * i + 1)
            <==> i < n && naming(2 * i + 2) == naming(2 * i + 3)
  {
    ChainShort(n);
    LinkAt(n, 2 * i);
    LinkAt(n, 2 * i + 1);
    if i < n {
      InnerLayouts(n, naming, i);
    } else {
      LinkBare(n, i);
    }
  }

  // ----- what comes of it pass by pass

  /** Whatever the labels, `x` and `y` go together exactly when `more` holds and `u` and `v` bear one. */
  ghost predicate Follow(table: Table, base: Subs, x: TypeId, y: TypeId, more: bool, u: TypeId, v: TypeId)
    requires Graph(table, base).ShortChains()
    requires IsRoot(Graph(table, base), x) && IsRoot(Graph(table, base), y)
  {
    forall naming: TypeId -> Label :: FollowsBy(table, base, x, y, more, u, v, naming)
  }

  ghost predicate FollowsBy(table: Table, base: Subs, x: TypeId, y: TypeId, more: bool, u: TypeId, v: TypeId,
                            naming: TypeId -> Label)
    requires Graph(table, base).ShortChains()
    requires IsRoot(Graph(table, base), x) && IsRoot(Graph(table, base), y)
  {
    Related(Graph(table, base), naming, x, y) <==> more && naming(u) == naming(v)
  }

  /** The `k`th pass puts `x` and `y` together. */
  ghost predicate Together(table: Table, groups: seq<seq<TypeId>>, base: Subs, k: nat, x: TypeId, y: TypeId)
    requires BaseDescends(table, base)
  {
    Canon(NthMap(table, groups, base, k), x) == Canon(NthMap(table, groups, base, k), y)
  }

  lemma FollowLabels(table: Table, groups: seq<seq<TypeId>>, base: Subs, k: nat, x: TypeId, y: TypeId, more: bool,
                     u: TypeId, v: TypeId)
    requires Uniform(table, groups, base)
    requires IsRoot(Graph(table, base), x) && IsRoot(Graph(table, base), y) && Follow(table, base, x, y, more, u, v)
    ensures Together(table, groups, base, k, x, y)
            <==> more && NthLabel(table, groups, base, k)(u) == NthLabel(table, groups, base, k)(v)
  {
    assert FollowsBy(table, base, x, y, more, u, v, NthLabel(table, groups, base, k));
    NthIsQuotient(table, groups, base, k, x, y);
  }

  lemma FollowFirst(table: Table, groups: seq<seq<TypeId>>, base: Subs, x: TypeId, y: TypeId, more: bool,
                    u: TypeId, v: TypeId)
    requires Uniform(table, groups, base)
    requires IsRoot(Graph(table, base), x) && IsRoot(Graph(table, base), y) && Follow(table, base, x, y, more, u, v)
    requires table.Key(u) == table.Key(v)
    ensures Together(table, groups, base, 0, x, y) <==> more
  {
    FollowLabels(table, groups, base, 0, x, y, more, u, v);
  }

  lemma FollowNext(table: Table, groups: seq<seq<TypeId>>, base: Subs, k: nat, x: TypeId, y: TypeId, more: bool,
                   u: TypeId, v: TypeId)
    requires Uniform(table, groups, base)
    requires IsRoot(Graph(table, base), x) && IsRoot(Graph(table, base), y) && Follow(table, base, x, y, more, u, v)
    ensures Together(table, groups, base, k + 1, x, y) <==> more && Together(table, groups, base, k, u, v)
  {
    FollowLabels(table, groups, base, k + 1, x, y, more, u, v);
    LabelIsCanon(table, groups, base, k, u, v);
  }

  lemma LinkFollows(n: nat, i: nat, more: bool, naming: TypeId -> Label)
    requires i <= n && more == (i < n)
    ensures ChainGraph(n).ShortChains()
    ensures IsRoot(ChainGraph(n), 2 * i) && IsRoot(ChainGraph(n), 2 * i + 1)
    ensures FollowsBy(ChainTable(n), NoLinks(), 2 * i, 2 * i + 1, more, 2 * i + 2, 2 * i + 3, naming)
  {
    LinkKey(n, 2 * i);
    LinkKey(n, 2 * i + 1);
    LinkLayouts(n, naming, i);
  }

  lemma ChainFollow(n: nat, i: nat, more: bool, a: TypeId, b: TypeId, c: TypeId, d: TypeId)
    requires i <= n && more == (i < n) && a == 2 * i && b == a + 1 && c == a + 2 && d == a + 3
    ensures ChainGraph(n).ShortChains() && IsRoot(ChainGraph(n), a) && IsRoot(ChainGraph(n), b)
    ensures Follow(ChainTable(n), NoLinks(), a, b, more, c, d)
  {
    ChainShort(n);
    LinkKey(n, a);
    LinkKey(n, b);
    forall naming: TypeId -> Label
      ensures FollowsBy(ChainTable(n), NoLinks(), a, b, more, c, d, naming)
    {
      LinkFollows(n, i, more, naming);
    }
  }

  /** The two copies of a link. */
  function Left(i: nat): TypeId {
    2 * i
  }

  function Right(i: nat): TypeId {
    2 * i + 1
  }

  /** What the passes see of link `i`: its copies have one key and follow those of the next. */
  ghost predicate IsLink(n: nat, table: Table, base: Subs, i: nat)
    requires Graph(table, base).ShortChains()
  {
    && IsRoot(Graph(table, base), Left(i)) && IsRoot(Graph(table, base), Right(i))
    && Follow(table, base, Left(i), Right(i), i < n, Left(i + 1), Right(i + 1))
    && table.Key(Left(i + 1)) == table.Key(Right(i + 1))
  }

  /** And of all of them. */
  ghost predicate IsChain(n: nat, table: Table, groups: seq<seq<TypeId>>, base: Subs) {
    && Uniform(table, groups, base) && base == map[]
    && (forall i: nat | i <= n :: IsLink(n, table, base, i))
    && |groups| == n + 1 && forall i: nat | i <= n :: groups[i] == [Left(i), Right(i)]
  }

  lemma ChainLink(n: nat, i: nat)
    requires i <= n
    ensures ChainGraph(n).ShortChains() && IsLink(n, ChainTable(n), NoLinks(), i)
  {
    ChainFollow(n, i, i < n, Left(i), Right(i), Left(i + 1), Right(i + 1));
    LinkKey(n, Left(i + 1));
    LinkKey(n, Right(i + 1));
  }

  lemma ChainIsChain(n: nat)
    ensures IsChain(n, ChainTable(n), ChainGroups(n), NoLinks())
  {
    ChainUniform(n);
    forall i: nat | i <= n
      ensures IsLink(n, ChainTable(n), NoLinks(), i)
    {
      ChainLink(n, i);
    }
  }

  /** The `k`th pass puts the copies of link `i` together. */
  ghost predicate Copies(table: Table, groups: seq<seq<TypeId>>, base: Subs, k: nat, i: nat)
    requires BaseDescends(table, base)
  {
    Together(table, groups, base, k, Left(i), Right(i))
  }

  lemma CopiesFirst(n: nat, table: Table, groups: seq<seq<TypeId>>, base: Subs, i: nat)
    requires IsChain(n, table, groups, base) && i <= n
    ensures Copies(table, groups, base, 0, i) <==> i < n
  {
    assert IsLink(n, table, base, i);
    FollowFirst(table, groups, base, Left(i), Right(i), i < n, Left(i + 1), Right(i + 1));
  }

  lemma CopiesNext(n: nat, table: Table, groups: seq<seq<TypeId>>, base: Subs, k: nat, i: nat)
    requires IsChain(n, table, groups, base) && i <= n
    ensures Copies(table, groups, base, k + 1, i) <==> i < n && Copies(table, groups, base, k, i + 1)
  {
    assert IsLink(n, table, base, i);
    FollowNext(table, groups, base, k, Left(i), Right(i), i < n, Left(i + 1), Right(i + 1));
  }

  /** In a chain the copies of link `i` are together on the `k`th pass exactly when `i + k < n`. */
  ghost predicate Falls(n: nat, table: Table, groups: seq<seq<TypeId>>, base: Subs, k: nat, i: nat)
    requires BaseDescends(table, base)
  {
    IsChain(n, table, groups, base) && i <= n ==> (Copies(table, groups, base, k, i) <==> i + k < n)
  }

  lemma FallsFirst(n: nat, table: Table, groups: seq<seq<TypeId>>, base: Subs, i: nat)
    requires BaseDescends(table, base)
    ensures Falls(n, table, groups, base, 0, i)
  {
    if IsChain(n, table, groups, base) && i <= n {
      CopiesFirst(n, table, groups, base, i);
    }
  }

  lemma FallsNext(n: nat, table: Table, groups: seq<seq<TypeId>>, base: Subs, k: nat, i: nat)
    requires BaseDescends(table, base) && Falls(n, table, groups, base, k, i + 1)
    ensures Falls(n, table, groups, base, k + 1, i)
  {
    if IsChain(n, table, groups, base) && i <= n {
      CopiesNext(n, table, groups, base, k, i);
    }
  }

  ghost function FallsOf(n: nat, table: Table, groups: seq<seq<TypeId>>, base: Subs): (nat, nat) -> bool
    requires BaseDescends(table, base)
  {
    (k: nat, i: nat) => Falls(n, table, groups, base, k, i)
  }

  ghost predicate StepsBack(holds: (nat, nat) -> bool, k: nat, i: nat) {
    holds(k, i + 1) ==> holds(k + 1, i)
  }

  lemma {:induction false} Diagonally(holds: (nat, nat) -> bool, k: nat, i: nat)
    requires forall j: nat :: holds(0, j)
    requires forall l: nat, j: nat :: StepsBack(holds, l, j)
    ensures holds(k, i)
    decreases k
  {
    if k > 0 {
      Diagonally(holds, k - 1, i + 1);
      assert StepsBack(holds, k - 1, i);
    }
  }

  lemma FallsPasses(n: nat, table: Table, groups: seq<seq<TypeId>>, base: Subs, k: nat, i: nat)
    requires BaseDescends(table, base)
    ensures StepsBack(FallsOf(n, table, groups, base), k, i)
  {
    if Falls(n, table, groups, base, k, i + 1) {
      FallsNext(n, table, groups, base, k, i);
    }
  }

  lemma AllFall(n: nat, table: Table, groups: seq<seq<TypeId>>, base: Subs, k: nat, i: nat)
    requires BaseDescends(table, base)
    ensures FallsOf(n, table, groups, base)(k, i)
  {
    var holds := FallsOf(n, table, groups, base);
    forall j: nat
      ensures holds(0, j)
    {
      FallsFirst(n, table, groups, base, j);
    }
    forall l: nat, j: nat
      ensures StepsBack(holds, l, j)
    {
      FallsPasses(n, table, groups, base, l, j);
    }
    Diagonally(holds, k, i);
  }

  lemma StillTogether(n: nat, table: Table, groups: seq<seq<TypeId>>, base: Subs, k: nat, i: nat)
    requires IsChain(n, table, groups, base) && i + k < n
    ensures Copies(table, groups, base, k, i)
  {
    AllFall(n, table, groups, base, k, i);
  }

  lemma NowApart(n: nat, table: Table, groups: seq<seq<TypeId>>, base: Subs, k: nat, i: nat)
    requires IsChain(n, table, groups, base) && i <= n <= i + k
    ensures !Copies(table, groups, base, k, i)
  {
    AllFall(n, table, groups, base, k, i);
  }

  // ----- when the passes settle

  lemma SettledCopies(table: Table, groups: seq<seq<TypeId>>, base: Subs, k: nat, i: nat)
    requires BaseDescends(table, base) && Settled(table, groups, base, k)
    ensures Copies(table, groups, base, k + 1, i) <==> Copies(table, groups, base, k, i)
  {
  }

  ghost function CopiesOf(table: Table, groups: seq<seq<TypeId>>, base: Subs): (nat, nat) -> bool
    requires BaseDescends(table, base)
  {
    (k: nat, i: nat) => Copies(table, groups, base, k, i)
  }

  ghost predicate SplitsBetween(holds: (nat, nat) -> bool, k: nat, next: nat, i: nat) {
    holds(k, i) && !holds(next, i)
  }

  lemma TogetherThen(n: nat, table: Table, groups: seq<seq<TypeId>>, base: Subs, k: nat, i: nat)
    requires IsChain(n, table, groups, base) && i + k < n
    ensures CopiesOf(table, groups, base)(k, i)
  {
    StillTogether(n, table, groups, base, k, i);
  }

  lemma ApartThen(n: nat, table: Table, groups: seq<seq<TypeId>>, base: Subs, k: nat, i: nat)
    requires IsChain(n, table, groups, base) && i <= n <= i + k
    ensures !CopiesOf(table, groups, base)(k, i)
  {
    NowApart(n, table, groups, base, k, i);
  }

  lemma ChainSplits(n: nat, table: Table, groups: seq<seq<TypeId>>, base: Subs, k: nat, next: nat, i: nat)
    requires IsChain(n, table, groups, base) && i + k < n && i <= n <= i + next
    ensures SplitsBetween(CopiesOf(table, groups, base), k, next, i)
  {
    TogetherThen(n, table, groups, base, k, i);
    ApartThen(n, table, groups, base, next, i);
  }

  /** A link that comes apart between two passes shows they have not settled. */
  lemma SplitUnsettled(table: Table, groups: seq<seq<TypeId>>, base: Subs, k: nat, next: nat, i: nat)
    requires BaseDescends(table, base) && next == k + 1
    ensures SplitsBetween(CopiesOf(table, groups, base), k, next, i) ==> !Settled(table, groups, base, k)
  {
    if Settled(table, groups, base, k) {
      SettledCopies(table, groups, base, k, i);
    }
  }

  lemma NotYet(n: nat, table: Table, groups: seq<seq<TypeId>>, base: Subs, k: nat, next: nat, i: nat)
    requires IsChain(n, table, groups, base) && i + k < n && i <= n <= i + next && next == k + 1
    ensures !Settled(table, groups, base, k)
  {
    ChainSplits(n, table, groups, base, k, next, i);
    SplitUnsettled(table, groups, base, k, next, i);
  }

  /** An id mapped within a group of two shares its canonical with the other. */
  lemma OtherCopy(m: Subs, ids: seq<TypeId>, a: TypeId, b: TypeId, x: TypeId)
    requires ids == [a, b] && x in ids && x in m && KeepsGroup(m, ids)
    ensures Canon(m, a) == Canon(m, b)
  {
    NoSelfLink(m, x);
  }

  lemma MappedNamed(table: Table, groups: seq<seq<TypeId>>, base: Subs, k: nat, x: TypeId)
    requires Regular(table, groups, base) && base == map[] && x in NthMap(table, groups, base, k)
    ensures table.IsNamed(x) && KeepsGroups(NthMap(table, groups, base, k), groups)
  {
    NthOwned(table, groups, base, k);
    if !table.IsNamed(x) {
      MapOfStranger(table, groups, base, NthResults(table, groups, base, k), x);
    }
  }

  lemma MappedTogether(table: Table, groups: seq<seq<TypeId>>, m: Subs, x: TypeId) returns (g: nat)
    requires Grouped(table, groups) && KeepsGroups(m, groups) && table.IsNamed(x) && x in m
    requires forall i | 0 <= i < |groups| :: |groups[i]| == 2
    ensures g < |groups| && Canon(m, groups[g][0]) == Canon(m, groups[g][1])
  {
    g := OwnerOf(table, groups, x);
    OtherCopy(m, groups[g], groups[g][0], groups[g][1], x);
  }

  /** Once no copies are together nothing is mapped. */
  lemma NotMapped(n: nat, table: Table, groups: seq<seq<TypeId>>, base: Subs, k: nat, x: TypeId)
    requires IsChain(n, table, groups, base) && k >= n
    ensures x !in NthMap(table, groups, base, k)
  {
    if x in NthMap(table, groups, base, k) {
      MappedNamed(table, groups, base, k, x);
      var g := MappedTogether(table, groups, NthMap(table, groups, base, k), x);
      NowApart(n, table, groups, base, k, g);
    }
  }

  lemma NothingMapped(n: nat, table: Table, groups: seq<seq<TypeId>>, base: Subs, k: nat)
    requires IsChain(n, table, groups, base) && k >= n
    ensures NthMap(table, groups, base, k) == map[]
  {
    forall x: TypeId
      ensures x !in NthMap(table, groups, base, k)
    {
      NotMapped(n, table, groups, base, k, x);
    }
  }

  lemma ByThen(n: nat, table: Table, groups: seq<seq<TypeId>>, base: Subs, k: nat)
    requires IsChain(n, table, groups, base) && k >= n
    ensures Settled(table, groups, base, k)
  {
    NothingMapped(n, table, groups, base, k);
    NothingMapped(n, table, groups, base, k + 1);
  }

  /** The passes over a chain settle at the `n`th and not before. */
  lemma ChainedSettles(n: nat, table: Table, groups: seq<seq<TypeId>>, base: Subs, k: nat)
    requires IsChain(n, table, groups, base)
    ensures Settled(table, groups, base, k) <==> k >= n
  {
    if k >= n {
      ByThen(n, table, groups, base, k);
    } else {
      NotYet(n, table, groups, base, k, k + 1, n - k - 1);
    }
  }

  /** For every `n` there is a table that meets all conditions and first settles at pass `n`. */
  lemma ChainSettles(n: nat, k: nat)
    ensures Uniform(ChainTable(n), ChainGroups(n), NoLinks())
    ensures Settled(ChainTable(n), ChainGroups(n), NoLinks(), k) <==> k >= n
  {
    ChainIsChain(n);
    ChainedSettles(n, ChainTable(n), ChainGroups(n), NoLinks(), k);
  }

  lemma TooFewPasses(n: nat, evidence: Evidence, passes: nat, final: Subs, left: nat)
    requires passes < n && WholeRuns(ChainTable(n), evidence, ChainGroups(n), NoLinks(), passes, final, left)
    ensures left == 0
  {
    var wholes: seq<WholeRound> :|
      RunsBy(ChainTable(n), evidence, ChainGroups(n), NoLinks(), passes, final, left, wholes);
    if left > 0 {
      SpareInEvery(ChainTable(n), evidence, ChainGroups(n), wholes, 0);
      assert GoesBy(ChainTable(n), evidence, ChainGroups(n), wholes[0]);
      ChainSettles(n, wholes[0].k);
    }
  }

  /** So whatever the limit, a settling of a longer chain comes to it unsettled, with every
  comparison in it transitive. */
  lemma ChainMeetsLimit(n: nat, evidence: Evidence, limit: nat, rounds: seq<Round>)
    requires limit < n && Completes(ChainTable(n), evidence, ChainGroups(n), NoLinks(), limit, rounds)
    ensures Uniform(ChainTable(n), ChainGroups(n), NoLinks()) && rounds[|rounds| - 1].Rest() == 0
    ensures !Settled(ChainTable(n), ChainGroups(n), NoLinks(), limit)
  {
    ChainSettles(n, limit);
    CompletesAsWhole(ChainTable(n), evidence, ChainGroups(n), NoLinks(), limit, rounds);
    var left: nat := rounds[|rounds| - 1].Rest();
    if left > 0 {
      TooFewPasses(n, evidence, limit, Final(rounds).subs, left);
    }
  }
}
