/** The worklist itself under another order: two settlings over the same groups, listed in any
order and with their ids in any order, go through the same rounds, pass by pass. */
module Mirrors {
  import opened RawTypes
  import opened Collections
  import opened Substitution
  import opened Layout
  import opened Groups
  import opened Passes
  import opened Grouping
  import opened DependencyIndex
  import opened FirstPass
  import opened Fixpoints
  import opened Reordering

  /** The same group in two lists of the groups. */
  ghost predicate Twins(a: seq<seq<TypeId>>, b: seq<seq<TypeId>>, i: nat, j: nat) {
    i < |a| && j < |b| && SameIds(a[i], b[j])
  }

  lemma TwinOf(table: Table, a: seq<seq<TypeId>>, b: seq<seq<TypeId>>, i: nat) returns (j: nat)
    requires Grouped(table, a) && Grouped(table, b) && i < |a|
    ensures Twins(a, b, i, j) && Twins(b, a, j, i)
  {
    j := SameGroups(table, a, b, i);
  }

  ghost predicate SameResults(a: seq<seq<TypeId>>, b: seq<seq<TypeId>>, r: seq<GroupResult>, q: seq<GroupResult>) {
    && |r| == |a| && |q| == |b|
    && forall i: nat, j: nat | Twins(a, b, i, j) :: r[i] == q[j]
  }

  ghost predicate SameList(a: seq<seq<TypeId>>, b: seq<seq<TypeId>>, x: seq<nat>, y: seq<nat>) {
    forall i: nat, j: nat | Twins(a, b, i, j) :: i in x <==> j in y
  }

  ghost predicate SameReferrers(a: seq<seq<TypeId>>, b: seq<seq<TypeId>>, f: seq<seq<nat>>, g: seq<seq<nat>>) {
    && |f| == |a| && |g| == |b|
    && forall i: nat, j: nat | Twins(a, b, i, j) :: SameList(a, b, f[i], g[j])
  }

  lemma TwinsTurn(a: seq<seq<TypeId>>, b: seq<seq<TypeId>>, i: nat, j: nat)
    ensures Twins(a, b, i, j) <==> Twins(b, a, j, i)
  {
  }

  lemma ResultsTurn(a: seq<seq<TypeId>>, b: seq<seq<TypeId>>, r: seq<GroupResult>, q: seq<GroupResult>)
    requires SameResults(a, b, r, q)
    ensures SameResults(b, a, q, r)
  {
    forall j: nat, i: nat | Twins(b, a, j, i)
      ensures q[j] == r[i]
    {
      TwinsTurn(a, b, i, j);
    }
  }

  lemma ListTurns(a: seq<seq<TypeId>>, b: seq<seq<TypeId>>, x: seq<nat>, y: seq<nat>)
    requires SameList(a, b, x, y)
    ensures SameList(b, a, y, x)
  {
    forall j: nat, i: nat | Twins(b, a, j, i)
      ensures j in y <==> i in x
    {
      TwinsTurn(a, b, i, j);
    }
  }

  lemma ReferrersTurn(a: seq<seq<TypeId>>, b: seq<seq<TypeId>>, f: seq<seq<nat>>, g: seq<seq<nat>>)
    requires SameReferrers(a, b, f, g)
    ensures SameReferrers(b, a, g, f)
  {
    forall j: nat, i: nat | Twins(b, a, j, i)
      ensures SameList(b, a, g[j], f[i])
    {
      TwinsTurn(a, b, i, j);
      ListTurns(a, b, f[i], g[j]);
    }
  }

  // ----- maps and lists

  lemma SameEntryOf(table: Table, base: map<TypeId, TypeId>, a: seq<seq<TypeId>>, b: seq<seq<TypeId>>,
                    r: seq<GroupResult>,
                    q: seq<GroupResult>, x: TypeId)
    requires Grouped(table, a) && Grouped(table, b) && Owned(a, r) && Owned(b, q) && SameResults(a, b, r, q)
    ensures x in MapOf(base, r) <==> x in MapOf(base, q)
    ensures x in MapOf(base, r) ==> MapOf(base, r)[x] == MapOf(base, q)[x]
  {
    if table.IsNamed(x) {
      var i := OwnerOf(table, a, x);
      var j := TwinOf(table, a, b, i);
      MapOfLookup(table, a, base, r, i, x);
      MapOfLookup(table, b, base, q, j, x);
    } else {
      MapOfStranger(table, a, base, r, x);
      MapOfStranger(table, b, base, q, x);
    }
  }

  lemma SameMap(table: Table, base: map<TypeId, TypeId>, a: seq<seq<TypeId>>, b: seq<seq<TypeId>>, r: seq<GroupResult>,
                q: seq<GroupResult>)
    requires Grouped(table, a) && Grouped(table, b) && Owned(a, r) && Owned(b, q) && SameResults(a, b, r, q)
    ensures MapOf(base, r) == MapOf(base, q)
  {
    forall x: TypeId
      ensures x in MapOf(base, r) <==> x in MapOf(base, q)
      ensures x in MapOf(base, r) ==> MapOf(base, r)[x] == MapOf(base, q)[x]
    {
      SameEntryOf(table, base, a, b, r, q, x);
    }
  }

  lemma SameFresh(p: Partition, a: seq<seq<TypeId>>, b: seq<seq<TypeId>>)
    ensures SameResults(a, b, ResultsOf(p, a), ResultsOf(p, b))
  {
    forall i: nat, j: nat | Twins(a, b, i, j)
      ensures ResultsOf(p, a)[i] == ResultsOf(p, b)[j]
    {
      SameResult(p, a[i], b[j]);
    }
  }

  lemma SameOverlay(p: Partition, a: seq<seq<TypeId>>, b: seq<seq<TypeId>>, r: seq<GroupResult>, q: seq<GroupResult>,
                    x: seq<nat>, y: seq<nat>)
    requires SameResults(a, b, r, q) && SameList(a, b, x, y)
    ensures SameResults(a, b, Overlay(r, ResultsOf(p, a), x), Overlay(q, ResultsOf(p, b), y))
  {
    SameFresh(p, a, b);
  }

  lemma AffectedToo(table: Table, a: seq<seq<TypeId>>, b: seq<seq<TypeId>>, f: seq<seq<nat>>, g: seq<seq<nat>>,
                    r: seq<GroupResult>, r': seq<GroupResult>, q: seq<GroupResult>, q': seq<GroupResult>, i: nat,
                    j: nat)
    requires Grouped(table, a) && Grouped(table, b) && SameReferrers(a, b, f, g)
    requires SameResults(a, b, r, q) && SameResults(a, b, r', q') && Twins(a, b, i, j)
    requires Affected(f, r, r', i)
    ensures Affected(g, q, q', j)
  {
    var h :| 0 <= h < |r| && r[h] != r'[h] && i in f[h];
    var k := TwinOf(table, a, b, h);
    assert SameList(a, b, f[h], g[k]);
  }

  /** Who comes next is the same. */
  lemma SameNext(table: Table, a: seq<seq<TypeId>>, b: seq<seq<TypeId>>, f: seq<seq<nat>>, g: seq<seq<nat>>,
                 r: seq<GroupResult>, r': seq<GroupResult>, q: seq<GroupResult>, q': seq<GroupResult>, x: seq<nat>,
                 y: seq<nat>)
    requires Grouped(table, a) && Grouped(table, b) && SameReferrers(a, b, f, g)
    requires SameResults(a, b, r, q) && SameResults(a, b, r', q')
    requires Notified(f, r, r', Elements(x)) && Notified(g, q, q', Elements(y))
    ensures SameList(a, b, x, y)
  {
    ReferrersTurn(a, b, f, g);
    ResultsTurn(a, b, r, q);
    ResultsTurn(a, b, r', q');
    forall i: nat, j: nat | Twins(a, b, i, j)
      ensures i in x <==> j in y
    {
      assert i in x <==> i in Elements(x);
      assert j in y <==> j in Elements(y);
      TwinsTurn(a, b, i, j);
      if Affected(f, r, r', i) {
        AffectedToo(table, a, b, f, g, r, r', q, q', i, j);
      }
      if Affected(g, q, q', j) {
        AffectedToo(table, b, a, g, f, q, q', r, r', j, i);
      }
    }
  }

  lemma SeededToo(table: Table, a: seq<seq<TypeId>>, b: seq<seq<TypeId>>, f: seq<seq<nat>>, g: seq<seq<nat>>,
                  r: seq<GroupResult>, q: seq<GroupResult>, i: nat, j: nat)
    requires Grouped(table, a) && Grouped(table, b) && SameReferrers(a, b, f, g)
    requires SameResults(a, b, r, q) && Twins(a, b, i, j) && SeededBy(f, r, i, |r|)
    ensures SeededBy(g, q, j, |q|)
  {
    var h :| 0 <= h < |r| && r[h].canonicals > 1 && i in f[h];
    var k := TwinOf(table, a, b, h);
    assert SameList(a, b, f[h], g[k]);
  }

  lemma SameSeed(table: Table, a: seq<seq<TypeId>>, b: seq<seq<TypeId>>, f: seq<seq<nat>>, g: seq<seq<nat>>,
                 r: seq<GroupResult>, q: seq<GroupResult>, x: seq<nat>, y: seq<nat>)
    requires Grouped(table, a) && Grouped(table, b) && SameReferrers(a, b, f, g) && SameResults(a, b, r, q)
    requires IsSeed(f, r, x) && IsSeed(g, q, y)
    ensures SameList(a, b, x, y)
  {
    ReferrersTurn(a, b, f, g);
    ResultsTurn(a, b, r, q);
    forall i: nat, j: nat | Twins(a, b, i, j)
      ensures i in x <==> j in y
    {
      TwinsTurn(a, b, i, j);
      if SeededBy(f, r, i, |r|) {
        SeededToo(table, a, b, f, g, r, q, i, j);
      }
      if SeededBy(g, q, j, |q|) {
        SeededToo(table, b, a, g, f, q, r, j, i);
      }
    }
  }

  lemma SomeToo(table: Table, a: seq<seq<TypeId>>, b: seq<seq<TypeId>>, x: seq<nat>, y: seq<nat>)
    requires Grouped(table, a) && Grouped(table, b) && SameList(a, b, x, y) && InBounds(x, |a|) && x != []
    ensures y != []
  {
    var j := TwinOf(table, a, b, x[0]);
    assert x[0] in x;
  }

  lemma OneTwin(table: Table, a: seq<seq<TypeId>>, b: seq<seq<TypeId>>, i: nat, j: nat, i': nat, j': nat)
    requires Grouped(table, a) && Grouped(table, b) && Twins(a, b, i, j) && Twins(a, b, i', j')
    ensures i == i' <==> j == j'
  {
    assert a[i][0] in a[i] && a[i'][0] in a[i'];
    if i == i' {
      OneOwner(table, b, j, j', a[i][0]);
    }
    if j == j' {
      OneOwner(table, a, i, i', a[i][0]);
    }
  }

  function Without(y: seq<nat>, k: nat): seq<nat>
    requires k < |y|
  {
    y[..k] + y[k + 1..]
  }

  lemma WithoutHas(y: seq<nat>, k: nat)
    requires k < |y| && NoRepeats(y)
    ensures NoRepeats(Without(y, k))
    ensures forall j :: j in Without(y, k) <==> j in y && j != y[k]
  {
    forall j
      ensures j in Without(y, k) <==> j in y && j != y[k]
    {
      if j in y && j != y[k] {
        var i :| 0 <= i < |y| && y[i] == j;
        assert i < k ==> y[..k][i] == j;
        assert i > k ==> y[k + 1..][i - k - 1] == j;
      }
      if j in y[..k] {
        var i :| 0 <= i < k && y[i] == j;
      }
      if j in y[k + 1..] {
        var i :| k < i < |y| && y[i] == j;
      }
    }
  }

  lemma FewerTwins(table: Table, a: seq<seq<TypeId>>, b: seq<seq<TypeId>>, x: seq<nat>, y: seq<nat>, k: nat, l: nat)
    requires Grouped(table, a) && Grouped(table, b) && SameList(a, b, x, y) && NoRepeats(x) && NoRepeats(y)
    requires k < |x| && l < |y| && Twins(a, b, x[k], y[l])
    ensures SameList(a, b, Without(x, k), Without(y, l))
  {
    WithoutHas(x, k);
    WithoutHas(y, l);
    forall i: nat, j: nat | Twins(a, b, i, j)
      ensures i in Without(x, k) <==> j in Without(y, l)
    {
      OneTwin(table, a, b, i, j, x[k], y[l]);
    }
  }

  lemma {:induction false} NotLonger(table: Table, a: seq<seq<TypeId>>, b: seq<seq<TypeId>>, x: seq<nat>, y: seq<nat>)
    requires Grouped(table, a) && Grouped(table, b) && SameList(a, b, x, y)
    requires NoRepeats(x) && NoRepeats(y) && InBounds(x, |a|)
    ensures |x| <= |y|
    decreases |x|
  {
    if x != [] {
      var j := TwinOf(table, a, b, x[0]);
      assert x[0] in x;
      var l :| 0 <= l < |y| && y[l] == j;
      FewerTwins(table, a, b, x, y, 0, l);
      WithoutHas(x, 0);
      WithoutHas(y, l);
      NotLonger(table, a, b, Without(x, 0), Without(y, l));
    }
  }

  lemma SameLength(table: Table, a: seq<seq<TypeId>>, b: seq<seq<TypeId>>, x: seq<nat>, y: seq<nat>)
    requires Grouped(table, a) && Grouped(table, b) && SameList(a, b, x, y)
    requires NoRepeats(x) && NoRepeats(y) && InBounds(x, |a|) && InBounds(y, |b|)
    ensures |x| == |y|
  {
    ListTurns(a, b, x, y);
    NotLonger(table, a, b, x, y);
    NotLonger(table, b, a, y, x);
  }

  // ----- the dependency index

  lemma {:induction false} ReachedToo(table: Table, base: Subs, a: seq<seq<TypeId>>, b: seq<seq<TypeId>>,
                                      index: map<GroupKey, nat>, other: map<GroupKey, nat>, id: TypeId, n: nat,
                                      i: nat, j: nat)
    requires Grouped(table, a) && Grouped(table, b) && Indexes(table, a, index) && Indexes(table, b, other)
    requires Twins(a, b, i, j) && Reached(table, base, index, id, n) == Some(i)
    ensures Reached(table, base, other, id, n) == Some(j)
    decreases n
  {
    var root := Canon(base, id);
    if table.Key(root).Some? {
      var key := table.Key(root).value;
      assert a[i][0] in a[i];
      assert table.Key(a[i][0]) == Some(key);
      assert table.Key(b[j][0]) == Some(key);
      assert key in other && table.Key(b[other[key]][0]) == Some(key);
    } else if table.types[root].Pointer? {
      ReachedToo(table, base, a, b, index, other, table.types[root].target, n - 1, i, j);
    } else {
      ReachedToo(table, base, a, b, index, other, table.types[root].elem, n - 1, i, j);
    }
  }

  lemma DependsToo(p: Partition, a: seq<seq<TypeId>>, b: seq<seq<TypeId>>, index: map<GroupKey, nat>,
                   other: map<GroupKey, nat>, i: nat, j: nat, dep: nat, twin: nat)
    requires Grouped(p.table, a) && Grouped(p.table, b) && Indexes(p.table, a, index) && Indexes(p.table, b, other)
    requires Twins(a, b, i, j) && Twins(a, b, dep, twin)
    requires DependsWithin(p.table, p.base, Result(p, a[i]), index, a[i], dep)
    ensures DependsWithin(p.table, p.base, Result(p, b[j]), other, b[j], twin)
  {
    SameResult(p, a[i], b[j]);
    var k :| 0 <= k < |a[i]| && Walked(p.table, Result(p, a[i]), Canon(p.base, a[i][k]))
             && ReachesFrom(p.table, p.base, index, ReferencedTypes(p.table.types[Canon(p.base, a[i][k])]), dep);
    var refs := ReferencedTypes(p.table.types[Canon(p.base, a[i][k])]);
    var r :| r in refs && Reached(p.table, p.base, index, r, CHAIN_BOUND) == Some(dep);
    ReachedToo(p.table, p.base, a, b, index, other, r, CHAIN_BOUND, dep, twin);
    assert ReachesFrom(p.table, p.base, other, refs, twin);
    assert a[i][k] in b[j];
    var m :| 0 <= m < |b[j]| && b[j][m] == a[i][k];
  }

  lemma SameDependencies(p: Partition, a: seq<seq<TypeId>>, b: seq<seq<TypeId>>, index: map<GroupKey, nat>,
                         other: map<GroupKey, nat>, deps: seq<set<nat>>, others: seq<set<nat>>, i: nat, j: nat,
                         dep: nat, twin: nat)
    requires Grouped(p.table, a) && Grouped(p.table, b) && Indexes(p.table, a, index) && Indexes(p.table, b, other)
    requires |deps| == |a| && |others| == |b|
    requires AreDependencies(p, a, index, deps) && AreDependencies(p, b, other, others)
    requires Twins(a, b, i, j) && Twins(a, b, dep, twin)
    ensures dep in deps[i] <==> twin in others[j]
  {
    TwinsTurn(a, b, i, j);
    TwinsTurn(a, b, dep, twin);
    assert IsDependencies(p, a, index, deps[i], i) && IsDependencies(p, b, other, others[j], j);
    if dep in deps[i] {
      DependsToo(p, a, b, index, other, i, j, dep, twin);
    }
    if twin in others[j] {
      DependsToo(p, b, a, other, index, j, i, twin, dep);
    }
  }

  lemma InvertedToo(a: seq<seq<TypeId>>, b: seq<seq<TypeId>>, deps: seq<set<nat>>, others: seq<set<nat>>,
                    f: seq<seq<nat>>, g: seq<seq<nat>>)
    requires |deps| == |a| && |others| == |b| && Inverts(deps, f) && Inverts(others, g)
    requires forall i: nat, j: nat, dep: nat, twin: nat | Twins(a, b, i, j) && Twins(a, b, dep, twin) ::
               dep in deps[i] <==> twin in others[j]
    ensures SameReferrers(a, b, f, g)
  {
    forall dep: nat, twin: nat | Twins(a, b, dep, twin)
      ensures SameList(a, b, f[dep], g[twin])
    {
      forall i: nat, j: nat | Twins(a, b, i, j)
        ensures i in f[dep] <==> j in g[twin]
      {
        assert i in f[dep] <==> dep in deps[i];
        assert j in g[twin] <==> twin in others[j];
      }
    }
  }

  // ----- two partitions in progress

  /** The same map over the same base, and group by group the same results and referrers. */
  ghost predicate Mirror(s: State, t: State) {
    && s.table == t.table && s.base == t.base && s.subs == t.subs
    && s.Represents() && t.Represents()
    && SameReferrers(s.groups, t.groups, s.referrers, t.referrers)
    && SameResults(s.groups, t.groups, s.first, t.first)
    && SameResults(s.groups, t.groups, s.Results(), t.Results())
  }

  lemma BegunReferrers(s: State, t: State)
    requires s.Begun() && t.Begun() && s.table == t.table && s.base == t.base
    requires Grouped(s.table, s.groups) && Grouped(t.table, t.groups)
    ensures SameReferrers(s.groups, t.groups, s.referrers, t.referrers)
  {
    var p := Partition(s.table, s.base, None);
    var index :| Indexes(s.table, s.groups, index) && AreDependencies(p, s.groups, index, s.deps);
    var other :| Indexes(t.table, t.groups, other) && AreDependencies(p, t.groups, other, t.deps);
    forall i: nat, j: nat, dep: nat, twin: nat | Twins(s.groups, t.groups, i, j) && Twins(s.groups, t.groups, dep, twin)
      ensures dep in s.deps[i] <==> twin in t.deps[j]
    {
      SameDependencies(p, s.groups, t.groups, index, other, s.deps, t.deps, i, j, dep, twin);
    }
    InvertedToo(s.groups, t.groups, s.deps, t.deps, s.referrers, t.referrers);
  }

  lemma UnmovedResults(s: State)
    requires s.Unmoved() && |s.first| == |s.current|
    ensures s.Results() == s.first
  {
  }

  lemma BegunResults(s: State, t: State)
    requires s.Begun() && t.Begun() && s.table == t.table && s.base == t.base && GroupClosed(s.table, s.base)
    requires Grouped(s.table, s.groups) && Grouped(t.table, t.groups)
    ensures SameResults(s.groups, t.groups, s.first, t.first) && s.subs == t.subs
  {
    var p := Partition(s.table, s.base, None);
    SameFresh(p, s.groups, t.groups);
    ResultsOwned(p, s.groups);
    ResultsOwned(p, t.groups);
    SameMap(s.table, s.base, s.groups, t.groups, s.first, t.first);
  }

  lemma MirrorAtFirst(s: State, t: State)
    requires s.Unmoved() && t.Unmoved() && s.Represents() && t.Represents()
    requires s.table == t.table && s.base == t.base && s.subs == t.subs
    requires SameReferrers(s.groups, t.groups, s.referrers, t.referrers)
    requires SameResults(s.groups, t.groups, s.first, t.first)
    ensures Mirror(s, t)
  {
    UnmovedResults(s);
    UnmovedResults(t);
  }

  lemma BegunMirrors(s: State, t: State)
    requires s.Begun() && s.Unmoved() && |s.first| == |s.current| && t.Begun() && t.Unmoved()
             && |t.first| == |t.current|
    requires s.table == t.table && s.base == t.base && GroupClosed(s.table, s.base)
    requires Grouped(s.table, s.groups) && Grouped(t.table, t.groups)
    ensures Mirror(s, t)
  {
    BegunRepresents(s);
    BegunRepresents(t);
    BegunReferrers(s, t);
    BegunResults(s, t);
    MirrorAtFirst(s, t);
  }

  lemma StepMirrors(s: State, x: seq<nat>, s': State, next: seq<nat>, t: State, y: seq<nat>, t': State, other: seq<nat>)
    requires Mirror(s, t) && SameList(s.groups, t.groups, x, y)
    requires StepOf(s, x, s', next) && StepOf(t, y, t', other)
    ensures Mirror(s', t') && SameList(s.groups, t.groups, next, other)
  {
    StepRepresents(s, x, s', next);
    StepRepresents(t, y, t', other);
    SameOverlay(Partition(s.table, s.base, Some(s.subs)), s.groups, t.groups, s.Results(), t.Results(), x, y);
    SameMap(s.table, s.base, s.groups, t.groups, s'.Results(), t'.Results());
    SameNext(s.table, s.groups, t.groups, s.referrers, t.referrers, s.Results(), s'.Results(), t.Results(),
             t'.Results(),
             next, other);
  }

  ghost predicate MirrorAt(run: Run, other: Run, k: nat)
    requires k < |run.states| == |run.lists| && k < |other.states| == |other.lists|
  {
    && Mirror(run.states[k], other.states[k])
    && SameList(run.states[k].groups, other.states[k].groups, run.lists[k], other.lists[k])
  }

  lemma RunSeeds(run: Run, s: State, s': State, other: Run, t: State, t': State)
    requires run.Of(s, s') && other.Of(t, t') && Mirror(s, t)
    ensures MirrorAt(run, other, 0)
  {
    SameSeed(s.table, s.groups, t.groups, s.referrers, t.referrers, s.Results(), t.Results(), run.lists[0],
             other.lists[0]);
  }

  lemma RunStep(run: Run, other: Run, i: nat, k: nat)
    requires k < |run.states| == |run.lists| && k < |other.states| == |other.lists| && k == i + 1
    requires run.StepsAt(i) && other.StepsAt(i) && MirrorAt(run, other, i)
    ensures MirrorAt(run, other, k)
  {
    StepMirrors(run.states[i], run.lists[i], run.states[k], run.lists[k],
                other.states[i], other.lists[i], other.states[k], other.lists[k]);
  }

  /** Pass by pass the two cascades mirror each other. */
  lemma {:induction false} RunMirrors(run: Run, s: State, s': State, other: Run, t: State, t': State, k: nat)
    requires run.Of(s, s') && other.Of(t, t') && Mirror(s, t) && k < |run.states| && k < |other.states|
    ensures MirrorAt(run, other, k)
    decreases k
  {
    if k == 0 {
      RunSeeds(run, s, s', other, t, t');
    } else {
      var i := k - 1;
      RunMirrors(run, s, s', other, t, t', i);
      RunStep(run, other, i, k);
    }
  }

  lemma LeftToo(run: Run, other: Run, k: nat)
    requires k < |run.states| == |run.lists| && k < |other.states| == |other.lists| && MirrorAt(run, other, k)
    requires InBounds(other.lists[k], |other.states[k].groups|) && other.lists[k] != []
    ensures run.lists[k] != []
  {
    var s, t := run.states[k], other.states[k];
    ListTurns(s.groups, t.groups, run.lists[k], other.lists[k]);
    SomeToo(s.table, t.groups, s.groups, other.lists[k], run.lists[k]);
  }

  lemma GoesOn(run: Run, k: nat)
    requires run.Steps() && k < |run.states| - 1
    ensures InBounds(run.lists[k], |run.states[k].groups|) && NoRepeats(run.lists[k]) && run.lists[k] != []
  {
  }

  /** With as many passes to spend, neither cascade stops before the other. */
  lemma NoFewer(run: Run, s: State, s': State, other: Run, t: State, t': State, n: nat)
    requires run.Of(s, s') && other.Of(t, t') && Mirror(s, t)
    requires (run.Passes() < n ==> run.Last() == []) && other.Passes() <= n
    ensures other.Passes() <= run.Passes()
  {
    var k := run.Passes();
    if k < other.Passes() {
      RunMirrors(run, s, s', other, t, t', k);
      GoesOn(other, k);
      LeftToo(run, other, k);
    }
  }

  lemma SameLoadAt(run: Run, other: Run, k: nat)
    requires run.Steps() && other.Steps() && k < |run.states| - 1 && k < |other.states| - 1 && MirrorAt(run, other, k)
    ensures |run.lists[k]| == |other.lists[k]|
  {
    GoesOn(run, k);
    GoesOn(other, k);
    SameLength(run.states[k].table, run.states[k].groups, other.states[k].groups, run.lists[k], other.lists[k]);
  }

  lemma {:induction false} SameTotal(x: seq<seq<nat>>, y: seq<seq<nat>>)
    requires |x| == |y| && forall i | 0 <= i < |x| :: |x[i]| == |y[i]|
    ensures Total(x) == Total(y)
  {
    if x != [] {
      SameTotal(x[..|x| - 1], y[..|y| - 1]);
    }
  }

  lemma SameLoad(run: Run, s: State, s': State, other: Run, t: State, t': State)
    requires run.Of(s, s') && other.Of(t, t') && Mirror(s, t) && run.Passes() == other.Passes()
    ensures run.Load() == other.Load()
  {
    forall k: nat | k < |run.lists| - 1
      ensures |run.lists[k]| == |other.lists[k]|
    {
      RunMirrors(run, s, s', other, t, t', k);
      SameLoadAt(run, other, k);
    }
    LoadsAddUp(run, other);
  }

  lemma LoadsAddUp(run: Run, other: Run)
    requires |run.lists| == |other.lists| > 0
    requires forall k: nat | k < |run.lists| - 1 :: |run.lists[k]| == |other.lists[k]|
    ensures run.Load() == other.Load()
  {
    SameTotal(run.lists[..|run.lists| - 1], other.lists[..|run.lists| - 1]);
  }
}
