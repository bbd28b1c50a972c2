/** One id space for units in the main file and units in a package (section 7.3.5 of DWARF 5):
each package unit is moved past everything before it. */
module SplitIds {
  import opened RawTypes
  import opened Units

  /** A unit of the main section, as the package index answers for it: a plain unit, a skeleton
  whose contribution is found with its size, or one that is missing. */
  datatype Header = PlainUnit | Skeleton(contribution: Option<nat>)

  datatype Job = PlainJob(unit: nat) | SplitJob(unit: nat, bias: nat, size: nat)

  datatype Plan = Plan(jobs: seq<Job>) | NoSkeletons | UnitsMissing(found: nat, total: nat)

  ghost predicate IsSkeleton(headers: seq<Header>, u: nat) {
    u < |headers| && headers[u].Skeleton?
  }

  ghost predicate IsMissing(headers: seq<Header>, u: nat) {
    u < |headers| && headers[u].Skeleton? && headers[u].contribution.None?
  }

  /** Each split unit starts where the one before it ends, or at the end of the main section. */
  ghost predicate Stacked(jobs: seq<Job>, floor: nat, top: nat) {
    && floor <= top
    && (forall i | 0 <= i < |jobs| && jobs[i].SplitJob? :: floor <= jobs[i].bias && jobs[i].bias + jobs[i].size <= top)
    && (forall i, j | 0 <= i < j < |jobs| && jobs[i].SplitJob? && jobs[j].SplitJob? ::
          jobs[i].bias + jobs[i].size <= jobs[j].bias)
  }

  /** A job for every unit that can be read, in order. */
  ghost predicate JobFor(headers: seq<Header>, job: Job, u: nat) {
    && u < |headers| && job.unit == u
    && match job
       case PlainJob(_) => headers[u].PlainUnit?
       case SplitJob(_, _, size) => headers[u] == Skeleton(Some(size))
  }

  ghost predicate Scheduled(headers: seq<Header>, jobs: seq<Job>, n: nat) {
    && (forall i | 0 <= i < |jobs| :: jobs[i].unit < n && JobFor(headers, jobs[i], jobs[i].unit))
    && (forall i, j | 0 <= i < j < |jobs| :: jobs[i].unit < jobs[j].unit)
    && (forall u: nat | u < n && u < |headers| && !IsMissing(headers, u) ::
          exists i :: 0 <= i < |jobs| && jobs[i].unit == u)
  }

  lemma ScheduleOneMore(headers: seq<Header>, jobs: seq<Job>, job: Job, n: nat)
    requires Scheduled(headers, jobs, n) && JobFor(headers, job, n)
    ensures Scheduled(headers, jobs + [job], n + 1)
  {
    var more := jobs + [job];
    forall u: nat | u < n + 1 && u < |headers| && !IsMissing(headers, u)
      ensures exists i :: 0 <= i < |more| && more[i].unit == u
    {
      if u == n {
        assert more[|jobs|].unit == u;
      } else {
        var i :| 0 <= i < |jobs| && jobs[i].unit == u;
        assert more[i].unit == u;
      }
    }
  }

  /** The skeletons before the `n`th unit, and of them the missing and the found. */
  ghost function Skeletons(headers: seq<Header>, n: nat): set<nat> {
    set u: nat | u < n && IsSkeleton(headers, u)
  }

  ghost function Missing(headers: seq<Header>, n: nat): set<nat> {
    set u: nat | u < n && IsMissing(headers, u)
  }

  ghost function Found(headers: seq<Header>, n: nat): set<nat> {
    set u: nat | u < n && IsSkeleton(headers, u) && !IsMissing(headers, u)
  }

  lemma CountOneMore(headers: seq<Header>, n: nat)
    ensures |Skeletons(headers, n + 1)| == |Skeletons(headers, n)| + if IsSkeleton(headers, n) then 1 else 0
    ensures |Missing(headers, n + 1)| == |Missing(headers, n)| + if IsMissing(headers, n) then 1 else 0
  {
    assert Skeletons(headers, n + 1) == Skeletons(headers, n) + if IsSkeleton(headers, n) then {n} else {};
    assert Missing(headers, n + 1) == Missing(headers, n) + if IsMissing(headers, n) then {n} else {};
  }

  lemma CountsAddUp(headers: seq<Header>, n: nat)
    ensures |Found(headers, n)| + |Missing(headers, n)| == |Skeletons(headers, n)|
  {
    assert Found(headers, n) !! Missing(headers, n);
    assert Found(headers, n) + Missing(headers, n) == Skeletons(headers, n);
  }

  lemma NoneCounted(headers: seq<Header>)
    ensures |Skeletons(headers, |headers|)| == 0 <==> !exists u: nat :: IsSkeleton(headers, u)
    ensures |Missing(headers, |headers|)| == 0 <==> !exists u: nat :: IsMissing(headers, u)
  {
    if u: nat :| IsSkeleton(headers, u) {
      assert u in Skeletons(headers, |headers|);
    } else {
      assert Skeletons(headers, |headers|) == {};
    }
    if u: nat :| IsMissing(headers, u) {
      assert u in Missing(headers, |headers|);
    } else {
      assert Missing(headers, |headers|) == {};
    }
  }

  /** Biases handed out in skeleton order, past the main section. */
  method PlanJobs(headers: seq<Header>, sectionLen: nat) returns (plan: Plan)
    ensures plan.Plan? <==> (exists u: nat :: IsSkeleton(headers, u)) && !exists u: nat :: IsMissing(headers, u)
    ensures plan == NoSkeletons <==> !exists u: nat :: IsSkeleton(headers, u)
    ensures plan.UnitsMissing? ==>
              plan.found == |Found(headers, |headers|)| && plan.total == |Skeletons(headers, |headers|)| > plan.found
    ensures plan.Plan? ==> Scheduled(headers, plan.jobs, |headers|)
    ensures plan.Plan? ==> exists top: nat :: Stacked(plan.jobs, sectionLen, top)
  {
    var next, jobs, total, missing := sectionLen, [], 0, 0;
    for u := 0 to |headers|
      invariant Scheduled(headers, jobs, u) && Stacked(jobs, sectionLen, next)
      invariant total == |Skeletons(headers, u)| && missing == |Missing(headers, u)|
    {
      CountOneMore(headers, u);
      match headers[u] {
        case PlainUnit =>
          ScheduleOneMore(headers, jobs, PlainJob(u), u);
          jobs := jobs + [PlainJob(u)];
        case Skeleton(contribution) =>
          assert IsSkeleton(headers, u);
          total := total + 1;
          if contribution.None? {
            assert IsMissing(headers, u);
            missing := missing + 1;
          } else {
            ScheduleOneMore(headers, jobs, SplitJob(u, next, contribution.value), u);
            jobs := jobs + [SplitJob(u, next, contribution.value)];
            next := next + contribution.value;
          }
      }
    }
    NoneCounted(headers);
    CountsAddUp(headers, |headers|);
    if total == 0 {
      return NoSkeletons;
    }
    if missing > 0 {
      return UnitsMissing(total - missing, total);
    }
    assert Stacked(jobs, sectionLen, next);
    return Plan(jobs);
  }

  // ----- units in the id space

  /** The value of a reference attribute: an offset from the unit's header, one from the start of
  its section, or anything else. */
  datatype Ref = InUnit(offset: nat) | InSection(offset: nat) | Elsewhere

  /** Where a unit lies: its header in its own section, how far its root DIE is behind it, its
  whole length, and how far the section is moved. */
  datatype Span = Span(bias: nat, header: nat, headerSize: nat, length: nat)
  {
    /** The id of the DIE at an offset of the unit's section. */
    function IdAt(offset: nat): nat {
      offset + bias
    }

    /** The id an attribute of this unit points at. */
    function RefId(r: Ref): Option<nat> {
      match r
      case InUnit(offset) => Some(IdAt(header + offset))
      case InSection(offset) => Some(IdAt(offset))
      case Elsewhere => None
    }

    function Root(): nat {
      IdAt(header + headerSize)
    }

    function End(): nat {
      IdAt(header + length)
    }

    /** DIEs come after the header and inside the length. */
    predicate HoldsDie(offset: nat) {
      header + headerSize <= offset < header + length
    }
  }

  /** The span of a job: a plain unit keeps to the main section, where units do not overlap; a
  package unit keeps to its contribution. */
  ghost predicate SpanOf(job: Job, span: Span, sectionLen: nat) {
    && span.headerSize < span.length
    && match job
       case PlainJob(_) => span.bias == 0 && span.header + span.length <= sectionLen
       case SplitJob(_, bias, size) => span.bias == bias && span.header + span.length <= size
  }

  ghost predicate Laid(jobs: seq<Job>, spans: seq<Span>, sectionLen: nat) {
    && |spans| == |jobs|
    && (forall i | 0 <= i < |jobs| :: SpanOf(jobs[i], spans[i], sectionLen))
    && (forall i, j | 0 <= i < |jobs| && 0 <= j < |jobs| && i != j && jobs[i].PlainJob? && jobs[j].PlainJob? ::
          spans[i].End() <= spans[j].header || spans[j].End() <= spans[i].header)
  }

  /** No two units share an id. */
  lemma SpansApart(jobs: seq<Job>, spans: seq<Span>, sectionLen: nat, top: nat, i: nat, j: nat)
    requires Stacked(jobs, sectionLen, top) && Laid(jobs, spans, sectionLen) && i < |jobs| && j < |jobs| && i != j
    ensures spans[i].End() <= spans[j].IdAt(spans[j].header) || spans[j].End() <= spans[i].IdAt(spans[i].header)
  {
    assert SpanOf(jobs[i], spans[i], sectionLen) && SpanOf(jobs[j], spans[j], sectionLen);
  }

  /** A DIE's id tells its unit and its offset. */
  lemma IdsInjective(jobs: seq<Job>, spans: seq<Span>, sectionLen: nat, top: nat, i: nat, a: nat, j: nat, b: nat)
    requires Stacked(jobs, sectionLen, top) && Laid(jobs, spans, sectionLen) && i < |jobs| && j < |jobs|
    requires spans[i].HoldsDie(a) && spans[j].HoldsDie(b)
    ensures spans[i].IdAt(a) == spans[j].IdAt(b) <==> i == j && a == b
  {
    if i != j {
      SpansApart(jobs, spans, sectionLen, top, i, j);
    }
  }

  /** Plain units lie in one section, and a package unit has its contribution to itself. */
  ghost predicate Together(jobs: seq<Job>, i: nat, j: nat) {
    i < |jobs| && j < |jobs| && (i == j || (jobs[i].PlainJob? && jobs[j].PlainJob?))
  }

  /** What `r`, found in unit `i`, means is the DIE at `offset` of unit `j`'s section. */
  ghost predicate Means(jobs: seq<Job>, spans: seq<Span>, i: nat, r: Ref, j: nat, offset: nat) {
    && |spans| == |jobs| && Together(jobs, i, j) && spans[j].HoldsDie(offset)
    && match r
       case InUnit(o) => i == j && offset == spans[i].header + o
       case InSection(o) => offset == o
       case Elsewhere => false
  }

  /** A reference leads to the id of the DIE it means, in whichever unit of the section that is,
  and two of either spelling lead to one id exactly when they mean one DIE. */
  lemma ReferencesAgree(jobs: seq<Job>, spans: seq<Span>, sectionLen: nat, top: nat,
                        i: nat, r: Ref, j: nat, a: nat, k: nat, s: Ref, l: nat, b: nat)
    requires Stacked(jobs, sectionLen, top) && Laid(jobs, spans, sectionLen)
    requires Means(jobs, spans, i, r, j, a) && Means(jobs, spans, k, s, l, b)
    ensures spans[i].RefId(r) == Some(spans[j].IdAt(a))
    ensures spans[i].RefId(r) == spans[k].RefId(s) <==> j == l && a == b
  {
    assert SpanOf(jobs[i], spans[i], sectionLen) && SpanOf(jobs[j], spans[j], sectionLen);
    assert SpanOf(jobs[k], spans[k], sectionLen) && SpanOf(jobs[l], spans[l], sectionLen);
    IdsInjective(jobs, spans, sectionLen, top, j, a, l, b);
  }

  ghost function OriginsOf(spans: seq<Span>): Origins
  {
    if spans == [] then map[]
      else OriginsOf(spans[..|spans| - 1])[spans[|spans| - 1].Root() := spans[|spans| - 1].End()]
  }

  lemma {:induction false} OriginsHave(spans: seq<Span>, id: nat)
    ensures id in OriginsOf(spans) ==>
              exists i :: 0 <= i < |spans| && spans[i].Root() == id && spans[i].End() == OriginsOf(spans)[id]
    ensures forall i | 0 <= i < |spans| :: spans[i].Root() in OriginsOf(spans)
  {
    if spans != [] {
      var init := spans[..|spans| - 1];
      OriginsHave(init, id);
      if id in OriginsOf(spans) && id != spans[|spans| - 1].Root() {
        var i :| 0 <= i < |init| && init[i].Root() == id && init[i].End() == OriginsOf(init)[id];
        assert spans[i] == init[i];
      }
      forall i | 0 <= i < |spans|
        ensures spans[i].Root() in OriginsOf(spans)
      {
        assert i < |init| ==> init[i] == spans[i];
      }
    }
  }

  lemma OriginsApart(jobs: seq<Job>, spans: seq<Span>, sectionLen: nat, top: nat)
    requires Stacked(jobs, sectionLen, top) && Laid(jobs, spans, sectionLen)
    ensures Disjoint(OriginsOf(spans))
  {
    var origins := OriginsOf(spans);
    forall a, b | a in origins && b in origins && a < b
      ensures origins[a] <= b
    {
      OriginsHave(spans, a);
      OriginsHave(spans, b);
      var i :| 0 <= i < |spans| && spans[i].Root() == a && spans[i].End() == origins[a];
      var j :| 0 <= j < |spans| && spans[j].Root() == b && spans[j].End() == origins[b];
      SpansApart(jobs, spans, sectionLen, top, i, j);
      assert SpanOf(jobs[i], spans[i], sectionLen) && SpanOf(jobs[j], spans[j], sectionLen);
    }
  }

  /** Looking a DIE's id up among the origins gives back the unit it came from. */
  lemma OriginOfDie(jobs: seq<Job>, spans: seq<Span>, sectionLen: nat, top: nat, i: nat, offset: nat)
    requires Stacked(jobs, sectionLen, top) && Laid(jobs, spans, sectionLen) && i < |jobs| && spans[i].HoldsDie(offset)
    ensures UnitOf(OriginsOf(spans), spans[i].IdAt(offset)) == Some(spans[i].Root())
  {
    OriginsApart(jobs, spans, sectionLen, top);
    OriginsHave(spans, spans[i].Root());
    var j :| 0 <= j < |spans| && spans[j].Root() == spans[i].Root()
      && spans[j].End() == OriginsOf(spans)[spans[i].Root()];
    assert SpanOf(jobs[i], spans[i], sectionLen) && SpanOf(jobs[j], spans[j], sectionLen);
    if j != i {
      SpansApart(jobs, spans, sectionLen, top, i, j);
    }
    UnitOfIsOwner(OriginsOf(spans), spans[i].IdAt(offset), spans[i].Root());
  }

  /** The id is that of the DIE at `offset` of unit `i`, whose root is at the id `unit`. */
  ghost predicate IsDieOf(spans: seq<Span>, i: nat, offset: nat, id: nat, unit: nat) {
    && i < |spans| && spans[i].HoldsDie(offset) && id == spans[i].bias + offset
    && unit == spans[i].bias + spans[i].header + spans[i].headerSize
  }

  lemma DieOfOrigin(jobs: seq<Job>, spans: seq<Span>, sectionLen: nat, top: nat, id: nat, unit: nat)
    returns (i: nat, offset: nat)
    requires Stacked(jobs, sectionLen, top) && Laid(jobs, spans, sectionLen)
    requires UnitOf(OriginsOf(spans), id) == Some(unit)
    ensures IsDieOf(spans, i, offset, id, unit)
  {
    OriginsApart(jobs, spans, sectionLen, top);
    UnitOfIsOwner(OriginsOf(spans), id, unit);
    OriginsHave(spans, unit);
    i :| 0 <= i < |spans| && spans[i].Root() == unit && spans[i].End() == OriginsOf(spans)[unit];
    offset := id - spans[i].bias;
  }

  /** An id has an origin exactly when it is a DIE's, and then the unit of that DIE, named by the id
  of its root behind the header: ids of headers and of gaps have none. */
  lemma OriginExactly(jobs: seq<Job>, spans: seq<Span>, sectionLen: nat, top: nat, id: nat, unit: nat)
    requires Stacked(jobs, sectionLen, top) && Laid(jobs, spans, sectionLen)
    ensures UnitOf(OriginsOf(spans), id) == Some(unit)
            <==> exists i: nat, offset: nat :: IsDieOf(spans, i, offset, id, unit)
  {
    if UnitOf(OriginsOf(spans), id) == Some(unit) {
      var i, offset := DieOfOrigin(jobs, spans, sectionLen, top, id, unit);
      assert IsDieOf(spans, i, offset, id, unit);
    }
    if i: nat, offset: nat :| IsDieOf(spans, i, offset, id, unit) {
      OriginOfDie(jobs, spans, sectionLen, top, i, offset);
    }
  }
}
