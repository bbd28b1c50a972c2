/** What a path means, apart from the walkers: the legs it takes from type to type. A checker accepts
exactly the paths with a route that keeps its rules, a resolver adds up the route's offsets, and the
describer tells every route there is. */
module Routes {
  import opened RawTypes
  import opened TypeTables
  import opened Paths

  /** One step taken: inward, to a member told by a name, or across a pointer. */
  datatype Leg = Into(from: Id, name: Name, member: MemberDef) | Across(from: Id, target: Id)
  {
    function To(): Id {
      if Into? then member.ty else target
    }
  }

  ghost predicate Enters(leg: Leg, v: VariantDef) {
    leg.Into? && leg.name == v.name && leg.member == v.payload
  }

  /** The leg is one the step allows from where it starts; only a live variant allows several. */
  ghost predicate Takes(types: Types, step: Step, leg: Leg) {
    && leg.from < |types|
    && var def := types[leg.from];
       match step
       case Member(at) =>
         && (def.Struct? || def.Union?) && leg.Into? && leg.name == leg.member.name
         && exists i: nat :: Picks(def.members, at, i) && def.members[i] == leg.member
       case Deref => def.Pointer? && leg.Across? && leg.target == def.target
       case Variant(name) =>
         def.Enum? && exists i: nat :: PicksVariant(def.variants, name, i) && Enters(leg, def.variants[i])
       case ActiveVariant => def.Enum? && exists i :: 0 <= i < |def.variants| && Enters(leg, def.variants[i])
  }

  function Stop(root: Id, legs: seq<Leg>, i: nat): Id
    requires i <= |legs|
  {
    if i == 0 then root else legs[i - 1].To()
  }

  function End(root: Id, legs: seq<Leg>): Id {
    Stop(root, legs, |legs|)
  }

  ghost predicate LegOf(types: Types, root: Id, steps: seq<Step>, legs: seq<Leg>, i: nat)
    requires i < |steps| == |legs|
  {
    legs[i].from == Stop(root, legs, i) && Takes(types, steps[i], legs[i])
  }

  ghost predicate IsRoute(types: Types, root: Id, steps: seq<Step>, legs: seq<Leg>) {
    |legs| == |steps| && forall i: nat | i < |legs| :: LegOf(types, root, steps, legs, i)
  }

  /** Where the run begins that is under way after `i` legs: after the last pointer. */
  function RunStart(legs: seq<Leg>, i: nat): (r: nat)
    requires i <= |legs|
    ensures r <= i && (forall j | r <= j < i :: legs[j].Into?) && (r > 0 ==> legs[r - 1].Across?)
  {
    if i == 0 || legs[i - 1].Across? then i else RunStart(legs, i - 1)
  }

  function Bytes(legs: seq<Leg>): nat {
    if legs == [] then 0
    else Bytes(legs[..|legs| - 1]) + (if legs[|legs| - 1].Into? then legs[|legs| - 1].member.offset else 0)
  }

  /** How far into the type that heads the last run. */
  function Reach(legs: seq<Leg>): nat {
    Bytes(legs[RunStart(legs, |legs|)..])
  }

  // ----- routes one leg longer

  lemma RouteInit(types: Types, root: Id, steps: seq<Step>, legs: seq<Leg>, step: Step, leg: Leg)
    requires |steps| == |legs|
    ensures IsRoute(types, root, steps + [step], legs + [leg])
            <==> IsRoute(types, root, steps, legs) && leg.from == End(root, legs) && Takes(types, step, leg)
  {
    var longer, further := steps + [step], legs + [leg];
    forall i: nat | i < |legs|
      ensures LegOf(types, root, longer, further, i) <==> LegOf(types, root, steps, legs, i)
    {
    }
    assert LegOf(types, root, longer, further, |legs|) <==> leg.from == End(root, legs) && Takes(types, step, leg);
  }

  lemma RouteTail(types: Types, root: Id, steps: seq<Step>, legs: seq<Leg>, step: Step, leg: Leg)
    requires |steps| == |legs|
    ensures IsRoute(types, root, [step] + steps, [leg] + legs)
            <==> leg.from == root && Takes(types, step, leg) && IsRoute(types, leg.To(), steps, legs)
    ensures End(root, [leg] + legs) == End(leg.To(), legs)
  {
    var longer, further := [step] + steps, [leg] + legs;
    forall i: nat | i < |legs|
      ensures LegOf(types, root, longer, further, i + 1) <==> LegOf(types, leg.To(), steps, legs, i)
    {
    }
    assert LegOf(types, root, longer, further, 0) <==> leg.from == root && Takes(types, step, leg);
    if IsRoute(types, leg.To(), steps, legs) && leg.from == root && Takes(types, step, leg) {
      forall i: nat | i < |further|
        ensures LegOf(types, root, longer, further, i)
      {
        if i > 0 {
          assert LegOf(types, leg.To(), steps, legs, i - 1);
        }
      }
    }
    if IsRoute(types, root, longer, further) {
      forall i: nat | i < |legs|
        ensures LegOf(types, leg.To(), steps, legs, i)
      {
        assert LegOf(types, root, longer, further, i + 1);
      }
    }
  }

  lemma {:induction false} RunOfInit(legs: seq<Leg>, leg: Leg, i: nat)
    requires i <= |legs|
    ensures RunStart(legs + [leg], i) == RunStart(legs, i)
  {
    if i > 0 && legs[i - 1].Into? {
      RunOfInit(legs, leg, i - 1);
    }
  }

  lemma ReachFurther(legs: seq<Leg>, leg: Leg)
    ensures RunStart(legs + [leg], |legs| + 1) == if leg.Across? then |legs| + 1 else RunStart(legs, |legs|)
    ensures Reach(legs + [leg]) == if leg.Across? then 0 else Reach(legs) + leg.member.offset
  {
    RunOfInit(legs, leg, |legs|);
    var start := RunStart(legs + [leg], |legs| + 1);
    if leg.Into? {
      var run := (legs + [leg])[start..];
      assert run[..|run| - 1] == legs[start..];
    }
  }

  // ----- what the one-path checker accepts

  /** The strict policy takes members by name and crosses no union. */
  ghost predicate Allowed(types: Types, step: Step, cur: Id, semantic: bool)
    requires cur < |types|
  {
    semantic && step.Member? ==> step.at.Named? && !types[cur].Union?
  }

  ghost predicate Fits(types: Types, leg: Leg)
    requires leg.Into?
  {
    && SizeOf(types, leg.from).Some? && SizeOf(types, leg.member.ty).Some?
    && leg.member.offset + SizeOf(types, leg.member.ty).value <= SizeOf(types, leg.from).value
  }

  /** And of a leg inward it asks that the member is sized and ends no later than its parent does. */
  ghost predicate Within(types: Types, step: Step, leg: Leg)
    requires leg.Into? && leg.from < |types|
  {
    Allowed(types, step, leg.from, true) && Fits(types, leg)
  }

  /** Leg `i` comes to a type its run has not been at, and under the strict policy stays inside. */
  ghost predicate Keeps(types: Types, root: Id, steps: seq<Step>, legs: seq<Leg>, i: nat, semantic: bool)
    requires i < |steps| == |legs|
  {
    && legs[i].from < |types| && legs[i].To() < |types| && !steps[i].ActiveVariant?
    && (legs[i].Into? ==>
          && (forall j: nat | RunStart(legs, i) <= j <= i :: Stop(root, legs, j) != legs[i].To())
          && (semantic ==> Within(types, steps[i], legs[i])))
  }

  ghost predicate Accepts(types: Types, root: Id, steps: seq<Step>, legs: seq<Leg>, semantic: bool) {
    && IsRoute(types, root, steps, legs)
    && forall i: nat | i < |legs| :: Keeps(types, root, steps, legs, i, semantic)
  }

  /** Every step but a live variant allows one leg at most. */
  ghost function OnlyLeg(types: Types, cur: Id, step: Step): Option<Leg>
    requires cur < |types|
  {
    if step.Deref? then
      if types[cur].Pointer? then Some(Across(cur, types[cur].target)) else None
    else
      match MemberStep(types, cur, step)
      case None => None
      case Some(m) => Some(Into(cur, if step.Variant? then step.name else m.name, m))
  }

  lemma OneLeg(types: Types, step: Step, leg: Leg)
    requires leg.from < |types| && !step.ActiveVariant?
    ensures Takes(types, step, leg) <==> OnlyLeg(types, leg.from, step) == Some(leg)
  {
    var def := types[leg.from];
    if step.Member? && (def.Struct? || def.Union?) && leg.Into? {
      MemberFound(def.members, step.at, leg.member);
    }
    if step.Variant? && def.Enum? && leg.Into? {
      VariantFound(def.variants, step.name, VariantDef(leg.name, leg.member));
      VariantTold(types, step, leg);
    }
  }

  lemma VariantTold(types: Types, step: Step, leg: Leg)
    requires leg.from < |types| && step.Variant? && types[leg.from].Enum? && leg.Into?
    ensures Takes(types, step, leg)
            <==> VariantNamed(types[leg.from].variants, step.name) == Some(VariantDef(leg.name, leg.member))
    ensures var found := VariantNamed(types[leg.from].variants, step.name);
            found.Some? ==> found.value.name == step.name
  {
    var variants, v := types[leg.from].variants, VariantDef(leg.name, leg.member);
    VariantFound(variants, step.name, v);
    if i: nat :| PicksVariant(variants, step.name, i) && Enters(leg, variants[i]) {
      assert variants[i] == v;
    }
    var found := VariantNamed(variants, step.name);
    if found.Some? {
      VariantFound(variants, step.name, found.value);
    }
  }

  /** The types of the last run. */
  ghost function Visited(root: Id, legs: seq<Leg>): seq<Id> {
    if legs == [] then [root]
    else
      var init, last := legs[..|legs| - 1], legs[|legs| - 1];
      if last.Across? then [last.To()] else Visited(root, init) + [last.To()]
  }

  ghost predicate StopsBy(root: Id, legs: seq<Leg>, x: Id, j: nat) {
    RunStart(legs, |legs|) <= j <= |legs| && Stop(root, legs, j) == x
  }

  lemma {:induction false} VisitedStops(root: Id, legs: seq<Leg>, x: Id)
    ensures x in Visited(root, legs) <==> exists j: nat :: StopsBy(root, legs, x, j)
  {
    if legs == [] {
      assert StopsBy(root, legs, root, 0);
    } else {
      var init, last := legs[..|legs| - 1], legs[|legs| - 1];
      assert legs == init + [last];
      ReachFurther(init, last);
      assert StopsBy(root, legs, last.To(), |legs|);
      if last.Into? {
        VisitedStops(root, init, x);
        if j: nat :| StopsBy(root, init, x, j) {
          assert StopsBy(root, legs, x, j);
        }
        if j: nat :| StopsBy(root, legs, x, j) {
          assert j < |legs| ==> StopsBy(root, init, x, j);
        }
      }
    }
  }

  /** A checker's place is at the end of the route, having seen what the last run has. */
  ghost predicate At(types: Types, root: Id, legs: seq<Leg>, q: Place, semantic: bool) {
    && q.cur == End(root, legs) < |types| && q.seen == Visited(root, legs)
    && (semantic ==> Inside(types, q) && q.offset == Reach(legs))
  }

  lemma NewToRun(root: Id, legs: seq<Leg>, leg: Leg)
    requires leg.Into?
    ensures (forall j: nat | RunStart(legs + [leg], |legs|) <= j <= |legs| :: Stop(root, legs + [leg], j) != leg.To())
            <==> leg.To() !in Visited(root, legs)
  {
    RunOfInit(legs, leg, |legs|);
    VisitedStops(root, legs, leg.To());
    forall j: nat | j <= |legs|
      ensures Stop(root, legs + [leg], j) == Stop(root, legs, j)
    {
    }
    if j: nat :| StopsBy(root, legs, leg.To(), j) {
      assert Stop(root, legs + [leg], j) == leg.To();
    }
    if j: nat :| RunStart(legs + [leg], |legs|) <= j <= |legs| && Stop(root, legs + [leg], j) == leg.To() {
      assert StopsBy(root, legs, leg.To(), j);
    }
  }

  /** From the end of a route, the step goes on exactly along a leg that keeps the rules. */
  lemma LegIsAdvance(types: Types, root: Id, steps: seq<Step>, legs: seq<Leg>, q: Place, step: Step, leg: Leg,
                     semantic: bool)
    requires |steps| == |legs| && At(types, root, legs, q, semantic)
    requires leg.from == q.cur && !step.ActiveVariant? && Takes(types, step, leg)
    ensures Keeps(types, root, steps + [step], legs + [leg], |legs|, semantic)
            <==> Advance(types, q, step, semantic).Ok?
    ensures Advance(types, q, step, semantic).Ok?
            ==> At(types, root, legs + [leg], Advance(types, q, step, semantic).value, semantic)
  {
    OneLeg(types, step, leg);
    ReachFurther(legs, leg);
    assert (legs + [leg])[..|legs|] == legs;
    if leg.Into? {
      NewToRun(root, legs, leg);
      if semantic {
        InlineInside(types, q, leg.member);
      }
    }
  }

  lemma SomeLeg(types: Types, q: Place, step: Step, semantic: bool) returns (leg: Leg)
    requires q.cur < |types| && Advance(types, q, step, semantic).Ok?
    ensures leg.from == q.cur && !step.ActiveVariant? && Takes(types, step, leg)
  {
    leg := OnlyLeg(types, q.cur, step).value;
    OneLeg(types, step, leg);
  }

  lemma {:induction false} FollowInit(types: Types, p: Place, steps: seq<Step>, step: Step, semantic: bool)
    requires p.cur < |types|
    ensures Follow(types, p, steps + [step], semantic)
            == match Follow(types, p, steps, semantic)
               case Err(fault) => Err(fault)
               case Ok(q) => Advance(types, q, step, semantic)
    decreases |steps|
  {
    var longer := steps + [step];
    if steps != [] {
      assert longer[1..] == steps[1..] + [step];
      var next := Advance(types, p, steps[0], semantic);
      if next.Ok? {
        FollowInit(types, next.value, steps[1..], step, semantic);
      }
    } else {
      assert longer[1..] == [];
    }
  }

  lemma AcceptsInit(types: Types, root: Id, steps: seq<Step>, legs: seq<Leg>, step: Step, leg: Leg, semantic: bool)
    requires |steps| == |legs|
    ensures Accepts(types, root, steps + [step], legs + [leg], semantic)
            <==> && Accepts(types, root, steps, legs, semantic)
                 && leg.from == End(root, legs) && Takes(types, step, leg)
                 && Keeps(types, root, steps + [step], legs + [leg], |legs|, semantic)
  {
    var longer, further := steps + [step], legs + [leg];
    RouteInit(types, root, steps, legs, step, leg);
    forall i: nat | i < |legs|
      ensures Keeps(types, root, longer, further, i, semantic) <==> Keeps(types, root, steps, legs, i, semantic)
    {
      RunOfInit(legs, leg, i);
      assert longer[i] == steps[i] && further[i] == legs[i];
      assert forall j: nat | j <= i :: Stop(root, further, j) == Stop(root, legs, j);
    }
  }

  /** An accepted path has a route that keeps the rules, and the walk ends where it does. */
  lemma {:induction false} FollowedRoute(types: Types, root: Id, steps: seq<Step>, semantic: bool)
    returns (legs: seq<Leg>)
    requires root < |types| && Follow(types, Start(root), steps, semantic).Ok?
    ensures Accepts(types, root, steps, legs, semantic)
    ensures At(types, root, legs, Follow(types, Start(root), steps, semantic).value, semantic)
    decreases |steps|
  {
    legs := [];
    if steps != [] {
      var init, step := steps[..|steps| - 1], steps[|steps| - 1];
      assert steps == init + [step];
      FollowInit(types, Start(root), init, step, semantic);
      legs := FollowedRoute(types, root, init, semantic);
      var q := Follow(types, Start(root), init, semantic).value;
      var leg := SomeLeg(types, q, step, semantic);
      LegIsAdvance(types, root, init, legs, q, step, leg, semantic);
      AcceptsInit(types, root, init, legs, step, leg, semantic);
      legs := legs + [leg];
    }
  }

  /** And a path with such a route is accepted. */
  lemma {:induction false} RouteFollowed(types: Types, root: Id, steps: seq<Step>, legs: seq<Leg>, semantic: bool)
    requires root < |types| && Accepts(types, root, steps, legs, semantic)
    ensures Follow(types, Start(root), steps, semantic).Ok?
    ensures At(types, root, legs, Follow(types, Start(root), steps, semantic).value, semantic)
    decreases |steps|
  {
    if steps != [] {
      var init, step := steps[..|steps| - 1], steps[|steps| - 1];
      var before, leg := legs[..|legs| - 1], legs[|legs| - 1];
      assert steps == init + [step] && legs == before + [leg];
      AcceptsInit(types, root, init, before, step, leg, semantic);
      RouteFollowed(types, root, init, before, semantic);
      FollowInit(types, Start(root), init, step, semantic);
      LegIsAdvance(types, root, init, before, Follow(types, Start(root), init, semantic).value, step, leg, semantic);
    }
  }

  ghost predicate LandsBy(types: Types, root: Id, steps: seq<Step>, semantic: bool, t: Id, legs: seq<Leg>) {
    Accepts(types, root, steps, legs, semantic) && End(root, legs) == t && (semantic ==> SizeOf(types, t).Some?)
  }

  /** A path lands on a type exactly when it has a route there that keeps the rules of the policy. */
  lemma TargetExactly(types: Types, root: Id, steps: seq<Step>, semantic: bool, t: Id)
    ensures Target(types, root, steps, semantic) == Ok(t)
            <==> root < |types| && exists legs :: LandsBy(types, root, steps, semantic, t, legs)
  {
    if Target(types, root, steps, semantic) == Ok(t) {
      var legs := FollowedRoute(types, root, steps, semantic);
      assert LandsBy(types, root, steps, semantic, t, legs);
    }
    if root < |types| && exists legs :: LandsBy(types, root, steps, semantic, t, legs) {
      var legs :| LandsBy(types, root, steps, semantic, t, legs);
      RouteFollowed(types, root, steps, legs, semantic);
    }
  }

  // ----- why it faults

  ghost predicate NoLeg(types: Types, step: Step, cur: Id) {
    forall leg: Leg | leg.from == cur :: !Takes(types, step, leg)
  }

  /** The leg the step allows is refused: its size is not known, it leaves its parent, it comes back
  to a type of the run, or it leads out of the table. */
  ghost predicate Bars(types: Types, root: Id, legs: seq<Leg>, leg: Leg, semantic: bool, fault: Fault) {
    match fault
    case Unsized => semantic && leg.Into? && SizeOf(types, leg.member.ty).None?
    case OutOfBounds => semantic && leg.Into? && SizeOf(types, leg.member.ty).Some? && !Fits(types, leg)
    case TypeCycle => leg.Into? && (semantic ==> Fits(types, leg)) && leg.To() in Visited(root, legs)
    case InvalidType =>
      && leg.To() >= |types|
      && (leg.Into? ==> (semantic ==> Fits(types, leg)) && leg.To() !in Visited(root, legs))
    case _ => false
  }

  /** Why a step goes no further from the end of a route. */
  ghost predicate Refuses(types: Types, root: Id, legs: seq<Leg>, step: Step, semantic: bool, fault: Fault)
    requires End(root, legs) < |types|
  {
    var cur := End(root, legs);
    var def := types[cur];
    match fault
    case PositionalOrUnion => !Allowed(types, step, cur, semantic)
    case NonAggregate => Allowed(types, step, cur, semantic) && step.Member? && !def.Struct? && !def.Union?
    case NoMember =>
      Allowed(types, step, cur, semantic) && step.Member? && (def.Struct? || def.Union?) && NoLeg(types, step, cur)
    case NonPointer => step.Deref? && !def.Pointer?
    case NonEnum => step.Variant? && !def.Enum?
    case NoVariant => step.Variant? && def.Enum? && NoLeg(types, step, cur)
    case LiveVariant => step.ActiveVariant?
    case _ =>
      && Allowed(types, step, cur, semantic) && !step.ActiveVariant?
      && exists leg: Leg :: leg.from == cur && Takes(types, step, leg) && Bars(types, root, legs, leg, semantic, fault)
  }

  lemma NoneTaken(types: Types, step: Step, cur: Id)
    requires cur < |types| && !step.ActiveVariant?
    ensures NoLeg(types, step, cur) <==> OnlyLeg(types, cur, step).None?
  {
    var only := OnlyLeg(types, cur, step);
    if only.Some? {
      OneLeg(types, step, only.value);
    } else {
      forall leg: Leg | leg.from == cur
        ensures !Takes(types, step, leg)
      {
        OneLeg(types, step, leg);
      }
    }
  }

  lemma BarredLeg(types: Types, root: Id, legs: seq<Leg>, q: Place, step: Step, leg: Leg, semantic: bool, fault: Fault)
    requires At(types, root, legs, q, semantic) && leg.from == q.cur && Allowed(types, step, q.cur, semantic)
    requires !step.ActiveVariant? && Takes(types, step, leg)
    ensures Advance(types, q, step, semantic) == Err(fault) <==> Bars(types, root, legs, leg, semantic, fault)
  {
    OneLeg(types, step, leg);
    if leg.Into? && semantic {
      InlineInside(types, q, leg.member);
    }
  }

  lemma RefusedLeg(types: Types, root: Id, legs: seq<Leg>, step: Step, leg: Leg, semantic: bool, fault: Fault)
    requires End(root, legs) == leg.from < |types| && Allowed(types, step, leg.from, semantic)
    requires !step.ActiveVariant? && Takes(types, step, leg)
    ensures Refuses(types, root, legs, step, semantic, fault) <==> Bars(types, root, legs, leg, semantic, fault)
  {
    OneLeg(types, step, leg);
    forall other: Leg | other.from == leg.from && Takes(types, step, other)
      ensures other == leg
    {
      OneLeg(types, step, other);
    }
  }

  lemma RefusedStep(types: Types, root: Id, legs: seq<Leg>, q: Place, step: Step, semantic: bool, fault: Fault)
    requires At(types, root, legs, q, semantic)
    ensures Advance(types, q, step, semantic) == Err(fault) <==> Refuses(types, root, legs, step, semantic, fault)
  {
    if Allowed(types, step, q.cur, semantic) && !step.ActiveVariant? {
      var only := OnlyLeg(types, q.cur, step);
      if only.Some? {
        OneLeg(types, step, only.value);
        BarredLeg(types, root, legs, q, step, only.value, semantic, fault);
        RefusedLeg(types, root, legs, step, only.value, semantic, fault);
      } else {
        NoneTaken(types, step, q.cur);
      }
    }
  }

  lemma {:induction false} FirstFault(types: Types, p: Place, steps: seq<Step>, semantic: bool) returns (n: nat)
    requires p.cur < |types| && Follow(types, p, steps, semantic).Err?
    ensures n < |steps| && Follow(types, p, steps[..n], semantic).Ok?
    ensures Advance(types, Follow(types, p, steps[..n], semantic).value, steps[n], semantic)
            == Err(Follow(types, p, steps, semantic).fault)
    decreases |steps|
  {
    n := 0;
    var next := Advance(types, p, steps[0], semantic);
    if next.Ok? {
      var m := FirstFault(types, next.value, steps[1..], semantic);
      n := m + 1;
      assert steps[..n][1..] == steps[1..][..m];
    }
  }

  lemma {:induction false} FaultStands(types: Types, p: Place, steps: seq<Step>, n: nat, semantic: bool)
    requires p.cur < |types| && n <= |steps| && Follow(types, p, steps[..n], semantic).Err?
    ensures Follow(types, p, steps, semantic) == Follow(types, p, steps[..n], semantic)
    decreases |steps|
  {
    assert steps[..n] != [];
    var next := Advance(types, p, steps[0], semantic);
    if next.Ok? {
      assert steps[..n][1..] == steps[1..][..n - 1];
      FaultStands(types, next.value, steps[1..], n - 1, semantic);
    }
  }

  /** The path is accepted as far as the route goes, and the step after it is refused. */
  ghost predicate FaultsBy(types: Types, root: Id, steps: seq<Step>, semantic: bool, fault: Fault, legs: seq<Leg>)
    requires root < |types|
  {
    && |legs| <= |steps| && Accepts(types, root, steps[..|legs|], legs, semantic) && End(root, legs) < |types|
    && if |legs| < |steps| then Refuses(types, root, legs, steps[|legs|], semantic, fault)
       else semantic && SizeOf(types, End(root, legs)).None? && fault == UnsizedEnd
  }

  lemma FaultFound(types: Types, root: Id, steps: seq<Step>, semantic: bool, fault: Fault, legs: seq<Leg>)
    requires root < |types| && FaultsBy(types, root, steps, semantic, fault, legs)
    ensures Target(types, root, steps, semantic) == Err(fault)
  {
    var n := |legs|;
    RouteFollowed(types, root, steps[..n], legs, semantic);
    if n < |steps| {
      var q := Follow(types, Start(root), steps[..n], semantic).value;
      RefusedStep(types, root, legs, q, steps[n], semantic, fault);
      assert steps[..n + 1] == steps[..n] + [steps[n]];
      FollowInit(types, Start(root), steps[..n], steps[n], semantic);
      FaultStands(types, Start(root), steps, n + 1, semantic);
    } else {
      assert steps[..n] == steps;
    }
  }

  /** It does not resolve, and for a reason, exactly when the root is not in the table or there is a
  route to where that reason applies. */
  lemma FaultExactly(types: Types, root: Id, steps: seq<Step>, semantic: bool, fault: Fault)
    ensures Target(types, root, steps, semantic) == Err(fault)
            <==> if root >= |types| then fault == InvalidRoot
                 else exists legs :: FaultsBy(types, root, steps, semantic, fault, legs)
  {
    if root < |types| {
      if Target(types, root, steps, semantic) == Err(fault) {
        var legs := FaultedRoute(types, root, steps, semantic);
        assert FaultsBy(types, root, steps, semantic, fault, legs);
      }
      if legs :| FaultsBy(types, root, steps, semantic, fault, legs) {
        FaultFound(types, root, steps, semantic, fault, legs);
      }
    }
  }

  lemma FaultedRoute(types: Types, root: Id, steps: seq<Step>, semantic: bool) returns (legs: seq<Leg>)
    requires root < |types| && Target(types, root, steps, semantic).Err?
    ensures FaultsBy(types, root, steps, semantic, Target(types, root, steps, semantic).fault, legs)
  {
    var walk := Follow(types, Start(root), steps, semantic);
    if walk.Ok? {
      legs := FollowedRoute(types, root, steps, semantic);
      assert steps[..|legs|] == steps;
    } else {
      var n := FirstFault(types, Start(root), steps, semantic);
      legs := FollowedRoute(types, root, steps[..n], semantic);
      var q := Follow(types, Start(root), steps[..n], semantic).value;
      RefusedStep(types, root, legs, q, steps[n], semantic, walk.fault);
    }
  }

  // ----- offsets within one allocation

  /** A route that crosses no pointer and leaves nothing open. */
  ghost predicate Inward(types: Types, root: Id, steps: seq<Step>, legs: seq<Leg>) {
    && IsRoute(types, root, steps, legs)
    && forall i | 0 <= i < |legs| :: legs[i].Into? && !steps[i].ActiveVariant? && legs[i].To() < |types|
  }

  lemma {:induction false} BytesTail(leg: Leg, legs: seq<Leg>)
    requires leg.Into?
    ensures Bytes([leg] + legs) == leg.member.offset + Bytes(legs)
    decreases |legs|
  {
    var further := [leg] + legs;
    if legs != [] {
      assert further[..|further| - 1] == [leg] + legs[..|legs| - 1];
      BytesTail(leg, legs[..|legs| - 1]);
    }
  }

  lemma InwardTail(types: Types, root: Id, steps: seq<Step>, legs: seq<Leg>, step: Step, leg: Leg)
    requires |steps| == |legs|
    ensures Inward(types, root, [step] + steps, [leg] + legs)
            <==> && leg.from == root && Takes(types, step, leg) && leg.Into? && !step.ActiveVariant?
                 && leg.To() < |types| && Inward(types, leg.To(), steps, legs)
  {
    var longer, further := [step] + steps, [leg] + legs;
    RouteTail(types, root, steps, legs, step, leg);
    if Inward(types, root, longer, further) {
      forall i | 0 <= i < |legs|
        ensures legs[i].Into? && !steps[i].ActiveVariant? && legs[i].To() < |types|
      {
        assert further[i + 1] == legs[i] && longer[i + 1] == steps[i];
      }
      assert further[0] == leg && longer[0] == step;
    }
  }

  lemma {:induction false} OffsetRoute(types: Types, root: Id, steps: seq<Step>, offset: U64) returns (legs: seq<Leg>)
    requires root < |types| && OffsetFrom(types, root, steps, offset).Some?
    ensures Inward(types, root, steps, legs)
    ensures OffsetFrom(types, root, steps, offset) == Some(offset + Bytes(legs))
    decreases |steps|
  {
    legs := [];
    if steps != [] {
      var m := MemberStep(types, root, steps[0]).value;
      var leg := OnlyLeg(types, root, steps[0]).value;
      OneLeg(types, steps[0], leg);
      legs := OffsetRoute(types, m.ty, steps[1..], offset + m.offset);
      BytesTail(leg, legs);
      InwardTail(types, root, steps[1..], legs, steps[0], leg);
      assert steps == [steps[0]] + steps[1..];
      legs := [leg] + legs;
    }
  }

  lemma OffsetPast(types: Types, step: Step, leg: Leg, steps: seq<Step>, offset: U64)
    requires leg.from < |types| && leg.Into? && leg.To() < |types| && !step.ActiveVariant? && Takes(types, step, leg)
    requires offset + leg.member.offset < WORD64
    ensures OffsetFrom(types, leg.from, [step] + steps, offset)
            == OffsetFrom(types, leg.To(), steps, offset + leg.member.offset)
  {
    OneLeg(types, step, leg);
    assert ([step] + steps)[1..] == steps;
  }

  lemma {:induction false} RouteOffset(types: Types, root: Id, steps: seq<Step>, offset: U64, legs: seq<Leg>)
    requires root < |types| && Inward(types, root, steps, legs) && offset + Bytes(legs) < WORD64
    ensures OffsetFrom(types, root, steps, offset) == Some(offset + Bytes(legs))
    decreases |steps|
  {
    if steps != [] {
      var leg, rest := legs[0], legs[1..];
      assert steps == [steps[0]] + steps[1..] && legs == [leg] + rest;
      InwardTail(types, root, steps[1..], rest, steps[0], leg);
      BytesTail(leg, rest);
      OffsetPast(types, steps[0], leg, steps[1..], offset);
      RouteOffset(types, leg.To(), steps[1..], offset + leg.member.offset, rest);
    }
  }

  ghost predicate AddsUp(types: Types, root: Id, steps: seq<Step>, k: U64, legs: seq<Leg>) {
    Inward(types, root, steps, legs) && Bytes(legs) == k
  }

  /** The resolver answers exactly when the path stays within one allocation, and then the sum of the
  offsets on the way. */
  lemma OffsetExactly(types: Types, root: Id, steps: seq<Step>, k: U64)
    requires root < |types|
    ensures OffsetFrom(types, root, steps, 0) == Some(k) <==> exists legs :: AddsUp(types, root, steps, k, legs)
  {
    if OffsetFrom(types, root, steps, 0) == Some(k) {
      var legs := OffsetRoute(types, root, steps, 0);
      assert AddsUp(types, root, steps, k, legs);
    }
    if legs :| AddsUp(types, root, steps, k, legs) {
      RouteOffset(types, root, steps, 0, legs);
    }
  }
}
