/** What the describer tells: every route of a path, hop by hop, or how far one gets. */
module Descriptions {
  import opened RawTypes
  import opened TypeTables
  import opened Paths
  import opened FanOut
  import opened Routes

  /** How a leg reads: by the name it was taken under, with the position where the step gave one. */
  function HopOf(step: Step, leg: Leg): Hop {
    if leg.Across? then PointerHop
    else if step.Member? then MemberHop(leg.name, if step.at.Index? then Some(step.at.index) else None)
    else VariantHop(leg.name)
  }

  function Hops(steps: seq<Step>, legs: seq<Leg>): seq<Hop>
    requires |legs| <= |steps|
  {
    seq(|legs|, i requires 0 <= i < |legs| => HopOf(steps[i], legs[i]))
  }

  predicate Crosses(legs: seq<Leg>) {
    exists i :: 0 <= i < |legs| && legs[i].Across?
  }

  /** How far a route comes that starts `offset` into an allocation, in machine arithmetic. */
  ghost function Carried(offset: U64, legs: seq<Leg>): U64 {
    (if Crosses(legs) then Reach(legs) else offset + Bytes(legs)) % WORD64
  }

  /** Why the describer breaks off at a step. */
  ghost predicate Breaks(types: Types, cur: Id, step: Step, fault: Fault) {
    && NoLeg(types, step, cur)
    && match step
       case Member(_) => fault == if MembersAt(types, cur).Some? then NoMember else NonAggregate
       case Deref => fault == NonPointer
       case Variant(_) => fault == NoVariant
       case ActiveVariant => fault == if cur < |types| && types[cur].Enum? then EmptyEnum else NonEnum
  }

  /** The landing tells the route: to the end of the path, or to a step no leg takes. */
  ghost predicate Tells(types: Types, root: Id, steps: seq<Step>, chain: seq<Hop>, offset: U64, legs: seq<Leg>,
                        landing: Landing) {
    && |legs| <= |steps| && IsRoute(types, root, steps[..|legs|], legs)
    && landing.ty == End(root, legs) && landing.offset == Carried(offset, legs)
    && if |legs| == |steps| then landing.chain == chain + Hops(steps, legs)
       else exists fault ::
              && Breaks(types, End(root, legs), steps[|legs|], fault)
              && landing.chain == chain + Hops(steps, legs) + [Broken(fault)]
  }

  ghost predicate Told(types: Types, root: Id, steps: seq<Step>, chain: seq<Hop>, offset: U64, landing: Landing) {
    exists legs :: Tells(types, root, steps, chain, offset, legs, landing)
  }

  // ----- a route from its first leg on

  lemma CrossesInit(legs: seq<Leg>, last: Leg)
    ensures Crosses(legs + [last]) <==> Crosses(legs) || last.Across?
  {
    var further := legs + [last];
    assert further[|legs|] == last;
    if i :| 0 <= i < |legs| && legs[i].Across? {
      assert further[i].Across?;
    }
    if i :| 0 <= i < |further| && further[i].Across? {
      assert i < |legs| ==> legs[i].Across?;
    }
  }

  /** After the first leg the rest reaches what it would alone, if it crosses a pointer; or else,
  from a pointer, the sum of its offsets. */
  ghost predicate ReachesOn(leg: Leg, legs: seq<Leg>) {
    && (Crosses(legs) ==> Reach([leg] + legs) == Reach(legs))
    && (!Crosses(legs) && leg.Across? ==> Reach([leg] + legs) == Bytes(legs))
  }

  lemma ReachesFurther(leg: Leg, legs: seq<Leg>, last: Leg)
    requires ReachesOn(leg, legs)
    ensures ReachesOn(leg, legs + [last])
  {
    assert [leg] + (legs + [last]) == ([leg] + legs) + [last];
    CrossesInit(legs, last);
    ReachFurther(legs, last);
    ReachFurther([leg] + legs, last);
    assert (legs + [last])[..|legs|] == legs;
  }

  lemma {:induction false} ReachTail(leg: Leg, legs: seq<Leg>)
    ensures ReachesOn(leg, legs)
    decreases |legs|
  {
    if legs == [] {
      assert [leg] + legs == [] + [leg];
      ReachFurther([], leg);
    } else {
      var init, last := legs[..|legs| - 1], legs[|legs| - 1];
      ReachTail(leg, init);
      ReachesFurther(leg, init, last);
      assert legs == init + [last];
    }
  }

  lemma CrossesTail(leg: Leg, legs: seq<Leg>)
    ensures Crosses([leg] + legs) <==> leg.Across? || Crosses(legs)
  {
    var further := [leg] + legs;
    assert further[0] == leg;
    if i :| 0 <= i < |legs| && legs[i].Across? {
      assert further[i + 1].Across?;
    }
    if i :| 0 <= i < |further| && further[i].Across? {
      assert i > 0 ==> legs[i - 1].Across?;
    }
  }

  function Carry(offset: U64, leg: Leg): U64 {
    if leg.Across? then 0 else Wrapped(offset, leg.member.offset)
  }

  lemma CarriedTail(offset: U64, leg: Leg, legs: seq<Leg>)
    ensures Carried(offset, [leg] + legs) == Carried(Carry(offset, leg), legs)
  {
    ReachTail(leg, legs);
    CrossesTail(leg, legs);
    if leg.Into? {
      BytesTail(leg, legs);
      if !Crosses(legs) {
        WrapsOnce(offset, leg.member.offset, Bytes(legs));
      }
    }
  }

  lemma WrapsOnce(a: U64, b: U64, c: nat)
    ensures (a + b + c) % WORD64 == (Wrapped(a, b) + c) % WORD64
  {
    if a + b >= WORD64 {
      assert a + b + c == Wrapped(a, b) + c + WORD64;
    }
  }

  lemma HopsTail(step: Step, steps: seq<Step>, leg: Leg, legs: seq<Leg>)
    requires |legs| <= |steps|
    ensures Hops([step] + steps, [leg] + legs) == [HopOf(step, leg)] + Hops(steps, legs)
  {
  }

  lemma TellsTail(types: Types, root: Id, step: Step, steps: seq<Step>, chain: seq<Hop>, offset: U64, leg: Leg,
                  legs: seq<Leg>, landing: Landing)
    ensures Tells(types, root, [step] + steps, chain, offset, [leg] + legs, landing)
            <==> && leg.from == root && Takes(types, step, leg)
                 && Tells(types, leg.To(), steps, chain + [HopOf(step, leg)], Carry(offset, leg), legs, landing)
  {
    var longer, further := [step] + steps, [leg] + legs;
    if |legs| <= |steps| {
      assert longer[..|further|] == [step] + steps[..|legs|];
      RouteTail(types, root, steps[..|legs|], legs, step, leg);
      CarriedTail(offset, leg, legs);
      HopsTail(step, steps, leg, legs);
      assert chain + Hops(longer, further) == chain + [HopOf(step, leg)] + Hops(steps, legs);
    }
  }

  lemma TellsNothing(types: Types, root: Id, steps: seq<Step>, chain: seq<Hop>, offset: U64, landing: Landing)
    ensures Tells(types, root, steps, chain, offset, [], landing)
            <==> && landing.ty == root && landing.offset == offset
                 && if steps == [] then landing.chain == chain
                    else exists fault ::
                           Breaks(types, root, steps[0], fault) && landing.chain == chain + [Broken(fault)]
  {
    var none: seq<Leg> := [];
    assert IsRoute(types, root, steps[..0], none) && Carried(offset, none) == offset;
    assert chain + Hops(steps, none) == chain;
  }

  ghost predicate TellsOn(types: Types, root: Id, steps: seq<Step>, chain: seq<Hop>, offset: U64, leg: Leg,
                          landing: Landing)
    requires steps != []
  {
    && leg.from == root && Takes(types, steps[0], leg)
    && Told(types, leg.To(), steps[1..], chain + [HopOf(steps[0], leg)], Carry(offset, leg), landing)
  }

  /** What is told goes on from a first leg the step allows, or breaks off when it allows none. */
  lemma ToldStep(types: Types, root: Id, steps: seq<Step>, chain: seq<Hop>, offset: U64, landing: Landing)
    requires steps != []
    ensures Told(types, root, steps, chain, offset, landing)
            <==> || Tells(types, root, steps, chain, offset, [], landing)
                 || exists leg :: TellsOn(types, root, steps, chain, offset, leg, landing)
  {
    assert steps == [steps[0]] + steps[1..];
    if Told(types, root, steps, chain, offset, landing) {
      var legs :| Tells(types, root, steps, chain, offset, legs, landing);
      if legs != [] {
        assert legs == [legs[0]] + legs[1..];
        TellsTail(types, root, steps[0], steps[1..], chain, offset, legs[0], legs[1..], landing);
        assert TellsOn(types, root, steps, chain, offset, legs[0], landing);
      }
    }
    if leg :| TellsOn(types, root, steps, chain, offset, leg, landing) {
      var legs :| Tells(types, leg.To(), steps[1..], chain + [HopOf(steps[0], leg)], Carry(offset, leg), legs, landing);
      TellsTail(types, root, steps[0], steps[1..], chain, offset, leg, legs, landing);
    }
  }

  // ----- the describer tells exactly these

  lemma StepTold(types: Types, cur: Id, step: Step, offset: U64)
    requires !step.ActiveVariant?
    ensures match DescribeStep(types, cur, step, offset)
            case Err(fault) => forall f :: Breaks(types, cur, step, f) <==> f == fault
            case Ok((hop, next, ty)) =>
              && cur < |types| && OnlyLeg(types, cur, step).Some?
              && var leg := OnlyLeg(types, cur, step).value;
                 hop == HopOf(step, leg) && next == Carry(offset, leg) && ty == leg.To()
  {
    if cur < |types| {
      NoneTaken(types, step, cur);
      var only := OnlyLeg(types, cur, step);
      if step.Variant? && only.Some? {
        OneLeg(types, step, only.value);
        VariantTold(types, step, only.value);
      }
    } else {
      assert NoLeg(types, step, cur);
    }
  }

  ghost predicate Exact(types: Types, cur: Id, steps: seq<Step>, chain: seq<Hop>, offset: U64, landing: Landing) {
    landing in Describe(types, cur, steps, chain, offset) <==> Told(types, cur, steps, chain, offset, landing)
  }

  lemma ExactBroken(types: Types, cur: Id, steps: seq<Step>, chain: seq<Hop>, offset: U64, landing: Landing)
    requires steps != [] && !steps[0].ActiveVariant? && DescribeStep(types, cur, steps[0], offset).Err?
    ensures Exact(types, cur, steps, chain, offset, landing)
  {
    StepTold(types, cur, steps[0], offset);
    assert Breaks(types, cur, steps[0], DescribeStep(types, cur, steps[0], offset).fault);
    ToldStep(types, cur, steps, chain, offset, landing);
    TellsNothing(types, cur, steps, chain, offset, landing);
  }

  /** Where the step goes one way. */
  lemma ExactOnward(types: Types, cur: Id, steps: seq<Step>, chain: seq<Hop>, offset: U64, landing: Landing)
    requires steps != [] && !steps[0].ActiveVariant? && DescribeStep(types, cur, steps[0], offset).Ok?
    requires var (hop, next, ty) := DescribeStep(types, cur, steps[0], offset).value;
             Exact(types, ty, steps[1..], chain + [hop], next, landing)
    ensures Exact(types, cur, steps, chain, offset, landing)
  {
    StepTold(types, cur, steps[0], offset);
    ToldStep(types, cur, steps, chain, offset, landing);
    TellsNothing(types, cur, steps, chain, offset, landing);
    var only := OnlyLeg(types, cur, steps[0]).value;
    OneLeg(types, steps[0], only);
    assert !NoLeg(types, steps[0], cur);
    forall leg: Leg | leg.from == cur && Takes(types, steps[0], leg)
      ensures leg == only
    {
      OneLeg(types, steps[0], leg);
    }
    assert TellsOn(types, cur, steps, chain, offset, only, landing)
      <==> Told(types, only.To(), steps[1..], chain + [HopOf(steps[0], only)], Carry(offset, only), landing);
  }

  ghost predicate DescribedFor(types: Types, v: VariantDef, rest: seq<Step>, chain: seq<Hop>, offset: U64,
                               landing: Landing) {
    landing in Describe(types, v.payload.ty, rest, chain + [VariantHop(v.name)], Wrapped(offset, v.payload.offset))
  }

  ghost predicate DescribedForSome(types: Types, variants: seq<VariantDef>, rest: seq<Step>, chain: seq<Hop>,
                                   offset: U64, landing: Landing) {
    exists i :: 0 <= i < |variants| && DescribedFor(types, variants[i], rest, chain, offset, landing)
  }

  lemma SomeOfMore(types: Types, variants: seq<VariantDef>, last: VariantDef, rest: seq<Step>, chain: seq<Hop>,
                   offset: U64, landing: Landing)
    ensures DescribedForSome(types, variants + [last], rest, chain, offset, landing)
            <==> || DescribedForSome(types, variants, rest, chain, offset, landing)
                 || DescribedFor(types, last, rest, chain, offset, landing)
  {
    var more := variants + [last];
    assert more[|variants|] == last;
    if i :| 0 <= i < |variants| && DescribedFor(types, variants[i], rest, chain, offset, landing) {
      assert more[i] == variants[i];
    }
    if i :| 0 <= i < |more| && DescribedFor(types, more[i], rest, chain, offset, landing) {
      assert i < |variants| ==> variants[i] == more[i];
    }
  }

  lemma {:induction false} SomeVariant(types: Types, variants: seq<VariantDef>, rest: seq<Step>, chain: seq<Hop>,
                                       offset: U64, landing: Landing)
    ensures landing in DescribeVariants(types, variants, rest, chain, offset)
            <==> DescribedForSome(types, variants, rest, chain, offset, landing)
    decreases |variants|
  {
    if variants != [] {
      var init, last := variants[..|variants| - 1], variants[|variants| - 1];
      SomeVariant(types, init, rest, chain, offset, landing);
      SomeOfMore(types, init, last, rest, chain, offset, landing);
      assert variants == init + [last];
    }
  }

  /** Where the step takes any variant. */
  lemma ExactFanning(types: Types, cur: Id, steps: seq<Step>, chain: seq<Hop>, offset: U64, landing: Landing)
    requires steps != [] && steps[0].ActiveVariant? && cur < |types| && types[cur].Enum? && types[cur].variants != []
    requires forall i | 0 <= i < |types[cur].variants| ::
               var v := types[cur].variants[i];
               Exact(types, v.payload.ty, steps[1..], chain + [VariantHop(v.name)], Wrapped(offset, v.payload.offset),
                     landing)
    ensures Exact(types, cur, steps, chain, offset, landing)
  {
    var variants := types[cur].variants;
    SomeVariant(types, variants, steps[1..], chain, offset, landing);
    ToldStep(types, cur, steps, chain, offset, landing);
    TellsNothing(types, cur, steps, chain, offset, landing);
    FanningDescribes(types, cur, steps, chain, offset);
    forall i | 0 <= i < |variants|
      ensures DescribedFor(types, variants[i], steps[1..], chain, offset, landing)
              <==> TellsOn(types, cur, steps, chain, offset, Into(cur, variants[i].name, variants[i].payload), landing)
    {
      var leg := Into(cur, variants[i].name, variants[i].payload);
      assert Enters(leg, variants[i]);
    }
    assert Takes(types, steps[0], Into(cur, variants[0].name, variants[0].payload)) by {
      assert Enters(Into(cur, variants[0].name, variants[0].payload), variants[0]);
    }
    if leg :| TellsOn(types, cur, steps, chain, offset, leg, landing) {
      var i :| 0 <= i < |variants| && Enters(leg, variants[i]);
      assert leg == Into(cur, variants[i].name, variants[i].payload);
    }
  }

  lemma FanningDescribes(types: Types, cur: Id, steps: seq<Step>, chain: seq<Hop>, offset: U64)
    requires steps != [] && steps[0].ActiveVariant? && cur < |types| && types[cur].Enum? && types[cur].variants != []
    ensures Describe(types, cur, steps, chain, offset)
            == DescribeVariants(types, types[cur].variants, steps[1..], chain, offset)
  {
    var variants := types[cur].variants;
    var last := variants[|variants| - 1];
    AlwaysDescribes(types, last.payload.ty, steps[1..], chain + [VariantHop(last.name)],
                    Wrapped(offset, last.payload.offset));
  }

  lemma ExactStuck(types: Types, cur: Id, steps: seq<Step>, chain: seq<Hop>, offset: U64, landing: Landing)
    requires steps != [] && steps[0].ActiveVariant?
    requires cur < |types| && types[cur].Enum? ==> types[cur].variants == []
    ensures Exact(types, cur, steps, chain, offset, landing)
  {
    ToldStep(types, cur, steps, chain, offset, landing);
    TellsNothing(types, cur, steps, chain, offset, landing);
    assert NoLeg(types, steps[0], cur);
  }

  /** Whatever the path and the table, the describer tells every route to its end or to the step that
  cannot be taken, with one hop a leg and the bytes since the last pointer, and tells nothing else. */
  lemma {:induction false} DescribesExactly(types: Types, cur: Id, steps: seq<Step>, chain: seq<Hop>, offset: U64,
                                            landing: Landing)
    ensures landing in Describe(types, cur, steps, chain, offset) <==> Told(types, cur, steps, chain, offset, landing)
    decreases |steps|
  {
    if steps == [] {
      TellsNothing(types, cur, steps, chain, offset, landing);
      if Told(types, cur, steps, chain, offset, landing) {
        var legs :| Tells(types, cur, steps, chain, offset, legs, landing);
        assert legs == [];
      }
    } else if !steps[0].ActiveVariant? {
      var next := DescribeStep(types, cur, steps[0], offset);
      if next.Ok? {
        DescribesExactly(types, next.value.2, steps[1..], chain + [next.value.0], next.value.1, landing);
        ExactOnward(types, cur, steps, chain, offset, landing);
      } else {
        ExactBroken(types, cur, steps, chain, offset, landing);
      }
    } else if cur < |types| && types[cur].Enum? && types[cur].variants != [] {
      forall i | 0 <= i < |types[cur].variants|
        ensures var v := types[cur].variants[i];
                Exact(types, v.payload.ty, steps[1..], chain + [VariantHop(v.name)],
                      Wrapped(offset, v.payload.offset), landing)
      {
        var v := types[cur].variants[i];
        DescribesExactly(types, v.payload.ty, steps[1..], chain + [VariantHop(v.name)],
                         Wrapped(offset, v.payload.offset), landing);
      }
      ExactFanning(types, cur, steps, chain, offset, landing);
    } else {
      ExactStuck(types, cur, steps, chain, offset, landing);
    }
  }

  // ----- on a path the fan-out accepts

  lemma {:induction false} EachWalked(types: Types, variants: seq<VariantDef>, rest: seq<Step>, seen: seq<Id>, i: nat)
    requires InRange(types) && forall j | 0 <= j < |variants| :: variants[j].payload.ty < |types|
    requires i < |variants| && WalkVariants(types, variants, rest, seen).Ok?
    ensures WalkInto(types, variants[i].payload.ty, rest, seen).Ok?
    decreases |variants|
  {
    var init := variants[..|variants| - 1];
    if i < |init| {
      EachWalked(types, init, rest, seen, i);
    }
  }

  /** Every leg of the first step leads to a type the rest is accepted from. */
  lemma WalkedLeg(types: Types, cur: Id, steps: seq<Step>, seen: seq<Id>, leg: Leg) returns (kept: seq<Id>)
    requires InRange(types) && cur < |types| && steps != [] && Walk(types, cur, steps, seen).Ok?
    requires leg.from == cur && Takes(types, steps[0], leg)
    ensures leg.To() < |types| && Walk(types, leg.To(), steps[1..], kept).Ok?
  {
    assert LeadsWithin(types[cur], |types|);
    kept := if steps[0].Deref? then [leg.To()] else seen + [leg.To()];
    if steps[0].ActiveVariant? {
      var i :| 0 <= i < |types[cur].variants| && Enters(leg, types[cur].variants[i]);
      EachWalked(types, types[cur].variants, steps[1..], seen, i);
    } else {
      OneLeg(types, steps[0], leg);
    }
  }

  lemma WalkedOn(types: Types, cur: Id, step: Step, rest: seq<Step>, seen: seq<Id>)
    requires InRange(types) && cur < |types| && Walk(types, cur, [step] + rest, seen).Ok?
    ensures !NoLeg(types, step, cur)
  {
    assert ([step] + rest)[0] == step;
    var def := types[cur];
    if step.ActiveVariant? {
      var v := def.variants[0];
      assert Enters(Into(cur, v.name, v.payload), v);
      assert Takes(types, step, Into(cur, v.name, v.payload));
    } else {
      NoneTaken(types, step, cur);
    }
  }

  /** No route breaks off. */
  lemma {:induction false} NoneBreaks(types: Types, cur: Id, steps: seq<Step>, seen: seq<Id>, legs: seq<Leg>)
    requires InRange(types) && cur < |types| && Walk(types, cur, steps, seen).Ok?
    requires |legs| < |steps| && IsRoute(types, cur, steps[..|legs|], legs)
    ensures !NoLeg(types, steps[|legs|], End(cur, legs))
    decreases |legs|
  {
    if legs == [] {
      assert steps == [steps[0]] + steps[1..];
      WalkedOn(types, cur, steps[0], steps[1..], seen);
    } else {
      var leg, rest := legs[0], legs[1..];
      assert legs == [leg] + rest && steps[..|legs|] == [steps[0]] + steps[1..][..|rest|];
      RouteTail(types, cur, steps[1..][..|rest|], rest, steps[0], leg);
      var kept := WalkedLeg(types, cur, steps, seen, leg);
      NoneBreaks(types, leg.To(), steps[1..], kept, rest);
    }
  }

  ghost predicate TellsAll(types: Types, root: Id, steps: seq<Step>, legs: seq<Leg>, landing: Landing) {
    && IsRoute(types, root, steps, legs)
    && landing == Landing(Hops(steps, legs), Reach(legs) % WORD64, End(root, legs))
  }

  lemma {:induction false} ReachUncrossed(legs: seq<Leg>)
    requires !Crosses(legs)
    ensures Reach(legs) == Bytes(legs)
    decreases |legs|
  {
    if legs != [] {
      var init, last := legs[..|legs| - 1], legs[|legs| - 1];
      assert legs == init + [last];
      CrossesInit(init, last);
      ReachFurther(init, last);
      ReachUncrossed(init);
    }
  }

  lemma TellsWhole(types: Types, root: Id, steps: seq<Step>, legs: seq<Leg>, landing: Landing)
    requires |legs| == |steps|
    ensures Tells(types, root, steps, [], 0, legs, landing) <==> TellsAll(types, root, steps, legs, landing)
  {
    assert steps[..|legs|] == steps && [] + Hops(steps, legs) == Hops(steps, legs);
    if !Crosses(legs) {
      ReachUncrossed(legs);
    }
  }

  /** On a path the fan-out accepts, what is told is the whole routes: a hop for each step, that names
  the member or variant taken, and the bytes from the last pointer on. */
  lemma DescribedRoutes(types: Types, root: Id, steps: seq<Step>, landing: Landing)
    requires InRange(types) && root < |types| && Walk(types, root, steps, [root]).Ok?
    ensures landing in Describe(types, root, steps, [], 0)
            <==> exists legs :: TellsAll(types, root, steps, legs, landing)
  {
    DescribesExactly(types, root, steps, [], 0, landing);
    if legs :| Tells(types, root, steps, [], 0, legs, landing) {
      if |legs| < |steps| {
        NoneBreaks(types, root, steps, [root], legs);
      }
      TellsWhole(types, root, steps, legs, landing);
    }
    if legs :| TellsAll(types, root, steps, legs, landing) {
      TellsWhole(types, root, steps, legs, landing);
    }
  }

  ghost predicate EndsAt(types: Types, root: Id, steps: seq<Step>, t: Id, legs: seq<Leg>) {
    IsRoute(types, root, steps, legs) && End(root, legs) == t
  }

  /** So the types it lists are the ends of the routes. */
  lemma WalkedRoutes(types: Types, root: Id, steps: seq<Step>, t: Id)
    requires InRange(types) && root < |types| && Walk(types, root, steps, [root]).Ok?
    ensures t in Walk(types, root, steps, [root]).value <==> exists legs :: EndsAt(types, root, steps, t, legs)
  {
    var out := Describe(types, root, steps, [], 0);
    DescribedWhereWalked(types, root, steps, [root], [], 0);
    if t in Walk(types, root, steps, [root]).value {
      var i :| 0 <= i < |out| && Landed(out)[i] == t;
      DescribedRoutes(types, root, steps, out[i]);
      var legs :| TellsAll(types, root, steps, legs, out[i]);
      assert EndsAt(types, root, steps, t, legs);
    }
    if legs :| EndsAt(types, root, steps, t, legs) {
      var landing := Landing(Hops(steps, legs), Reach(legs) % WORD64, t);
      assert TellsAll(types, root, steps, legs, landing);
      DescribedRoutes(types, root, steps, landing);
      var i :| 0 <= i < |out| && out[i] == landing;
      assert Landed(out)[i] == t;
    }
  }

  // ----- as the resolver would have it

  /** The path with the variant taken named at each live-variant step. */
  function Chosen(steps: seq<Step>, legs: seq<Leg>): seq<Step>
    requires |steps| == |legs|
  {
    seq(|steps|, i requires 0 <= i < |steps| =>
      if steps[i].ActiveVariant? && legs[i].Into? then Step.Variant(legs[i].name) else steps[i])
  }

  lemma RouteFrom(types: Types, root: Id, steps: seq<Step>, legs: seq<Leg>, n: nat)
    requires IsRoute(types, root, steps, legs) && n <= |legs|
    ensures IsRoute(types, Stop(root, legs, n), steps[n..], legs[n..])
  {
    forall i: nat | i < |legs[n..]|
      ensures LegOf(types, Stop(root, legs, n), steps[n..], legs[n..], i)
    {
      assert LegOf(types, root, steps, legs, n + i);
    }
  }

  lemma InwardFrom(types: Types, root: Id, steps: seq<Step>, legs: seq<Leg>, n: nat)
    requires IsRoute(types, root, steps, legs) && n <= |legs|
    requires forall i | n <= i < |legs| :: legs[i].Into? && !steps[i].ActiveVariant? && legs[i].To() < |types|
    ensures Inward(types, Stop(root, legs, n), steps[n..], legs[n..])
  {
    RouteFrom(types, root, steps, legs, n);
    forall i | 0 <= i < |legs[n..]|
      ensures legs[n..][i].Into? && !steps[n..][i].ActiveVariant? && legs[n..][i].To() < |types|
    {
      assert legs[n..][i] == legs[n + i] && steps[n..][i] == steps[n + i];
    }
  }

  lemma LegInRange(types: Types, step: Step, leg: Leg)
    requires InRange(types) && Takes(types, step, leg)
    ensures leg.To() < |types|
  {
    assert LeadsWithin(types[leg.from], |types|);
  }

  /** The bytes told are what the resolver gives for the steps after the last pointer, from zero,
  along the variants chosen, where their names choose them and the sum fits. */
  lemma ToldByResolver(types: Types, root: Id, steps: seq<Step>, legs: seq<Leg>)
    requires InRange(types) && root < |types| && |steps| == |legs|
    requires IsRoute(types, root, Chosen(steps, legs), legs) && Reach(legs) < WORD64
    ensures var n := RunStart(legs, |legs|);
            && Stop(root, legs, n) < |types|
            && OffsetFrom(types, Stop(root, legs, n), Chosen(steps, legs)[n..], 0) == Some(Reach(legs))
  {
    var n, chosen := RunStart(legs, |legs|), Chosen(steps, legs);
    forall i: nat | i < |legs|
      ensures legs[i].To() < |types|
    {
      assert LegOf(types, root, chosen, legs, i);
      LegInRange(types, chosen[i], legs[i]);
    }
    InwardFrom(types, root, chosen, legs, n);
    RouteOffset(types, Stop(root, legs, n), chosen[n..], 0, legs[n..]);
  }
}
