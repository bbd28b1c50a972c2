/** The checker that fans out over every live variant and the describer, and that the walkers of
the path language agree: the fan-out is exact over every choice of live variant, it is the
one-path checker where there is nothing to choose, and the describer lands where it does. */
module FanOut {
  import opened RawTypes
  import opened TypeTables
  import opened Paths

  // ----- fanning out over live variants

  /** Enter a type inline and walk the rest. */
  function WalkInto(types: Types, ty: Id, rest: seq<Step>, seen: seq<Id>): Outcome<seq<Id>>
    requires InRange(types) && ty < |types|
    decreases rest, 2
  {
    if ty in seen then Err(TypeCycle) else Walk(types, ty, rest, seen + [ty])
  }

  function WalkVariants(types: Types, variants: seq<VariantDef>, rest: seq<Step>, seen: seq<Id>): Outcome<seq<Id>>
    requires InRange(types) && forall i | 0 <= i < |variants| :: variants[i].payload.ty < |types|
    decreases rest, 3, |variants|
  {
    if variants == [] then Ok([])
    else
      var init, last := variants[..|variants| - 1], variants[|variants| - 1];
      match WalkVariants(types, init, rest, seen)
      case Err(fault) => Err(fault)
      case Ok(before) =>
        match WalkInto(types, last.payload.ty, rest, seen)
        case Err(fault) => Err(fault)
        case Ok(after) => Ok(before + after)
  }

  /** Every type the steps can land on, one per live variant crossed, or the first fault. */
  function Walk(types: Types, cur: Id, steps: seq<Step>, seen: seq<Id>): Outcome<seq<Id>>
    requires InRange(types) && cur < |types|
    decreases steps, 1
  {
    if steps == [] then Ok([cur])
    else
      var def, step, rest := types[cur], steps[0], steps[1..];
      assert LeadsWithin(def, |types|);
      match step
      case Member(at) =>
        if !def.Struct? && !def.Union? then Err(NonAggregate)
        else
          (match MemberAt(def.members, at)
           case None => Err(NoMember)
           case Some(member) => WalkInto(types, member.ty, rest, seen))
      case Deref => if !def.Pointer? then Err(NonPointer) else Walk(types, def.target, rest, [def.target])
      case Variant(name) =>
        if !def.Enum? then Err(NonEnum)
        else
          (match VariantNamed(def.variants, name)
           case None => Err(NoVariant)
           case Some(variant) => WalkInto(types, variant.payload.ty, rest, seen))
      case ActiveVariant =>
        if !def.Enum? then Err(NonEnum)
        else if def.variants == [] then Err(EmptyEnum)
        else WalkVariants(types, def.variants, rest, seen)
  }

  // ----- one outcome of a walk: some variant is live at each live-variant step

  ghost predicate LandsInto(types: Types, ty: Id, rest: seq<Step>, seen: seq<Id>, r: Outcome<Id>)
    requires InRange(types) && ty < |types|
    decreases rest, 2
  {
    if ty in seen then r == Err(TypeCycle) else Lands(types, ty, rest, seen + [ty], r)
  }

  ghost predicate Lands(types: Types, cur: Id, steps: seq<Step>, seen: seq<Id>, r: Outcome<Id>)
    requires InRange(types) && cur < |types|
    decreases steps, 1
  {
    if steps == [] then r == Ok(cur)
    else
      var def, step, rest := types[cur], steps[0], steps[1..];
      assert LeadsWithin(def, |types|);
      match step
      case Member(at) =>
        if !def.Struct? && !def.Union? then r == Err(NonAggregate)
        else
          (match MemberAt(def.members, at)
           case None => r == Err(NoMember)
           case Some(member) => LandsInto(types, member.ty, rest, seen, r))
      case Deref => if !def.Pointer? then r == Err(NonPointer) else Lands(types, def.target, rest, [def.target], r)
      case Variant(name) =>
        if !def.Enum? then r == Err(NonEnum)
        else
          (match VariantNamed(def.variants, name)
           case None => r == Err(NoVariant)
           case Some(variant) => LandsInto(types, variant.payload.ty, rest, seen, r))
      case ActiveVariant =>
        if !def.Enum? then r == Err(NonEnum)
        else if def.variants == [] then r == Err(EmptyEnum)
        else exists i :: 0 <= i < |def.variants| && LandsInto(types, def.variants[i].payload.ty, rest, seen, r)
  }

  /** A fan-out's answer sums up a set of outcomes: all of them landings, listed, or one of them
  the fault returned. */
  ghost predicate SumsUp(out: Outcome<seq<Id>>, ok: iset<Outcome<Id>>) {
    match out
    case Ok(targets) => targets != [] && forall r :: r in ok <==> r.Ok? && r.value in targets
    case Err(fault) => Err(fault) in ok
  }

  ghost function Outcomes(types: Types, cur: Id, steps: seq<Step>, seen: seq<Id>): iset<Outcome<Id>>
    requires InRange(types) && cur < |types|
  {
    iset r | Lands(types, cur, steps, seen, r)
  }

  ghost function OutcomesInto(types: Types, ty: Id, rest: seq<Step>, seen: seq<Id>): iset<Outcome<Id>>
    requires InRange(types) && ty < |types|
  {
    iset r | LandsInto(types, ty, rest, seen, r)
  }

  ghost function OutcomesOver(types: Types, variants: seq<VariantDef>, rest: seq<Step>,
                              seen: seq<Id>): iset<Outcome<Id>>
    requires InRange(types) && forall i | 0 <= i < |variants| :: variants[i].payload.ty < |types|
  {
    iset r, i | 0 <= i < |variants| && LandsInto(types, variants[i].payload.ty, rest, seen, r) :: r
  }

  lemma {:induction false} IntoExact(types: Types, ty: Id, rest: seq<Step>, seen: seq<Id>)
    requires InRange(types) && ty < |types|
    ensures SumsUp(WalkInto(types, ty, rest, seen), OutcomesInto(types, ty, rest, seen))
    decreases rest, 2
  {
    if ty !in seen {
      WalkExact(types, ty, rest, seen + [ty]);
      assert OutcomesInto(types, ty, rest, seen) == Outcomes(types, ty, rest, seen + [ty]);
    }
  }

  lemma OverOneMore(types: Types, variants: seq<VariantDef>, rest: seq<Step>, seen: seq<Id>)
    requires InRange(types) && variants != [] && forall i | 0 <= i < |variants| :: variants[i].payload.ty < |types|
    ensures OutcomesOver(types, variants, rest, seen)
            == OutcomesOver(types, variants[..|variants| - 1], rest, seen)
               + OutcomesInto(types, variants[|variants| - 1].payload.ty, rest, seen)
  {
    var init, last := variants[..|variants| - 1], variants[|variants| - 1];
    forall r
      ensures r in OutcomesOver(types, variants, rest, seen)
              <==> r in OutcomesOver(types, init, rest, seen) || r in OutcomesInto(types, last.payload.ty, rest, seen)
    {
      if r in OutcomesOver(types, variants, rest, seen) {
        var i :| 0 <= i < |variants| && LandsInto(types, variants[i].payload.ty, rest, seen, r);
        assert i < |init| ==> init[i] == variants[i];
      }
      if r in OutcomesOver(types, init, rest, seen) {
        var i :| 0 <= i < |init| && LandsInto(types, init[i].payload.ty, rest, seen, r);
        assert init[i] == variants[i];
      }
      if r in OutcomesInto(types, last.payload.ty, rest, seen) {
        assert variants[|variants| - 1] == last;
      }
    }
  }

  lemma {:induction false} VariantsExact(types: Types, variants: seq<VariantDef>, rest: seq<Step>, seen: seq<Id>)
    requires InRange(types) && forall i | 0 <= i < |variants| :: variants[i].payload.ty < |types|
    ensures variants != [] ==> SumsUp(WalkVariants(types, variants, rest, seen),
                                      OutcomesOver(types, variants, rest, seen))
    decreases rest, 3, |variants|
  {
    if variants != [] {
      var init, last := variants[..|variants| - 1], variants[|variants| - 1];
      VariantsExact(types, init, rest, seen);
      IntoExact(types, last.payload.ty, rest, seen);
      OverOneMore(types, variants, rest, seen);
    }
  }

  lemma LiveOutcomes(types: Types, cur: Id, steps: seq<Step>, seen: seq<Id>)
    requires InRange(types) && cur < |types| && steps != [] && steps[0].ActiveVariant?
    requires types[cur].Enum? && types[cur].variants != []
    ensures LeadsWithin(types[cur], |types|)
    ensures Outcomes(types, cur, steps, seen) == OutcomesOver(types, types[cur].variants, steps[1..], seen)
  {
    var variants := types[cur].variants;
    assert LeadsWithin(types[cur], |types|);
    forall r
      ensures r in Outcomes(types, cur, steps, seen) <==> r in OutcomesOver(types, variants, steps[1..], seen)
    {
      if r in Outcomes(types, cur, steps, seen) {
        assert Lands(types, cur, steps, seen, r);
        var i :| 0 <= i < |variants| && LandsInto(types, variants[i].payload.ty, steps[1..], seen, r);
      }
      if r in OutcomesOver(types, variants, steps[1..], seen) {
        var i :| 0 <= i < |variants| && LandsInto(types, variants[i].payload.ty, steps[1..], seen, r);
        assert Lands(types, cur, steps, seen, r);
      }
    }
  }

  /** The fan-out succeeds exactly when every choice of live variants resolves, and then lists
  precisely their landings. */
  lemma {:induction false} WalkExact(types: Types, cur: Id, steps: seq<Step>, seen: seq<Id>)
    requires InRange(types) && cur < |types|
    ensures SumsUp(Walk(types, cur, steps, seen), Outcomes(types, cur, steps, seen))
    decreases steps, 1
  {
    if steps != [] {
      var def, step, rest := types[cur], steps[0], steps[1..];
      assert LeadsWithin(def, |types|);
      match step
      case Member(at) =>
        if (def.Struct? || def.Union?) && MemberAt(def.members, at).Some? {
          var ty := MemberAt(def.members, at).value.ty;
          IntoExact(types, ty, rest, seen);
          assert Outcomes(types, cur, steps, seen) == OutcomesInto(types, ty, rest, seen);
        }
      case Deref =>
        if def.Pointer? {
          WalkExact(types, def.target, rest, [def.target]);
          assert Outcomes(types, cur, steps, seen) == Outcomes(types, def.target, rest, [def.target]);
        }
      case Variant(name) =>
        if def.Enum? && VariantNamed(def.variants, name).Some? {
          var ty := VariantNamed(def.variants, name).value.payload.ty;
          IntoExact(types, ty, rest, seen);
          assert Outcomes(types, cur, steps, seen) == OutcomesInto(types, ty, rest, seen);
        }
      case ActiveVariant =>
        if def.Enum? && def.variants != [] {
          VariantsExact(types, def.variants, rest, seen);
          LiveOutcomes(types, cur, steps, seen);
        }
    }
  }

  /** Said of the answer alone. */
  lemma FanOutIsExact(types: Types, cur: Id, steps: seq<Step>, seen: seq<Id>)
    requires InRange(types) && cur < |types|
    ensures Walk(types, cur, steps, seen).Ok? <==> forall r | Lands(types, cur, steps, seen, r) :: r.Ok?
    ensures Walk(types, cur, steps, seen).Ok?
            ==> forall t: Id :: t in Walk(types, cur, steps, seen).value <==> Lands(types, cur, steps, seen, Ok(t))
  {
    WalkExact(types, cur, steps, seen);
    var out := Walk(types, cur, steps, seen);
    if out.Ok? {
      forall r | Lands(types, cur, steps, seen, r)
        ensures r.Ok?
      {
        assert r in Outcomes(types, cur, steps, seen);
      }
      forall t: Id
        ensures t in out.value <==> Lands(types, cur, steps, seen, Ok(t))
      {
        assert Ok(t) in Outcomes(types, cur, steps, seen) <==> t in out.value;
      }
    } else {
      assert Err(out.fault) in Outcomes(types, cur, steps, seen);
    }
  }

  // ----- the same as the one-path checker

  predicate TakesLive(steps: seq<Step>) {
    exists i :: 0 <= i < |steps| && steps[i].ActiveVariant?
  }

  lemma NoLiveAfter(steps: seq<Step>)
    requires steps != [] && !TakesLive(steps)
    ensures !steps[0].ActiveVariant? && !TakesLive(steps[1..])
  {
    assert forall i | 0 <= i < |steps[1..]| :: steps[1..][i] == steps[i + 1];
  }

  function Single(r: Outcome<Place>): Outcome<seq<Id>> {
    match r
    case Ok(p) => Ok([p.cur])
    case Err(fault) => Err(fault)
  }

  lemma {:induction false} WalkIsFollow(types: Types, p: Place, steps: seq<Step>)
    requires InRange(types) && p.cur < |types| && !TakesLive(steps)
    ensures Walk(types, p.cur, steps, p.seen) == Single(Follow(types, p, steps, false))
    decreases |steps|
  {
    if steps != [] {
      NoLiveAfter(steps);
      assert LeadsWithin(types[p.cur], |types|);
      if Advance(types, p, steps[0], false).Ok? {
        WalkIsFollow(types, Advance(types, p, steps[0], false).value, steps[1..]);
      }
    }
  }

  /** Where no live variant is taken, the two checkers accept the same paths, land on the same
  type and fault alike. */
  lemma CheckersAgree(types: Types, root: Id, steps: seq<Step>)
    requires InRange(types) && root < |types| && !TakesLive(steps)
    ensures Walk(types, root, steps, [root])
            == match Target(types, root, steps, false)
               case Ok(t) => Ok([t])
               case Err(fault) => Err(fault)
  {
    WalkIsFollow(types, Start(root), steps);
  }

  // ----- the describer

  datatype Hop =
    | MemberHop(name: Name, position: Option<nat>)
    | PointerHop
    | VariantHop(variant: Name)
    | Broken(why: Fault)

  datatype Landing = Landing(chain: seq<Hop>, offset: U64, ty: Id)

  function Wrapped(a: U64, b: U64): U64 {
    if a + b < WORD64 then a + b else a + b - WORD64
  }

  function DefAt(types: Types, id: Id): Option<TypeDef> {
    if id < |types| then Some(types[id]) else None
  }

  function MembersAt(types: Types, id: Id): Option<seq<MemberDef>> {
    if id < |types| && (types[id].Struct? || types[id].Union?) then Some(types[id].members) else None
  }

  function HopTo(at: MemberRef, member: MemberDef): Hop {
    MemberHop(member.name, if at.Index? then Some(at.index) else None)
  }

  /** One step of the description, where it goes one way. */
  function DescribeStep(types: Types, cur: Id, step: Step, offset: U64): Outcome<(Hop, U64, Id)>
    requires !step.ActiveVariant?
  {
    match step
    case Member(at) =>
      (match MembersAt(types, cur)
       case None => Err(NonAggregate)
       case Some(members) =>
         match MemberAt(members, at)
         case None => Err(NoMember)
         case Some(member) => Ok((HopTo(at, member), Wrapped(offset, member.offset), member.ty)))
    case Deref =>
      (match DefAt(types, cur)
       case Some(Pointer(target)) => Ok((PointerHop, 0, target))
       case _ => Err(NonPointer))
    case Variant(name) =>
      (match DefAt(types, cur)
       case Some(Enum(_, variants)) =>
         (match VariantNamed(variants, name)
          case None => Err(NoVariant)
          case Some(variant) => Ok((VariantHop(variant.name), Wrapped(offset, variant.payload.offset),
                                    variant.payload.ty)))
       case _ => Err(NoVariant))
  }

  function DescribeVariants(types: Types, variants: seq<VariantDef>, rest: seq<Step>, chain: seq<Hop>,
                            offset: U64): seq<Landing>
    decreases rest, 2, |variants|
  {
    if variants == [] then []
    else
      var init, last := variants[..|variants| - 1], variants[|variants| - 1];
      DescribeVariants(types, init, rest, chain, offset)
      + Describe(types, last.payload.ty, rest, chain + [VariantHop(last.name)], Wrapped(offset, last.payload.offset))
  }

  /** Every path the steps can take, with its hops, its offset and where it lands. */
  function Describe(types: Types, cur: Id, steps: seq<Step>, chain: seq<Hop>, offset: U64): seq<Landing>
    decreases steps, 1
  {
    if steps == [] then [Landing(chain, offset, cur)]
    else if steps[0].ActiveVariant? then
      match DefAt(types, cur)
      case Some(Enum(_, variants)) =>
        var out := DescribeVariants(types, variants, steps[1..], chain, offset);
        if out == [] then [Landing(chain + [Broken(EmptyEnum)], offset, cur)] else out
      case _ => [Landing(chain + [Broken(NonEnum)], offset, cur)]
    else
      match DescribeStep(types, cur, steps[0], offset)
      case Err(fault) => [Landing(chain + [Broken(fault)], offset, cur)]
      case Ok((hop, next, ty)) => Describe(types, ty, steps[1..], chain + [hop], next)
  }

  method WalkAll(types: Types, root: Id, steps: seq<Step>, names: seq<Hop>, start: U64) returns (out: seq<Landing>)
    ensures out == Describe(types, root, steps, names, start)
    decreases |steps|
  {
    var chain, offset, cur := names, start, root;
    for i := 0 to |steps|
      invariant Describe(types, cur, steps[i..], chain, offset) == Describe(types, root, steps, names, start)
    {
      assert steps[i..][0] == steps[i] && steps[i..][1..] == steps[i + 1..];
      if steps[i].ActiveVariant? {
        var def := DefAt(types, cur);
        if def.None? || !def.value.Enum? {
          return [Landing(chain + [Broken(NonEnum)], offset, cur)];
        }
        var variants := def.value.variants;
        out := [];
        for j := 0 to |variants|
          invariant out == DescribeVariants(types, variants[..j], steps[i + 1..], chain, offset)
        {
          var v := variants[j];
          var more := WalkAll(types, v.payload.ty, steps[i + 1..], chain + [VariantHop(v.name)],
                              Wrapped(offset, v.payload.offset));
          assert variants[..j + 1][..j] == variants[..j];
          out := out + more;
        }
        assert variants[..|variants|] == variants;
        if out == [] {
          out := [Landing(chain + [Broken(EmptyEnum)], offset, cur)];
        }
        return;
      }
      var next := DescribeStep(types, cur, steps[i], offset);
      if next.Err? {
        return [Landing(chain + [Broken(next.fault)], offset, cur)];
      }
      chain, offset, cur := chain + [next.value.0], next.value.1, next.value.2;
    }
    out := [Landing(chain, offset, cur)];
  }

  /** Some landing is always described, so taking the first cannot fail. */
  lemma {:induction false} AlwaysDescribes(types: Types, cur: Id, steps: seq<Step>, chain: seq<Hop>, offset: U64)
    ensures Describe(types, cur, steps, chain, offset) != []
    decreases |steps|
  {
    if steps != [] && !steps[0].ActiveVariant? && DescribeStep(types, cur, steps[0], offset).Ok? {
      var (hop, next, ty) := DescribeStep(types, cur, steps[0], offset).value;
      AlwaysDescribes(types, ty, steps[1..], chain + [hop], next);
    }
  }

  function Landed(landings: seq<Landing>): seq<Id> {
    seq(|landings|, i requires 0 <= i < |landings| => landings[i].ty)
  }

  lemma LandedConcat(a: seq<Landing>, b: seq<Landing>)
    ensures Landed(a + b) == Landed(a) + Landed(b)
  {
  }

  lemma {:induction false} VariantsDescribed(types: Types, variants: seq<VariantDef>, rest: seq<Step>, seen: seq<Id>,
                                             chain: seq<Hop>, offset: U64)
    requires InRange(types) && forall i | 0 <= i < |variants| :: variants[i].payload.ty < |types|
    requires WalkVariants(types, variants, rest, seen).Ok?
    ensures Landed(DescribeVariants(types, variants, rest, chain, offset))
            == WalkVariants(types, variants, rest, seen).value
    decreases rest, 3, |variants|
  {
    if variants != [] {
      var init, last := variants[..|variants| - 1], variants[|variants| - 1];
      var hops, next := chain + [VariantHop(last.name)], Wrapped(offset, last.payload.offset);
      VariantsDescribed(types, init, rest, seen, chain, offset);
      DescribedWhereWalked(types, last.payload.ty, rest, seen + [last.payload.ty], hops, next);
      LandedConcat(DescribeVariants(types, init, rest, chain, offset),
                   Describe(types, last.payload.ty, rest, hops, next));
    }
  }

  /** On a path the fan-out accepts, the description lands on the same types in the same order. */
  lemma {:induction false} DescribedWhereWalked(types: Types, cur: Id, steps: seq<Step>, seen: seq<Id>,
                                                chain: seq<Hop>, offset: U64)
    requires InRange(types) && cur < |types| && Walk(types, cur, steps, seen).Ok?
    ensures Landed(Describe(types, cur, steps, chain, offset)) == Walk(types, cur, steps, seen).value
    decreases steps, 1
  {
    if steps != [] {
      var def := types[cur];
      assert LeadsWithin(def, |types|);
      if steps[0].ActiveVariant? {
        VariantsDescribed(types, def.variants, steps[1..], seen, chain, offset);
        WalkExact(types, cur, steps, seen);
      } else {
        var (hop, next, ty) := DescribeStep(types, cur, steps[0], offset).value;
        var kept := if steps[0].Deref? then [ty] else seen + [ty];
        DescribedWhereWalked(types, ty, steps[1..], kept, chain + [hop], next);
      }
    }
  }

  /** And within one allocation it gives the offset the resolver gives. */
  lemma {:induction false} DescribedOffset(types: Types, cur: Id, steps: seq<Step>, chain: seq<Hop>, offset: U64)
    requires cur < |types| && OffsetFrom(types, cur, steps, offset).Some?
    ensures var out := Describe(types, cur, steps, chain, offset);
            |out| == 1 && out[0].offset == OffsetFrom(types, cur, steps, offset).value
    decreases |steps|
  {
    if steps != [] {
      var member := MemberStep(types, cur, steps[0]).value;
      var (hop, next, ty) := DescribeStep(types, cur, steps[0], offset).value;
      DescribedOffset(types, member.ty, steps[1..], chain + [hop], next);
    }
  }
}
