/** The path language over a type table, the checker that follows one path and the offset
resolver. */
module Paths {
  import opened RawTypes
  import opened TypeTables

  datatype Fault =
    | InvalidRoot
    | PositionalOrUnion
    | NonAggregate
    | NoMember
    | Unsized
    | OutOfBounds
    | OffsetOverflow
    | TypeCycle
    | InvalidType
    | NonPointer
    | NonEnum
    | NoVariant
    | LiveVariant
    | EmptyEnum
    | UnsizedEnd

  datatype Outcome<+T> = Ok(value: T) | Err(fault: Fault)

  // ----- following one path

  /** Where a walk is: the type heading the run of steps since the last pointer, the type
  reached, the types of the run, and the bytes into the head. */
  datatype Place = Place(head: Id, cur: Id, seen: seq<Id>, offset: U64)

  function Start(root: Id): Place {
    Place(root, root, [root], 0)
  }

  /** The strict policy's check of one step inward: the member is sized and inside its parent,
  and the sum of offsets can be kept. */
  function Inline(types: Types, parent: Id, member: MemberDef, offset: U64): Outcome<U64> {
    match SizeOf(types, member.ty)
    case None => Err(Unsized)
    case Some(size) =>
      match (CheckedAdd(member.offset, size), SizeOf(types, parent))
      case (Some(end), Some(limit)) =>
        if end > limit then Err(OutOfBounds)
        else
          (match CheckedAdd(offset, member.offset)
           case None => Err(OffsetOverflow)
           case Some(next) => if CheckedAdd(next, size).Some? then Ok(next) else Err(OffsetOverflow))
      case _ => Err(OutOfBounds)
  }

  function Descend(types: Types, p: Place, member: MemberDef, semantic: bool): Outcome<Place> {
    match if semantic then Inline(types, p.cur, member, p.offset) else Ok(0)
    case Err(fault) => Err(fault)
    case Ok(offset) =>
      if member.ty in p.seen then Err(TypeCycle)
      else if member.ty >= |types| then Err(InvalidType)
      else Ok(Place(p.head, member.ty, p.seen + [member.ty], offset))
  }

  function Advance(types: Types, p: Place, step: Step, semantic: bool): Outcome<Place>
    requires p.cur < |types|
  {
    var def := types[p.cur];
    match step
    case Member(at) =>
      if semantic && (at.Index? || def.Union?) then Err(PositionalOrUnion)
      else if !def.Struct? && !def.Union? then Err(NonAggregate)
      else
        (match MemberAt(def.members, at)
         case None => Err(NoMember)
         case Some(member) => Descend(types, p, member, semantic))
    case Deref =>
      if !def.Pointer? then Err(NonPointer)
      else if def.target >= |types| then Err(InvalidType)
      else Ok(Start(def.target))
    case Variant(name) =>
      if !def.Enum? then Err(NonEnum)
      else
        (match VariantNamed(def.variants, name)
         case None => Err(NoVariant)
         case Some(variant) => Descend(types, p, variant.payload, semantic))
    case ActiveVariant => Err(LiveVariant)
  }

  function Follow(types: Types, p: Place, steps: seq<Step>, semantic: bool): (r: Outcome<Place>)
    requires p.cur < |types|
    ensures r.Ok? ==> r.value.cur < |types|
    decreases |steps|
  {
    if steps == [] then Ok(p)
    else
      match Advance(types, p, steps[0], semantic)
      case Err(fault) => Err(fault)
      case Ok(next) => Follow(types, next, steps[1..], semantic)
  }

  /** The type a path lands on, or why it does not resolve. */
  function Target(types: Types, root: Id, steps: seq<Step>, semantic: bool): Outcome<Id> {
    if root >= |types| then Err(InvalidRoot)
    else
      match Follow(types, Start(root), steps, semantic)
      case Err(fault) => Err(fault)
      case Ok(p) => if semantic && SizeOf(types, p.cur).None? then Err(UnsizedEnd) else Ok(p.cur)
  }

  method SelectorTarget(types: Types, root: Id, steps: seq<Step>, semantic: bool) returns (r: Outcome<Id>)
    ensures r == Target(types, root, steps, semantic)
  {
    if root >= |types| {
      return Err(InvalidRoot);
    }
    var p := Start(root);
    for i := 0 to |steps|
      invariant p.cur < |types|
      invariant Follow(types, p, steps[i..], semantic) == Follow(types, Start(root), steps, semantic)
    {
      assert steps[i..][0] == steps[i] && steps[i..][1..] == steps[i + 1..];
      var next := Advance(types, p, steps[i], semantic);
      if next.Err? {
        return Err(next.fault);
      }
      p := next.value;
    }
    if semantic && SizeOf(types, p.cur).None? {
      return Err(UnsizedEnd);
    }
    return Ok(p.cur);
  }

  // ----- local bounds give global bounds

  /** What has been reached lies inside the head of its run. */
  ghost predicate Inside(types: Types, p: Place) {
    || (p.cur == p.head && p.offset == 0)
    || (&& SizeOf(types, p.head).Some? && SizeOf(types, p.cur).Some?
        && p.offset + SizeOf(types, p.cur).value <= SizeOf(types, p.head).value)
  }

  lemma InlineInside(types: Types, p: Place, member: MemberDef)
    requires Inside(types, p)
    ensures Inline(types, p.cur, member, p.offset) != Err(OffsetOverflow)
    ensures Inline(types, p.cur, member, p.offset).Ok?
            ==> var offset := Inline(types, p.cur, member, p.offset).value;
                && offset == p.offset + member.offset
                && SizeOf(types, p.head).Some? && SizeOf(types, member.ty).Some?
                && offset + SizeOf(types, member.ty).value <= SizeOf(types, p.head).value
  {
  }

  lemma AdvanceInside(types: Types, p: Place, step: Step)
    requires p.cur < |types| && Inside(types, p)
    ensures Advance(types, p, step, true) != Err(OffsetOverflow)
    ensures Advance(types, p, step, true).Ok? ==> Inside(types, Advance(types, p, step, true).value)
  {
    var def := types[p.cur];
    if step.Member? && (def.Struct? || def.Union?) && MemberAt(def.members, step.at).Some? {
      InlineInside(types, p, MemberAt(def.members, step.at).value);
    } else if step.Variant? && def.Enum? && VariantNamed(def.variants, step.name).Some? {
      InlineInside(types, p, VariantNamed(def.variants, step.name).value.payload);
    }
  }

  /** After every step of an accepted semantic path, offset plus size is within the type that
  heads the run. */
  lemma {:induction false} FollowInside(types: Types, p: Place, steps: seq<Step>, n: nat)
    requires p.cur < |types| && Inside(types, p) && n <= |steps| && Follow(types, p, steps, true).Ok?
    ensures Follow(types, p, steps[..n], true).Ok? && Inside(types, Follow(types, p, steps[..n], true).value)
    decreases n
  {
    if n > 0 {
      AdvanceInside(types, p, steps[0]);
      FollowInside(types, Advance(types, p, steps[0], true).value, steps[1..], n - 1);
      assert steps[..n][1..] == steps[1..][..n - 1];
    }
  }

  /** No path, accepted or not, overflows the sum of its inline offsets. */
  lemma {:induction false} NeverOverflows(types: Types, p: Place, steps: seq<Step>)
    requires p.cur < |types| && Inside(types, p)
    ensures Follow(types, p, steps, true) != Err(OffsetOverflow)
    decreases |steps|
  {
    if steps != [] {
      AdvanceInside(types, p, steps[0]);
      if Advance(types, p, steps[0], true).Ok? {
        NeverOverflows(types, Advance(types, p, steps[0], true).value, steps[1..]);
      }
    }
  }

  lemma TargetNeverOverflows(types: Types, root: Id, steps: seq<Step>)
    ensures Target(types, root, steps, true) != Err(OffsetOverflow)
  {
    if root < |types| {
      NeverOverflows(types, Start(root), steps);
    }
  }

  /** What the strict policy accepts the lenient one accepts, landing on the same type. */
  lemma {:induction false} StrictIsLenient(types: Types, p: Place, q: Place, steps: seq<Step>)
    requires p.cur < |types| && q == p.(offset := q.offset) && Follow(types, p, steps, true).Ok?
    ensures Follow(types, q, steps, false).Ok?
    ensures Follow(types, q, steps, false).value.cur == Follow(types, p, steps, true).value.cur
    decreases |steps|
  {
    if steps != [] {
      StrictIsLenient(types, Advance(types, p, steps[0], true).value, Advance(types, q, steps[0], false).value,
                      steps[1..]);
    }
  }

  // ----- the offset of a path within one allocation

  function MemberStep(types: Types, cur: Id, step: Step): Option<MemberDef>
    requires cur < |types|
  {
    var def := types[cur];
    match step
    case Member(at) => if def.Struct? || def.Union? then MemberAt(def.members, at) else None
    case Variant(name) =>
      if def.Enum? && VariantNamed(def.variants, name).Some? then Some(VariantNamed(def.variants, name).value.payload)
      else None
    case _ => None
  }

  function OffsetFrom(types: Types, cur: Id, steps: seq<Step>, offset: U64): Option<U64>
    requires cur < |types|
    decreases |steps|
  {
    if steps == [] then Some(offset)
    else
      match MemberStep(types, cur, steps[0])
      case None => None
      case Some(member) =>
        match CheckedAdd(offset, member.offset)
        case None => None
        case Some(next) => if member.ty < |types| then OffsetFrom(types, member.ty, steps[1..], next) else None
  }

  method SelectorOffset(types: Types, root: Id, steps: seq<Step>) returns (r: Option<U64>)
    ensures r == if root < |types| then OffsetFrom(types, root, steps, 0) else None
  {
    if root >= |types| {
      return None;
    }
    var cur: Id, offset: U64 := root, 0;
    for i := 0 to |steps|
      invariant cur < |types|
      invariant OffsetFrom(types, cur, steps[i..], offset) == OffsetFrom(types, root, steps, 0)
    {
      assert steps[i..][0] == steps[i] && steps[i..][1..] == steps[i + 1..];
      var member := MemberStep(types, cur, steps[i]);
      if member.None? {
        return None;
      }
      var next := CheckedAdd(offset, member.value.offset);
      if next.None? || member.value.ty >= |types| {
        return None;
      }
      cur, offset := member.value.ty, next.value;
    }
    return Some(offset);
  }

  predicate Derefs(steps: seq<Step>) {
    exists i :: 0 <= i < |steps| && steps[i].Deref?
  }

  lemma {:induction false} OffsetFollows(types: Types, p: Place, steps: seq<Step>)
    requires p.cur < |types| && Inside(types, p) && !Derefs(steps) && Follow(types, p, steps, true).Ok?
    ensures var end := Follow(types, p, steps, true).value;
            OffsetFrom(types, p.cur, steps, p.offset) == Some(end.offset) && end.head == p.head && Inside(types, end)
    decreases |steps|
  {
    if steps != [] {
      assert !steps[0].Deref?;
      assert !Derefs(steps[1..]) by {
        assert forall i | 0 <= i < |steps[1..]| :: steps[1..][i] == steps[i + 1];
      }
      AdvanceInside(types, p, steps[0]);
      var member := MemberStep(types, p.cur, steps[0]).value;
      InlineInside(types, p, member);
      OffsetFollows(types, Advance(types, p, steps[0], true).value, steps[1..]);
    }
  }

  /** The datum of an accepted semantic path that crosses no pointer lies inside the root. */
  lemma OffsetInsideRoot(types: Types, root: Id, steps: seq<Step>)
    requires Target(types, root, steps, true).Ok? && !Derefs(steps)
    ensures OffsetFrom(types, root, steps, 0).Some?
    ensures SizeOf(types, root).Some? && SizeOf(types, Target(types, root, steps, true).value).Some?
    ensures OffsetFrom(types, root, steps, 0).value + SizeOf(types, Target(types, root, steps, true).value).value
            <= SizeOf(types, root).value
  {
    OffsetFollows(types, Start(root), steps);
  }
}
