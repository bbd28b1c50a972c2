/** The arms of a `select!`: one per outermost reference to a branch's future, with the pattern
bindings declared below it. */
module SelectArms {
  import opened RawTypes
  import opened DieStreams
  import opened DieWalk

  datatype Arm = Arm(anchor: TypeId, bindings: seq<Location>)

  /** An arm being gathered, and how many blocks were open where its reference was declared. */
  datatype OpenArm = OpenArm(anchor: TypeId, file: Option<string>, depth: nat, bindings: seq<Location>)

  const FUTURE := "fut"

  predicate IsFuture(die: Die) {
    die.name == Some(FUTURE)
  }

  /** A variable an arm binds: not a future, and its file is known and is not `file`. */
  predicate Binds(die: Die, file: Option<string>) {
    !IsFuture(die) && die.loc.file.Some? && die.loc.file != file
  }

  function Bindings(dies: seq<Die>, file: Option<string>): seq<Location> {
    if dies == [] then []
    else (if Binds(dies[0], file) then [dies[0].loc] else []) + Bindings(dies[1..], file)
  }

  /** The arms of a block's children: the first typed reference among them takes all that
  follows it in the block; blocks before it have arms of their own. */
  function Arms(kids: seq<Tree>): seq<Arm> {
    if kids == [] then []
    else
      var kid, rest := kids[0], kids[1..];
      match kid.die.tag
      case LexicalBlock => (if kid.Node? then Arms(kid.kids) else []) + Arms(rest)
      case Variable =>
        if IsFuture(kid.die) && kid.die.ty.Some? then
          [Arm(kid.die.ty.value, Bindings(Variables(rest), kid.die.loc.file))]
        else Arms(rest)
      case OtherTag(_) => Arms(rest)
  }

  lemma {:induction false} BindingsJoin(a: seq<Die>, b: seq<Die>, file: Option<string>)
    ensures Bindings(a + b, file) == Bindings(a, file) + Bindings(b, file)
    decreases |a|
  {
    if a == [] {
      assert a + b == b;
    } else {
      assert (a + b)[1..] == a[1..] + b;
      BindingsJoin(a[1..], b, file);
      Joins(if Binds(a[0], file) then [a[0].loc] else [], Bindings(a[1..], file), Bindings(b, file));
    }
  }

  /** Each variable adds its place where it is not called `fut` and its file is known and another than
  the reference's, in order; the others add nothing. */
  lemma BindingsExactly(before: seq<Die>, die: Die, after: seq<Die>, file: Option<string>)
    ensures Bindings(before + [die] + after, file)
            == Bindings(before, file)
               + (if die.name != Some("fut") && die.loc.file.Some? && die.loc.file != file then [die.loc] else [])
               + Bindings(after, file)
  {
    BindingsJoin(before + [die], after, file);
    BindingsJoin(before, [die], file);
    assert [die][1..] == [];
    assert Bindings([die], file) == if Binds(die, file) then [die.loc] else [];
  }

  /** A variable called `fut` that has a type. */
  ghost predicate Refers(die: Die) {
    die.tag.Variable? && die.name == Some("fut") && die.ty.Some?
  }

  /** The first such variable of a block opens an arm that takes all that follows in the block. */
  lemma {:induction false} ArmOpens(before: seq<Tree>, kid: Tree, after: seq<Tree>)
    requires Refers(kid.die)
    requires forall k | 0 <= k < |before| :: !Refers(before[k].die) && !before[k].die.tag.LexicalBlock?
    ensures Arms(before + [kid] + after) == [Arm(kid.die.ty.value, Bindings(Variables(after), kid.die.loc.file))]
    decreases |before|
  {
    var all := before + [kid] + after;
    if before == [] {
      assert all[1..] == after;
    } else {
      assert all[1..] == before[1..] + [kid] + after;
      ArmOpens(before[1..], kid, after);
    }
  }

  /** A block with no such variable in it or under it has no arm. */
  lemma {:induction false} NoArm(kids: seq<Tree>)
    requires forall k | 0 <= k < |Variables(kids)| :: !Refers(Variables(kids)[k])
    ensures Arms(kids) == []
  {
    if kids != [] {
      var kid, rest := kids[0], Variables(kids[1..]);
      var first := Variables(kids)[..|Variables(kids)| - |rest|];
      assert Variables(kids) == first + rest;
      forall k | 0 <= k < |rest|
        ensures !Refers(rest[k])
      {
        assert Variables(kids)[|first| + k] == rest[k];
      }
      NoArm(kids[1..]);
      if kid.die.tag.LexicalBlock? && kid.Node? {
        forall k | 0 <= k < |Variables(kid.kids)|
          ensures !Refers(Variables(kid.kids)[k])
        {
          assert Variables(kids)[k] == Variables(kid.kids)[k];
        }
        NoArm(kid.kids);
      } else if kid.die.tag.Variable? {
        assert Variables(kids)[0] == kid.die;
      }
    }
  }

  function ArmsOf(t: Tree): seq<Arm> {
    if t.Node? then Arms(t.kids) else []
  }

  function ArmsLeft(open: seq<seq<Tree>>): seq<Arm> {
    if open == [] then [] else Arms(open[0]) + ArmsLeft(open[1..])
  }

  /** The blocks open at and under an arm's own. */
  function Under(arm: OpenArm, open: seq<seq<Tree>>): (n: int) {
    |open| - arm.depth + 1
  }

  function Finished(arm: OpenArm, more: seq<Location>): Arm {
    Arm(arm.anchor, arm.bindings + more)
  }

  /** The arms out, the arm open with what it will still take, and the arms to come make up the
  whole. */
  ghost predicate Gathered(out: seq<Arm>, arm: Option<OpenArm>, open: seq<seq<Tree>>, whole: seq<Arm>) {
    match arm
    case None => out + ArmsLeft(open) == whole
    case Some(a) =>
      && 1 <= Under(a, open) <= |open|
      && out + [Finished(a, Bindings(VariablesLeft(open[..Under(a, open)]), a.file))]
         + ArmsLeft(open[Under(a, open)..]) == whole
  }

  /** What one variable does: opens an arm, adds a binding to the one open, or nothing. */
  function Heard(arm: Option<OpenArm>, die: Die, depth: nat): Option<OpenArm> {
    match arm
    case None =>
      if IsFuture(die) && die.ty.Some? then Some(OpenArm(die.ty.value, die.loc.file, depth, [])) else None
    case Some(a) => if Binds(die, a.file) then Some(a.(bindings := a.bindings + [die.loc])) else arm
  }

  // ----- with no arm open

  lemma {:induction false} ArmsAfter(open: seq<seq<Tree>>)
    requires open != [] && open[0] != []
    ensures ArmsLeft(Passed(open)) == Arms(open[0][1..]) + ArmsLeft(open[1..])
    ensures open[0][0].Node? ==>
              ArmsLeft([open[0][0].kids] + Passed(open)) == Arms(open[0][0].kids) + ArmsLeft(Passed(open))
  {
    var after := Passed(open);
    assert after[0] == open[0][1..] && after[1..] == open[1..];
    if open[0][0].Node? {
      var deeper := [open[0][0].kids] + after;
      assert deeper[0] == open[0][0].kids && deeper[1..] == after;
    }
  }

  lemma {:induction false} ArmsNext(open: seq<seq<Tree>>)
    requires open != []
    ensures open[0] == [] ==> ArmsLeft(open) == ArmsLeft(open[1..])
    ensures open[0] != [] ==>
              var kid := open[0][0];
              match kid.die.tag
              case LexicalBlock =>
                ArmsLeft(open) == (if kid.Node? then ArmsLeft([kid.kids] + Passed(open)) else ArmsLeft(Passed(open)))
              case Variable =>
                if IsFuture(kid.die) && kid.die.ty.Some? then
                  ArmsLeft(open) == [Arm(kid.die.ty.value, Bindings(Variables(open[0][1..]), kid.die.loc.file))]
                                    + ArmsLeft(open[1..])
                else ArmsLeft(open) == ArmsLeft(Passed(open))
              case OtherTag(_) => ArmsLeft(open) == ArmsLeft(Passed(open))
  {
    if open[0] != [] {
      ArmsAfter(open);
      var kid, rest, above := open[0][0], Arms(open[0][1..]), ArmsLeft(open[1..]);
      if kid.die.tag.LexicalBlock? {
        Joins(if kid.Node? then Arms(kid.kids) else [], rest, above);
      }
    }
  }

  lemma Joins<T>(a: seq<T>, b: seq<T>, c: seq<T>)
    ensures (a + b) + c == a + (b + c) && [] + c == c
  {
  }

  lemma {:induction false} OpensArm(out: seq<Arm>, open: seq<seq<Tree>>, whole: seq<Arm>)
    requires open != [] && open[0] != [] && Gathered(out, None, open, whole)
    requires open[0][0].die.tag.Variable?
    ensures Gathered(out, Heard(None, open[0][0].die, |open|), Passed(open), whole)
  {
    ArmsNext(open);
    var die, after := open[0][0].die, Passed(open);
    var heard := Heard(None, die, |open|);
    if heard.Some? {
      assert Under(heard.value, after) == 1;
      assert after[..1] == [open[0][1..]] && after[1..] == open[1..];
      assert [open[0][1..]][1..] == [];
      assert VariablesLeft(after[..1]) == Variables(open[0][1..]);
      var made := Arm(die.ty.value, Bindings(Variables(open[0][1..]), die.loc.file));
      assert Finished(heard.value, Bindings(Variables(open[0][1..]), die.loc.file)) == made;
      assert out + ([made] + ArmsLeft(open[1..])) == out + [made] + ArmsLeft(open[1..]);
    }
  }

  // ----- with one open

  lemma Inner(open: seq<seq<Tree>>, n: nat)
    requires 1 <= n <= |open|
    ensures open[..n][0] == open[0] && open[..n][1..] == open[1..][..n - 1] && open[1..][n - 1..] == open[n..]
    ensures open[0] != [] ==> Passed(open)[..n] == Passed(open[..n]) && Passed(open)[n..] == open[n..]
    ensures open[0] != [] && open[0][0].Node? ==>
              && ([open[0][0].kids] + Passed(open))[..n + 1] == [open[0][0].kids] + Passed(open[..n])
              && ([open[0][0].kids] + Passed(open))[n + 1..] == open[n..]
  {
  }

  /** The innermost block closes inside the arm, or takes the arm with it. */
  lemma {:induction false} ArmCloses(out: seq<Arm>, a: OpenArm, open: seq<seq<Tree>>, whole: seq<Arm>)
    requires open != [] && open[0] == [] && Gathered(out, Some(a), open, whole)
    ensures |open| - 1 < a.depth ==> Gathered(out + [Finished(a, [])], None, open[1..], whole)
    ensures |open| - 1 >= a.depth ==> Gathered(out, Some(a), open[1..], whole)
  {
    var n := Under(a, open);
    Inner(open, n);
    VariablesNext(open[..n]);
    if n == 1 {
      assert open[..1][1..] == [];
      assert Bindings([], a.file) == [];
    }
  }

  lemma {:induction false} ArmGoesOn(out: seq<Arm>, a: OpenArm, open: seq<seq<Tree>>, whole: seq<Arm>)
    requires open != [] && open[0] != [] && Gathered(out, Some(a), open, whole)
    ensures var kid := open[0][0];
            match kid.die.tag
            case LexicalBlock =>
              if kid.Node? then Gathered(out, Some(a), [kid.kids] + Passed(open), whole)
              else Gathered(out, Some(a), Passed(open), whole)
            case Variable => Gathered(out, Heard(Some(a), kid.die, |open|), Passed(open), whole)
            case OtherTag(_) => Gathered(out, Some(a), Passed(open), whole)
  {
    var n := Under(a, open);
    Inner(open, n);
    VariablesNext(open[..n]);
    var kid := open[0][0];
    if kid.die.tag.Variable? {
      var heard := Heard(Some(a), kid.die, |open|).value;
      ArmHears(a, kid.die, |open|, VariablesLeft(Passed(open[..n])));
      assert Under(heard, Passed(open)) == n;
    }
  }

  lemma ArmHears(a: OpenArm, die: Die, depth: nat, rest: seq<Die>)
    ensures Heard(Some(a), die, depth).Some?
    ensures var heard := Heard(Some(a), die, depth).value;
            && heard.file == a.file && heard.depth == a.depth
            && Finished(heard, Bindings(rest, a.file)) == Finished(a, Bindings([die] + rest, a.file))
  {
    assert ([die] + rest)[1..] == rest;
    if Binds(die, a.file) {
      assert a.bindings + ([die.loc] + Bindings(rest, a.file)) == a.bindings + [die.loc] + Bindings(rest, a.file);
    }
  }

  // ----- the steps of the walk, arm or no arm

  function ClosedInto(out: seq<Arm>, arm: Option<OpenArm>, depth: nat): seq<Arm> {
    if arm.Some? && depth < arm.value.depth then out + [Finished(arm.value, [])] else out
  }

  function StillOpen(arm: Option<OpenArm>, depth: nat): Option<OpenArm> {
    if arm.Some? && depth < arm.value.depth then None else arm
  }

  lemma {:induction false} GatherOn(out: seq<Arm>, arm: Option<OpenArm>, open: seq<seq<Tree>>, whole: seq<Arm>)
    requires open != [] && Gathered(out, arm, open, whole)
    ensures open[0] == [] ==> Gathered(ClosedInto(out, arm, |open| - 1), StillOpen(arm, |open| - 1), open[1..], whole)
    ensures open[0] != [] ==>
              var kid := open[0][0];
              match kid.die.tag
              case LexicalBlock =>
                if kid.Node? then Gathered(out, arm, [kid.kids] + Passed(open), whole)
                else Gathered(out, arm, Passed(open), whole)
              case Variable => Gathered(out, Heard(arm, kid.die, |open|), Passed(open), whole)
              case OtherTag(_) => Gathered(out, arm, Passed(open), whole)
  {
    if arm.None? {
      ArmsNext(open);
      if open[0] != [] && open[0][0].die.tag.Variable? {
        OpensArm(out, open, whole);
      }
    } else if open[0] == [] {
      ArmCloses(out, arm.value, open, whole);
    } else {
      ArmGoesOn(out, arm.value, open, whole);
    }
  }

  lemma GatherStarts(out: seq<Arm>, t: Tree)
    requires t.Node?
    ensures Gathered(out, None, [t.kids], out + ArmsOf(t))
  {
    assert [t.kids][1..] == [];
    assert ArmsLeft([t.kids]) == Arms(t.kids);
  }

  lemma GatherEnds(out: seq<Arm>, arm: Option<OpenArm>, whole: seq<Arm>)
    requires Gathered(out, arm, [], whole)
    ensures arm.None? && out == whole
  {
    assert ArmsLeft([]) == [];
  }

  /** One token of the walk. */
  method ArmStep(cursor: Cursor, ghost open: seq<seq<Tree>>, ghost end: nat, ghost whole: seq<Arm>,
                 arms: seq<Arm>, before: Option<OpenArm>, blocks: nat)
    returns (out: seq<Arm>, arm: Option<OpenArm>, depth: nat, more: bool, ghost left: seq<seq<Tree>>)
    requires blocks == |open| > 0 && Walking(cursor.tokens, cursor.pos, open, end)
             && Gathered(arms, before, open, whole)
    modifies cursor`pos
    ensures more && old(cursor.pos) < cursor.pos < |cursor.tokens|
    ensures depth == |left| && Walking(cursor.tokens, cursor.pos, left, end) && Gathered(out, arm, left, whole)
  {
    WalkingOn(cursor.tokens, cursor.pos, open, end);
    GatherOn(arms, before, open, whole);
    out, arm, depth, left := arms, before, blocks, open;
    more := cursor.NextEntry();
    if !more {
      return;
    }
    var child := cursor.Current();
    if child.None? {
      depth, left := depth - 1, open[1..];
      out, arm := ClosedInto(arms, before, depth), StillOpen(before, depth);
    } else if child.value.die.tag.LexicalBlock? && child.value.hasChildren {
      depth, left := depth + 1, [open[0][0].kids] + Passed(open);
    } else {
      PassedWithin(cursor.tokens, cursor.pos, open[0][0]);
      cursor.ConsumeEntry(open[0][0]);
      if child.value.die.tag.Variable? {
        arm := Heard(before, child.value.die, depth);
      }
      left := Passed(open);
    }
  }

  /** From a block to its last token, with the arms under it as the tree has them. */
  method CollectSelectArms(cursor: Cursor, ghost t: Tree, arms: seq<Arm>) returns (out: seq<Arm>)
    requires At(cursor.tokens, cursor.pos, Flat(t)) && t.die.tag.LexicalBlock?
    modifies cursor`pos
    ensures cursor.pos == old(cursor.pos) + |Flat(t)| - 1
    ensures out == arms + ArmsOf(t)
  {
    out := arms;
    AtHead(cursor.tokens, cursor.pos, Flat(t));
    if !cursor.Current().value.hasChildren {
      cursor.ConsumeEntry(t);
      return;
    }
    var arm: Option<OpenArm>, depth: nat := None, 1;
    ghost var open, end, whole := [t.kids], cursor.pos + |Flat(t)| - 1, arms + ArmsOf(t);
    WalkingStarts(cursor.tokens, cursor.pos, t);
    GatherStarts(arms, t);
    while depth > 0
      invariant depth == |open| && cursor.pos < |cursor.tokens|
      invariant Walking(cursor.tokens, cursor.pos, open, end)
      invariant Gathered(out, arm, open, whole)
      decreases |cursor.tokens| - cursor.pos
    {
      var more;
      out, arm, depth, more, open := ArmStep(cursor, open, end, whole, out, arm, depth);
      if !more {
        break;
      }
    }
    WalkingEnds(cursor.tokens, cursor.pos, end);
    GatherEnds(out, arm, whole);
    match arm {
      case None =>
      case Some(a) => out := out + [Finished(a, [])];
    }
  }
}
