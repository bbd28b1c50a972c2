/** The walkers of a resume function's blocks: loops that count open blocks over the flat stream,
against traversals of the tree. */
module DieWalk {
  import opened RawTypes
  import opened DieStreams

  // ----- resume variables

  datatype Awaitee = Awaitee(loc: Location, ty: Option<TypeId>)

  datatype Local = Local(name: string, loc: Location)

  const AWAITEE := "__awaitee"

  predicate CompilerNamed(name: string) {
    |name| >= 2 && name[..2] == "__"
  }

  /** The variables of a block and of the blocks under it, in the order they are declared. What
  other entries own is not looked into. */
  function Variables(kids: seq<Tree>): seq<Die> {
    if kids == [] then []
    else
      (match kids[0].die.tag
       case LexicalBlock => if kids[0].Node? then Variables(kids[0].kids) else []
       case Variable => [kids[0].die]
       case OtherTag(_) => [])
      + Variables(kids[1..])
  }

  function VariablesOf(t: Tree): seq<Die> {
    if t.Node? then Variables(t.kids) else []
  }

  /** Awaits by the one name the compiler gives them. */
  function Awaitees(dies: seq<Die>): seq<Awaitee> {
    if dies == [] then []
    else
      var last := dies[|dies| - 1];
      Awaitees(dies[..|dies| - 1]) + (if last.name == Some(AWAITEE) then [Awaitee(last.loc, last.ty)] else [])
  }

  /** Locals by any name the compiler does not reserve. */
  function Locals(dies: seq<Die>): seq<Local> {
    if dies == [] then []
    else
      var last := dies[|dies| - 1];
      Locals(dies[..|dies| - 1])
      + (if last.name.Some? && !CompilerNamed(last.name.value) then [Local(last.name.value, last.loc)] else [])
  }

  function VariablesLeft(open: seq<seq<Tree>>): seq<Die> {
    if open == [] then [] else Variables(open[0]) + VariablesLeft(open[1..])
  }

  lemma {:induction false} VariablesNext(open: seq<seq<Tree>>)
    requires open != []
    ensures open[0] == [] ==> VariablesLeft(open) == VariablesLeft(open[1..])
    ensures open[0] != [] ==>
              var kid := open[0][0];
              VariablesLeft(open)
              == match kid.die.tag
                 case LexicalBlock => if kid.Node? then VariablesLeft([kid.kids] + Passed(open))
                   else VariablesLeft(Passed(open))
                 case Variable => [kid.die] + VariablesLeft(Passed(open))
                 case OtherTag(_) => VariablesLeft(Passed(open))
  {
    if open[0] != [] {
      var kid, after := open[0][0], Passed(open);
      assert after[0] == open[0][1..] && after[1..] == open[1..];
      if kid.Node? {
        var deeper := [kid.kids] + after;
        assert deeper[0] == kid.kids && deeper[1..] == after;
      }
    }
  }

  /** What has been found and what is left make up the whole. */
  ghost predicate Tallied(found: seq<Die>, open: seq<seq<Tree>>, whole: seq<Die>) {
    found + VariablesLeft(open) == whole
  }

  lemma {:induction false} TallyOn(found: seq<Die>, open: seq<seq<Tree>>, whole: seq<Die>)
    requires open != [] && Tallied(found, open, whole)
    ensures open[0] == [] ==> Tallied(found, open[1..], whole)
    ensures open[0] != [] ==>
              var kid := open[0][0];
              match kid.die.tag
              case LexicalBlock =>
                if kid.Node? then Tallied(found, [kid.kids] + Passed(open), whole)
                  else Tallied(found, Passed(open), whole)
              case Variable => Tallied(found + [kid.die], Passed(open), whole)
              case OtherTag(_) => Tallied(found, Passed(open), whole)
  {
    VariablesNext(open);
    if open[0] != [] && open[0][0].die.tag.Variable? {
      var d, rest := open[0][0].die, VariablesLeft(Passed(open));
      assert found + ([d] + rest) == found + [d] + rest;
    }
  }

  lemma TallyStarts(t: Tree)
    requires t.Node?
    ensures Tallied([], [t.kids], VariablesOf(t))
  {
    assert [t.kids][1..] == [];
  }

  lemma TallyEnds(found: seq<Die>, whole: seq<Die>)
    requires Tallied(found, [], whole)
    ensures found == whole
  {
    assert found + [] == found;
  }

  /** The lists so far: those given, and what the variables found come to. */
  ghost predicate Lists(a: seq<Awaitee>, l: seq<Local>, awaitees: seq<Awaitee>, locals: seq<Local>, found: seq<Die>) {
    a == awaitees + Awaitees(found) && l == locals + Locals(found)
  }

  /** Where a variable goes: to the awaits by the one name, to the locals by one not reserved. */
  ghost predicate Sifted(die: Die, a: seq<Awaitee>, l: seq<Local>, b: seq<Awaitee>, m: seq<Local>) {
    && b == (if die.name == Some("__awaitee") then a + [Awaitee(die.loc, die.ty)] else a)
    && m == if die.name.Some? && !("__" <= die.name.value) then l + [Local(die.name.value, die.loc)] else l
  }

  method ProcessResumeVar(cursor: Cursor, ghost t: Tree, a: seq<Awaitee>, l: seq<Local>, ghost found: seq<Die>,
                          ghost awaitees: seq<Awaitee>, ghost locals: seq<Local>)
    returns (b: seq<Awaitee>, m: seq<Local>)
    requires At(cursor.tokens, cursor.pos, Flat(t)) && t.die.tag.Variable?
    requires Lists(a, l, awaitees, locals, found)
    modifies cursor`pos
    ensures cursor.pos == old(cursor.pos) + |Flat(t)| - 1
    ensures Lists(b, m, awaitees, locals, found + [t.die])
    ensures Sifted(t.die, a, l, b, m)
  {
    AtHead(cursor.tokens, cursor.pos, Flat(t));
    var die := cursor.Current().value.die;
    assert (found + [die])[..|found|] == found;
    b, m := a, l;
    if die.name == Some(AWAITEE) {
      b := b + [Awaitee(die.loc, die.ty)];
    } else if die.name.Some? && !CompilerNamed(die.name.value) {
      m := m + [Local(die.name.value, die.loc)];
    }
    cursor.ConsumeEntry(t);
  }

  /** An entry that is passed as a whole: a variable is kept, anything else is not looked into. */
  method ResumeEntry(cursor: Cursor, ghost t: Tree, ghost found: seq<Die>, a: seq<Awaitee>, l: seq<Local>,
                     ghost awaitees: seq<Awaitee>, ghost locals: seq<Local>)
    returns (b: seq<Awaitee>, m: seq<Local>, ghost seen: seq<Die>)
    requires At(cursor.tokens, cursor.pos, Flat(t)) && Lists(a, l, awaitees, locals, found)
    modifies cursor`pos
    ensures cursor.pos == old(cursor.pos) + |Flat(t)| - 1
    ensures seen == if t.die.tag.Variable? then found + [t.die] else found
    ensures Lists(b, m, awaitees, locals, seen)
  {
    AtHead(cursor.tokens, cursor.pos, Flat(t));
    b, m, seen := a, l, found;
    if cursor.Current().value.die.tag.Variable? {
      b, m := ProcessResumeVar(cursor, t, a, l, found, awaitees, locals);
      seen := found + [t.die];
    } else {
      cursor.ConsumeEntry(t);
    }
  }

  ghost function SeenAfter(found: seq<Die>, open: seq<seq<Tree>>): seq<Die>
    requires open != []
  {
    if open[0] != [] && open[0][0].die.tag.Variable? then found + [open[0][0].die] else found
  }

  lemma TallyAfter(found: seq<Die>, open: seq<seq<Tree>>, whole: seq<Die>)
    requires open != [] && Tallied(found, open, whole)
    ensures Tallied(SeenAfter(found, open), After(open), whole)
  {
    TallyOn(found, open, whole);
  }

  /** One token of the walk. */
  method ResumeStep(cursor: Cursor, ghost open: seq<seq<Tree>>, ghost end: nat, ghost found: seq<Die>,
                    a: seq<Awaitee>, l: seq<Local>, blocks: nat, ghost awaitees: seq<Awaitee>, ghost locals: seq<Local>)
    returns (b: seq<Awaitee>, m: seq<Local>, depth: nat, more: bool)
    requires blocks == |open| > 0 && Walking(cursor.tokens, cursor.pos, open, end)
    requires Lists(a, l, awaitees, locals, found)
    modifies cursor`pos
    ensures more && cursor.pos == old(cursor.pos) + StepLength(open) && depth == |After(open)|
    ensures Lists(b, m, awaitees, locals, SeenAfter(found, open))
  {
    WalkingOn(cursor.tokens, cursor.pos, open, end);
    b, m, depth := a, l, blocks;
    more := cursor.NextEntry();
    if !more {
      return;
    }
    var child := cursor.Current();
    if child.None? {
      depth := depth - 1;
    } else if child.value.die.tag.LexicalBlock? && child.value.hasChildren {
      depth := depth + 1;
    } else {
      ghost var seen;
      b, m, seen := ResumeEntry(cursor, open[0][0], found, a, l, awaitees, locals);
    }
  }

  /** One token, with what is left of the walk. */
  method ResumeOn(cursor: Cursor, ghost open: seq<seq<Tree>>, ghost end: nat, ghost whole: seq<Die>,
                  ghost found: seq<Die>,
                  a: seq<Awaitee>, l: seq<Local>, blocks: nat, ghost awaitees: seq<Awaitee>, ghost locals: seq<Local>)
    returns (b: seq<Awaitee>, m: seq<Local>, depth: nat, more: bool, ghost left: seq<seq<Tree>>, ghost seen: seq<Die>)
    requires blocks == |open| > 0 && Walking(cursor.tokens, cursor.pos, open, end) && Tallied(found, open, whole)
    requires Lists(a, l, awaitees, locals, found)
    modifies cursor`pos
    ensures more && old(cursor.pos) < cursor.pos < |cursor.tokens|
    ensures depth == |left| && Walking(cursor.tokens, cursor.pos, left, end) && Tallied(seen, left, whole)
    ensures Lists(b, m, awaitees, locals, seen)
  {
    WalkingAfter(cursor.tokens, cursor.pos, open, end);
    TallyAfter(found, open, whole);
    b, m, depth, more := ResumeStep(cursor, open, end, found, a, l, blocks, awaitees, locals);
    left, seen := After(open), SeenAfter(found, open);
  }

  lemma PassedWithin(tokens: seq<Token>, pos: nat, t: Tree)
    requires At(tokens, pos, Flat(t))
    ensures pos + |Flat(t)| - 1 < |tokens|
  {
  }

  /** From a block to its last token, with its awaits and locals as the tree has them. */
  method CollectResumeVars(cursor: Cursor, ghost t: Tree, awaitees: seq<Awaitee>, locals: seq<Local>)
    returns (a: seq<Awaitee>, l: seq<Local>)
    requires At(cursor.tokens, cursor.pos, Flat(t)) && t.die.tag.LexicalBlock?
    modifies cursor`pos
    ensures cursor.pos == old(cursor.pos) + |Flat(t)| - 1
    ensures Lists(a, l, awaitees, locals, VariablesOf(t))
  {
    a, l := awaitees, locals;
    AtHead(cursor.tokens, cursor.pos, Flat(t));
    if !cursor.Current().value.hasChildren {
      cursor.ConsumeEntry(t);
      return;
    }
    var depth: nat := 1;
    ghost var open, found, end := [t.kids], [], cursor.pos + |Flat(t)| - 1;
    WalkingStarts(cursor.tokens, cursor.pos, t);
    TallyStarts(t);
    while depth > 0
      invariant depth == |open| && cursor.pos < |cursor.tokens|
      invariant Walking(cursor.tokens, cursor.pos, open, end)
      invariant Tallied(found, open, VariablesOf(t))
      invariant Lists(a, l, awaitees, locals, found)
      decreases |cursor.tokens| - cursor.pos
    {
      var more;
      a, l, depth, more, open, found := ResumeOn(cursor, open, end, VariablesOf(t), found, a, l, depth, awaitees,
                                                 locals);
      if !more {
        break;
      }
    }
    WalkingEnds(cursor.tokens, cursor.pos, end);
    TallyEnds(found, VariablesOf(t));
  }
}
