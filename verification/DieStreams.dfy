/** Debugging entries as section 2.3 of DWARF 5 lays a tree of them out: each entry, its
children if it owns any, and a null entry after the last of them. */
module DieStreams {
  import opened RawTypes

  datatype Tag = LexicalBlock | Variable | OtherTag(code: nat)

  datatype Location = Location(file: Option<string>, line: Option<nat>)

  /** The attributes the walkers read. */
  datatype Die = Die(tag: Tag, name: Option<string>, ty: Option<TypeId>, loc: Location)

  /** An entry that may own children ends with a null entry even when it has none. */
  datatype Tree = Leaf(die: Die) | Node(die: Die, kids: seq<Tree>)

  datatype Token = Entry(die: Die, hasChildren: bool) | Null

  function Flat(t: Tree): (r: seq<Token>)
    ensures r != []
    decreases t, 0
  {
    match t
    case Leaf(die) => [Entry(die, false)]
    case Node(die, kids) => [Entry(die, true)] + FlatAll(kids) + [Null]
  }

  function FlatAll(kids: seq<Tree>): seq<Token>
    decreases kids, 1
  {
    if kids == [] then [] else Flat(kids[0]) + FlatAll(kids[1..])
  }

  /** What is left of a walk: for each block open, innermost first, its children to come. */
  function FlatRest(open: seq<seq<Tree>>): seq<Token> {
    if open == [] then [] else FlatAll(open[0]) + [Null] + FlatRest(open[1..])
  }

  /** Tokens from `pos` on begin with `part`. */
  ghost predicate At(tokens: seq<Token>, pos: nat, part: seq<Token>) {
    pos + |part| <= |tokens| && tokens[pos..pos + |part|] == part
  }

  lemma AtSplit(tokens: seq<Token>, pos: nat, a: seq<Token>, b: seq<Token>)
    ensures At(tokens, pos, a + b) <==> At(tokens, pos, a) && At(tokens, pos + |a|, b)
  {
    if At(tokens, pos, a + b) {
      var all := tokens[pos..pos + |a| + |b|];
      assert all[..|a|] == a && all[|a|..] == b;
      assert tokens[pos..pos + |a|] == all[..|a|];
      assert tokens[pos + |a|..pos + |a| + |b|] == all[|a|..];
    }
    if At(tokens, pos, a) && At(tokens, pos + |a|, b) {
      assert tokens[pos..pos + |a| + |b|] == tokens[pos..pos + |a|] + tokens[pos + |a|..pos + |a| + |b|];
    }
  }

  lemma AtHead(tokens: seq<Token>, pos: nat, part: seq<Token>)
    requires At(tokens, pos, part) && part != []
    ensures pos < |tokens| && tokens[pos] == part[0]
  {
    assert tokens[pos..pos + |part|][0] == tokens[pos];
  }

  /** A cursor over a stream, on one token of it. */
  class Cursor {
    const tokens: seq<Token>
    var pos: nat

    constructor (tokens: seq<Token>)
      ensures this.tokens == tokens && pos == 0
    {
      this.tokens, pos := tokens, 0;
    }

    /** The entry under the cursor, or none on a null entry and past the end. */
    function Current(): Option<Token>
      reads this
    {
      if pos < |tokens| && tokens[pos].Entry? then Some(tokens[pos]) else None
    }

    method NextEntry() returns (more: bool)
      modifies this`pos
      ensures more == (old(pos) + 1 < |tokens|)
      ensures pos == if more then old(pos) + 1 else |tokens|
    {
      more := pos + 1 < |tokens|;
      pos := if more then pos + 1 else |tokens|;
    }

    /** From an entry to the last token of its subtree. */
    method ConsumeEntry(ghost t: Tree)
      requires At(tokens, pos, Flat(t))
      modifies this`pos
      ensures pos == old(pos) + |Flat(t)| - 1
      decreases t
    {
      AtHead(tokens, pos, Flat(t));
      if !Current().value.hasChildren {
        return;
      }
      ghost var end, i := pos + |Flat(t)| - 1, 0;
      WalkingStarts(tokens, pos, t);
      assert t.kids[0..] == t.kids;
      while true
        invariant 0 <= i <= |t.kids| && Walking(tokens, pos, [t.kids[i..]], end)
        decreases |t.kids| - i
      {
        WalkingOn(tokens, pos, [t.kids[i..]], end);
        OnlyOpen(t.kids, i);
        var more := NextEntry();
        if Current().None? {
          WalkingEnds(tokens, pos, end);
          break;
        }
        ConsumeEntry(t.kids[i]);
        i := i + 1;
      }
    }
  }

  lemma OnlyOpen(kids: seq<Tree>, i: nat)
    requires i <= |kids|
    ensures [kids[i..]][1..] == []
    ensures i < |kids| ==> kids[i..] != [] && kids[i..][0] == kids[i] && Passed([kids[i..]]) == [kids[i + 1..]]
    ensures i == |kids| ==> kids[i..] == []
  {
  }

  lemma KidsAt(tokens: seq<Token>, pos: nat, t: Tree)
    requires At(tokens, pos, Flat(t)) && t.Node?
    ensures At(tokens, pos + 1, FlatAll(t.kids) + [Null])
    ensures |Flat(t)| == |FlatAll(t.kids)| + 2
  {
    assert Flat(t) == [Entry(t.die, true)] + (FlatAll(t.kids) + [Null]);
    AtSplit(tokens, pos, [Entry(t.die, true)], FlatAll(t.kids) + [Null]);
  }

  // ----- blocks left open

  /** What is left once the next child of the innermost block is done. */
  function Passed(open: seq<seq<Tree>>): seq<seq<Tree>>
    requires open != [] && open[0] != []
  {
    [open[0][1..]] + open[1..]
  }

  lemma {:induction false} RestOfKid(open: seq<seq<Tree>>)
    requires open != [] && open[0] != []
    ensures FlatRest(open) == Flat(open[0][0]) + FlatRest(Passed(open))
    ensures open[0][0].Node?
            ==> FlatRest(open) == [Entry(open[0][0].die, true)] + FlatRest([open[0][0].kids] + Passed(open))
  {
    var kid, after := open[0][0], Passed(open);
    assert after[0] == open[0][1..] && after[1..] == open[1..];
    Regroup(Flat(kid), FlatAll(open[0][1..]), [Null], FlatRest(open[1..]));
    if kid.Node? {
      var deeper := [kid.kids] + after;
      assert deeper[0] == kid.kids && deeper[1..] == after;
      Regroup([Entry(kid.die, true)], FlatAll(kid.kids), [Null], FlatRest(after));
    }
  }

  lemma Regroup(a: seq<Token>, b: seq<Token>, c: seq<Token>, d: seq<Token>)
    ensures a + b + c + d == a + (b + c + d)
  {
  }

  /** The next token says whether the innermost block is done, and if not, leads into its next
  child. */
  lemma {:induction false} NextToken(tokens: seq<Token>, pos: nat, open: seq<seq<Tree>>)
    requires open != [] && At(tokens, pos, FlatRest(open))
    ensures pos < |tokens| && (tokens[pos].Null? <==> open[0] == [])
    ensures open[0] == [] ==> At(tokens, pos + 1, FlatRest(open[1..])) && |FlatRest(open)| == 1 + |FlatRest(open[1..])|
    ensures open[0] != [] ==>
              && tokens[pos] == Entry(open[0][0].die, open[0][0].Node?)
              && At(tokens, pos, Flat(open[0][0]))
              && At(tokens, pos + |Flat(open[0][0])|, FlatRest(Passed(open)))
              && |FlatRest(open)| == |Flat(open[0][0])| + |FlatRest(Passed(open))|
    ensures open[0] != [] && open[0][0].Node? ==>
              && At(tokens, pos + 1, FlatRest([open[0][0].kids] + Passed(open)))
              && |FlatRest(open)| == 1 + |FlatRest([open[0][0].kids] + Passed(open))|
  {
    AtHead(tokens, pos, FlatRest(open));
    if open[0] == [] {
      assert FlatRest(open) == [Null] + FlatRest(open[1..]);
      AtSplit(tokens, pos, [Null], FlatRest(open[1..]));
    } else {
      RestOfKid(open);
      AtSplit(tokens, pos, Flat(open[0][0]), FlatRest(Passed(open)));
      AtHead(tokens, pos, Flat(open[0][0]));
      if open[0][0].Node? {
        AtSplit(tokens, pos, [Entry(open[0][0].die, true)], FlatRest([open[0][0].kids] + Passed(open)));
      }
    }
  }

  lemma {:induction false} BlockOpens(tokens: seq<Token>, pos: nat, t: Tree)
    requires At(tokens, pos, Flat(t)) && t.Node?
    ensures At(tokens, pos + 1, FlatRest([t.kids])) && |Flat(t)| == 1 + |FlatRest([t.kids])|
  {
    KidsAt(tokens, pos, t);
    assert [t.kids][1..] == [];
    assert FlatRest([t.kids]) == FlatAll(t.kids) + [Null];
  }

  /** A cursor in the middle of a walk that ends on token `end`. */
  ghost predicate Walking(tokens: seq<Token>, pos: nat, open: seq<seq<Tree>>, end: nat) {
    At(tokens, pos + 1, FlatRest(open)) && pos + |FlatRest(open)| == end
  }

  /** One token on: a block closed, or a child met, to be entered or passed. */
  lemma {:induction false} WalkingOn(tokens: seq<Token>, pos: nat, open: seq<seq<Tree>>, end: nat)
    requires open != [] && Walking(tokens, pos, open, end)
    ensures pos + 1 < |tokens| && (tokens[pos + 1].Null? <==> open[0] == [])
    ensures open[0] == [] ==> Walking(tokens, pos + 1, open[1..], end)
    ensures open[0] != [] ==>
              && tokens[pos + 1] == Entry(open[0][0].die, open[0][0].Node?)
              && At(tokens, pos + 1, Flat(open[0][0]))
              && Walking(tokens, pos + |Flat(open[0][0])|, Passed(open), end)
    ensures open[0] != [] && open[0][0].Node? ==> Walking(tokens, pos + 1, [open[0][0].kids] + Passed(open), end)
  {
    NextToken(tokens, pos + 1, open);
  }

  predicate OpensBlock(t: Tree) {
    t.die.tag.LexicalBlock? && t.Node?
  }

  /** What is open after one more step of a walk that goes into blocks and passes all else. */
  ghost function After(open: seq<seq<Tree>>): seq<seq<Tree>>
    requires open != []
  {
    if open[0] == [] then open[1..]
    else if OpensBlock(open[0][0]) then [open[0][0].kids] + Passed(open)
    else Passed(open)
  }

  ghost function StepLength(open: seq<seq<Tree>>): nat
    requires open != []
  {
    if open[0] == [] || OpensBlock(open[0][0]) then 1 else |Flat(open[0][0])|
  }

  lemma WalkingAfter(tokens: seq<Token>, pos: nat, open: seq<seq<Tree>>, end: nat)
    requires open != [] && Walking(tokens, pos, open, end)
    ensures pos + StepLength(open) < |tokens| && Walking(tokens, pos + StepLength(open), After(open), end)
  {
    WalkingOn(tokens, pos, open, end);
  }

  lemma {:induction false} WalkingStarts(tokens: seq<Token>, pos: nat, t: Tree)
    requires At(tokens, pos, Flat(t)) && t.Node?
    ensures Walking(tokens, pos, [t.kids], pos + |Flat(t)| - 1)
  {
    BlockOpens(tokens, pos, t);
  }

  lemma WalkingEnds(tokens: seq<Token>, pos: nat, end: nat)
    requires Walking(tokens, pos, [], end)
    ensures pos == end
  {
  }
}
