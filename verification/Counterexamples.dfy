/** Why the conditions are there: inputs on which the passes do not do what they do elsewhere. */
module Counterexamples {
  import opened RawTypes
  import opened Substitution
  import opened Layout
  import opened Passes
  import opened Structural
  import opened Specifications

  function OneMember(offset: nat): RawType {
    Struct(Some(1), None, 8, [Member(Some(2), offset, 7)], [])
  }

  /** Three definitions of one name, the first with no members recorded. */
  function WildcardTable(): Table {
    Table(map[0 := Struct(Some(1), None, 8, [], []), 1 := OneMember(0), 2 := OneMember(4)], {}, {})
  }

  /** A definition with an empty list goes with two that do not go together: without complete
  definitions, compatibility is not transitive. */
  lemma EmptyListsBreakTransitivity()
    ensures Acyclic(map[])
    ensures var p := Partition(WildcardTable(), map[], None);
            p.CompatibleLayout(1, 0) && p.CompatibleLayout(0, 2) && !p.CompatibleLayout(1, 2)
  {
    EmptyIsAcyclic();
    var p := Partition(WildcardTable(), map[], None);
    var a, b := [Member(Some(2), 0, 7)], [Member(Some(2), 4, 7)];
    assert p.Get(0) == Some(Struct(Some(1), None, 8, [], []));
    assert p.Get(1) == Some(OneMember(0)) && p.Get(2) == Some(OneMember(4));
    assert !p.CompatibleMember(a[0], b[0]);
    assert !p.CompatibleMembers(a, b);
  }

  function Aligned(alignment: Option<nat>): RawType {
    Base(Some(1), None, Unsigned, 8, alignment)
  }

  /** Three definitions of one base type, the first with no alignment recorded. */
  function UnalignedTable(): Table {
    Table(map[0 := Aligned(None), 1 := Aligned(Some(4)), 2 := Aligned(Some(8))], {}, {})
  }

  /** An absent alignment does the same. */
  lemma AbsentAlignmentsBreakTransitivity()
    ensures Acyclic(map[])
    ensures var p := Partition(UnalignedTable(), map[], None);
            p.CompatibleLayout(1, 0) && p.CompatibleLayout(0, 2) && !p.CompatibleLayout(1, 2)
  {
    EmptyIsAcyclic();
    var p := Partition(UnalignedTable(), map[], None);
    assert p.Get(0) == Some(Aligned(None)) && p.Get(1) == Some(Aligned(Some(4))) && p.Get(2) == Some(Aligned(Some(8)));
  }

  /** Two arrays of one element type and count, the lower of them a declaration that the other
  names as its own. */
  function LinkedTable(): Table {
    Table(map[5 := Array(1, 3), 9 := Array(1, 3)], {5}, {})
  }

  function LinkedArrays(): map<TypeId, TypeId> {
    map[9 := 5]
  }

  /** What the link folds to. */
  function LinkedNames(): map<TypeId, TypeId> {
    map[5 := 9]
  }

  lemma LinkFolds()
    ensures IsBase(LinkedArrays(), LinkedTable().declarations, LinkedArrays().Keys, LinkedNames())
    ensures BaseDescends(LinkedTable(), LinkedNames()) && Acyclic(LinkedNames())
  {
    forall x: TypeId
      ensures FoldedAt(LinkedArrays(), LinkedTable().declarations, LinkedArrays().Keys, LinkedNames(), x)
    {
      assert Folds(LinkedArrays(), LinkedTable().declarations, 9, 5);
      if x == 5 {
        assert LastWord(LinkedArrays(), LinkedTable().declarations, LinkedArrays().Keys, LinkedNames(), 5, 9);
      }
    }
    BaseIsAcyclic(LinkedTable(), LinkedNames());
  }

  /** A specification link between arrays makes the structural round close a loop: the higher is
  sent to the lower, which the link sends back. */
  lemma LinkedArraysLoop()
    ensures Acyclic(LinkedNames()) && !Acyclic(LinkedNames() + Lows(LinkedTable(), LinkedNames()))
  {
    LinkFolds();
    var table, m := LinkedTable(), LinkedNames();
    assert KeyIn(table, m, 5) == KeyIn(table, m, 9);
    assert Low(table, m, 5) == 5 by {
      assert Low(table, m, 5) in Bucket(table, m, 5);
    }
    LowestLinkedLoops(table, m, 5);
  }
}
