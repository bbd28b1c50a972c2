/** The unit rule said of the evidence itself: whose word counts for a declaration, and when one
sibling type is enough to place it. */
module Siblings {
  import opened RawTypes
  import opened Layout
  import opened Groups
  import opened Units
  import opened Placement

  ghost predicate IsLowest(ids: set<TypeId>, x: TypeId) {
    x in ids && forall y | y in ids :: x <= y
  }

  /** The paths of the two types name a crate in common. */
  ghost predicate ShareCrate(e: Evidence, a: TypeId, b: TypeId) {
    a in e.crates && b in e.crates && exists name :: name in e.crates[a] && name in e.crates[b]
  }

  /** The groups are one, or their lowest types share a crate. */
  ghost predicate Akin(e: Evidence, own: set<TypeId>, other: set<TypeId>) {
    own == other || exists a, b :: IsLowest(own, a) && IsLowest(other, b) && ShareCrate(e, a, b)
  }

  lemma LowestFirst(ids: set<TypeId>)
    requires ids != {}
    ensures Ascending(ids) != [] && IsLowest(ids, Ascending(ids)[0])
  {
    var ordered := Ascending(ids);
    var x :| x in ids;
    assert x in ordered;
    assert ordered[0] in ids;
    forall y | y in ids
      ensures ordered[0] <= y
    {
      assert y in ordered;
    }
  }

  /** A group speaks for another's declarations exactly when they are akin. */
  lemma SiblingsExactly(v: View, own: set<TypeId>, other: set<TypeId>)
    ensures v.Siblings(own, other) <==> Akin(v.evidence, own, other)
  {
    if own != {} && other != {} {
      LowestFirst(own);
      LowestFirst(other);
      var a, b := Ascending(own)[0], Ascending(other)[0];
      if v.CratesOf(own) * v.CratesOf(other) != {} {
        var name :| name in v.CratesOf(own) * v.CratesOf(other);
        assert name in v.evidence.crates[a] && name in v.evidence.crates[b];
      }
      if own != other && Akin(v.evidence, own, other) {
        var name :| name in v.evidence.crates[a] && name in v.evidence.crates[b];
        assert name in v.CratesOf(own) * v.CratesOf(other);
      }
    }
  }

  /** Some akin group votes for the class. */
  ghost predicate Heard(v: View, splits: set<set<TypeId>>, own: set<TypeId>, unit: nat, classId: TypeId) {
    exists other :: other in splits && Akin(v.evidence, own, other) && v.Votes(own, other, unit, classId)
  }

  lemma HeardIsElected(v: View, splits: set<set<TypeId>>, own: set<TypeId>, unit: nat, classId: TypeId)
    ensures v.Elects(splits, own, unit, classId) <==> Heard(v, splits, own, unit, classId)
  {
    forall other
      ensures v.Siblings(own, other) <==> Akin(v.evidence, own, other)
    {
      SiblingsExactly(v, own, other);
    }
  }

  ghost predicate GroupsApart(splits: set<set<TypeId>>) {
    forall a, b | a in splits && b in splits && a != b :: a !! b
  }

  /** As the split groups of a round are, when no id is in two groups. */
  lemma SplitSetsApart(v: View, p: Partition, groups: seq<seq<TypeId>>)
    requires ResolvedApart(p, groups)
    ensures GroupsApart(SplitSets(v, p, groups))
  {
    forall a, b | a in SplitSets(v, p, groups) && b in SplitSets(v, p, groups) && a != b
      ensures a !! b
    {
      var g :| 0 <= g < |groups| && a == Resolved(p, groups[g]);
      var h :| 0 <= h < |groups| && b == Resolved(p, groups[h]);
      assert if g < h then Resolved(p, groups[g]) !! Resolved(p, groups[h])
        else Resolved(p, groups[h]) !! Resolved(p, groups[g]);
    }
  }

  /** One class and no other is heard for. */
  ghost predicate HeardOnly(v: View, splits: set<set<TypeId>>, own: set<TypeId>, unit: nat, classId: TypeId) {
    Heard(v, splits, own, unit, classId) && forall c | Heard(v, splits, own, unit, c) :: c == classId
  }

  lemma HeardDecides(v: View, splits: set<set<TypeId>>, own: set<TypeId>, d: TypeId, classId: TypeId)
    ensures v.Decides(splits, own, d, Placed(classId))
            <==> && UnitOf(v.evidence.origins, d).Some?
                 && HeardOnly(v, splits, own, UnitOf(v.evidence.origins, d).value, classId)
  {
    if UnitOf(v.evidence.origins, d).Some? {
      forall c
        ensures v.Elects(splits, own, UnitOf(v.evidence.origins, d).value, c)
                <==> Heard(v, splits, own, UnitOf(v.evidence.origins, d).value, c)
      {
        HeardIsElected(v, splits, own, UnitOf(v.evidence.origins, d).value, c);
      }
    }
  }

  lemma PlacedFrom(v: View, splits: set<set<TypeId>>, placed: seq<Pair>, unresolved: seq<Unresolved>,
                   own: set<TypeId>, pair: Pair)
    requires RoundOf(v, splits, placed, unresolved) && GroupsApart(splits) && own in splits && pair.0 in own
    requires pair in placed
    ensures v.Decides(splits, own, pair.0, Placed(pair.1))
  {
    var from :| from in splits && PlacedAs(v, splits, from, pair.0, pair.1);
    assert from == own;
  }

  lemma ReportedFrom(v: View, splits: set<set<TypeId>>, placed: seq<Pair>, unresolved: seq<Unresolved>,
                     own: set<TypeId>, report: Unresolved)
    requires RoundOf(v, splits, placed, unresolved) && GroupsApart(splits) && own in splits && report.declaration in own
    requires report in unresolved
    ensures !report.evidence.Placed? && v.Decides(splits, own, report.declaration, report.evidence)
  {
    var from :| from in splits && ReportedAs(v, splits, from, report);
    assert from == own;
  }

  lemma DecidedPlaced(v: View, splits: set<set<TypeId>>, placed: seq<Pair>, unresolved: seq<Unresolved>,
                      own: set<TypeId>, d: TypeId, classId: TypeId)
    requires RoundOf(v, splits, placed, unresolved) && GroupsApart(splits) && own in splits && d in v.Standing(own)
    requires v.Decides(splits, own, d, Placed(classId))
    ensures (d, classId) in placed
  {
    assert Mentions(placed, unresolved, d);
    if report :| report in unresolved && report.declaration == d {
      ReportedFrom(v, splits, placed, unresolved, own, report);
      DecidesOnce(v, splits, own, d, Placed(classId), report.evidence);
    } else {
      var pair :| pair in placed && pair.0 == d;
      PlacedFrom(v, splits, placed, unresolved, own, pair);
      DecidesOnce(v, splits, own, d, Placed(pair.1), Placed(classId));
      assert pair == (d, classId);
    }
  }

  /** A round over groups that share no id places a standing declaration in a class exactly when akin
  split groups, as its unit defines them, vote for that class and for no other. */
  lemma PlacedExactly(v: View, p: Partition, groups: seq<seq<TypeId>>, placed: seq<Pair>, unresolved: seq<Unresolved>,
                      own: set<TypeId>, d: TypeId, classId: TypeId)
    requires RoundOf(v, SplitSets(v, p, groups), placed, unresolved) && ResolvedApart(p, groups)
    requires own in SplitSets(v, p, groups) && d in v.Standing(own)
    ensures (d, classId) in placed <==>
            && UnitOf(v.evidence.origins, d).Some?
            && HeardOnly(v, SplitSets(v, p, groups), own, UnitOf(v.evidence.origins, d).value, classId)
  {
    var splits := SplitSets(v, p, groups);
    SplitSetsApart(v, p, groups);
    HeardDecides(v, splits, own, d, classId);
    if (d, classId) in placed {
      PlacedFrom(v, splits, placed, unresolved, own, (d, classId));
    } else if v.Decides(splits, own, d, Placed(classId)) {
      DecidedPlaced(v, splits, placed, unresolved, own, d, classId);
    }
  }

  /** `other` is the only akin split group on which the unit speaks. */
  ghost predicate SpeaksAlone(v: View, splits: set<set<TypeId>>, own: set<TypeId>, unit: nat, other: set<TypeId>) {
    && other in splits && Akin(v.evidence, own, other)
    && forall o, c | o in splits && o != other && Akin(v.evidence, own, o) :: !v.Speaks(o, unit, c)
  }

  /** One akin group is enough, when the unit is silent on every other, the declaration's own group
  among them, and what it says of that one is shared by the units of one class. */
  lemma OneSiblingPlaces(v: View, p: Partition, groups: seq<seq<TypeId>>, placed: seq<Pair>,
                         unresolved: seq<Unresolved>, own: set<TypeId>, d: TypeId, unit: nat, other: set<TypeId>,
                         defined: TypeId, classId: TypeId)
    requires RoundOf(v, SplitSets(v, p, groups), placed, unresolved) && ResolvedApart(p, groups)
    requires own in SplitSets(v, p, groups) && d in v.Standing(own) && UnitOf(v.evidence.origins, d) == Some(unit)
    requires SpeaksAlone(v, SplitSets(v, p, groups), own, unit, other) && v.Speaks(other, unit, defined)
    requires v.Supports(own, other, defined, classId) && forall c | v.Supports(own, other, defined, c) :: c == classId
    ensures (d, classId) in placed
  {
    var splits := SplitSets(v, p, groups);
    assert v.Votes(own, other, unit, classId);
    forall c | Heard(v, splits, own, unit, c)
      ensures c == classId
    {
      var o :| o in splits && Akin(v.evidence, own, o) && v.Votes(own, o, unit, c);
      var said :| v.Speaks(o, unit, said) && v.Supports(own, o, said, c);
      assert o == other && said == defined;
    }
    PlacedExactly(v, p, groups, placed, unresolved, own, d, classId);
  }
}
