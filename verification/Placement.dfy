/** The unit rule: a declaration between several definition classes goes to the class the
other split types of its crates, as its own unit defines them, agree with. */
module Placement {
  import opened RawTypes
  import opened Collections
  import opened Substitution
  import opened Layout
  import opened Groups
  import opened Units
  import opened Sorting

  /** Where units lie, and the crates each type's path names. */
  datatype Evidence = Evidence(origins: Origins, crates: map<TypeId, set<string>>)
  {
    function Unit(id: TypeId): Option<nat> {
      UnitOf(origins, id)
    }

    function Crates(id: TypeId): set<string> {
      if id in crates then crates[id] else {}
    }
  }

  datatype Verdict = Placed(classId: TypeId) | NoUnit | NoEvidence | Disagreement

  // ----- what the units say, as sets

  /** A round's view of the types: the map it has reached. */
  datatype View = View(table: Table, evidence: Evidence, subs: Subs)
  {
    predicate Defines(x: TypeId) {
      x !in table.declarations
    }

    function Class(x: TypeId): TypeId {
      Canon(subs, x)
    }

    /** A group's definition classes, by their canonicals. */
    function ClassesIn(ids: set<TypeId>): set<TypeId> {
      set x | x in ids && Defines(x) :: Class(x)
    }

    /** The declarations no class has taken in. */
    function Standing(ids: set<TypeId>): set<TypeId> {
      set x | x in ids && !Defines(x) && Class(x) == x
    }

    predicate IsSplit(ids: set<TypeId>) {
      |ClassesIn(ids)| >= 2
    }

    predicate DefinedAt(x: TypeId, unit: nat) {
      Defines(x) && UnitOf(evidence.origins, x) == Some(unit)
    }

    ghost predicate UnitDefines(ids: set<TypeId>, unit: nat, classId: TypeId) {
      exists x :: x in ids && DefinedAt(x, unit) && Class(x) == classId
    }

    /** A unit speaks for a class by defining it and no other of its group. */
    ghost predicate Speaks(ids: set<TypeId>, unit: nat, classId: TypeId) {
      && UnitDefines(ids, unit, classId)
      && forall other | UnitDefines(ids, unit, other) :: other == classId
    }

    /** Some unit defines `classId` of `own` and speaks for `defined` of `other`. */
    ghost predicate Supports(own: set<TypeId>, other: set<TypeId>, defined: TypeId, classId: TypeId) {
      exists unit: nat :: UnitDefines(own, unit, classId) && Speaks(other, unit, defined)
    }

    /** The one class of `own` whose defining units share with `unit` what it says of `other`. */
    ghost predicate Votes(own: set<TypeId>, other: set<TypeId>, unit: nat, classId: TypeId) {
      exists defined ::
        && Speaks(other, unit, defined)
        && Supports(own, other, defined, classId)
        && forall c | Supports(own, other, defined, c) :: c == classId
    }

    function CratesOf(ids: set<TypeId>): set<string> {
      if ids == {} then {} else evidence.Crates(Ascending(ids)[0])
    }

    predicate Siblings(own: set<TypeId>, other: set<TypeId>) {
      own == other || CratesOf(own) * CratesOf(other) != {}
    }

    /** Some split type of the declaration's crates votes for the class. */
    ghost predicate Elects(splits: set<set<TypeId>>, own: set<TypeId>, unit: nat, classId: TypeId) {
      exists other :: other in splits && Siblings(own, other) && Votes(own, other, unit, classId)
    }

    /** Placed exactly when the unit elects one class. */
    ghost predicate Decides(splits: set<set<TypeId>>, own: set<TypeId>, d: TypeId, verdict: Verdict) {
      match UnitOf(evidence.origins, d)
      case None => verdict == NoUnit
      case Some(unit) =>
        match verdict
        case Placed(classId) =>
          Elects(splits, own, unit, classId) && forall c | Elects(splits, own, unit, c) :: c == classId
        case NoUnit => false
        case NoEvidence => forall c :: !Elects(splits, own, unit, c)
        case Disagreement =>
          exists b, c :: b != c && Elects(splits, own, unit, b) && Elects(splits, own, unit, c)
    }
  }

  // ----- the tables the rule is computed from

  datatype Split = Split(crates: set<string>, classes: seq<TypeId>, unitsByClass: map<TypeId, set<nat>>,
                         classesByUnit: map<nat, set<TypeId>>, declarations: seq<TypeId>)
  {
    function UnitsFor(classId: TypeId): set<nat> {
      if classId in unitsByClass then unitsByClass[classId] else {}
    }

    predicate SpeaksFor(unit: nat, classId: TypeId) {
      unit in classesByUnit && classesByUnit[unit] == {classId}
    }
  }

  ghost predicate Tabulates(v: View, ids: set<TypeId>, unitsByClass: map<TypeId, set<nat>>,
                            classesByUnit: map<nat, set<TypeId>>) {
    && (forall c: TypeId, u: nat :: (c in unitsByClass && u in unitsByClass[c]) <==> v.UnitDefines(ids, u, c))
    && (forall c: TypeId, u: nat :: (u in classesByUnit && c in classesByUnit[u]) <==> v.UnitDefines(ids, u, c))
    && (forall u | u in classesByUnit :: classesByUnit[u] != {})
  }

  ghost predicate Describes(v: View, ids: set<TypeId>, s: Split) {
    && s.crates == v.CratesOf(ids)
    && s.classes == Ascending(v.ClassesIn(ids))
    && s.declarations == Ascending(v.Standing(ids))
    && Tabulates(v, ids, s.unitsByClass, s.classesByUnit)
  }

  lemma UnitDefinesGrows(v: View, ids: set<TypeId>, x: TypeId, u: nat, c: TypeId)
    ensures v.UnitDefines(ids + {x}, u, c) <==> v.UnitDefines(ids, u, c) || (v.DefinedAt(x, u) && v.Class(x) == c)
  {
    if v.UnitDefines(ids, u, c) {
      var y :| y in ids && v.DefinedAt(y, u) && v.Class(y) == c;
      assert y in ids + {x};
    }
    if v.DefinedAt(x, u) && v.Class(x) == c {
      assert x in ids + {x};
    }
  }

  function Added<K, V(==)>(m: map<K, set<V>>, key: K, value: V): map<K, set<V>> {
    m[key := (if key in m then m[key] else {}) + {value}]
  }

  lemma TabulateSkips(v: View, ids: set<TypeId>, unitsByClass: map<TypeId, set<nat>>,
                      classesByUnit: map<nat, set<TypeId>>, x: TypeId)
    requires Tabulates(v, ids, unitsByClass, classesByUnit)
    requires !v.Defines(x) || v.evidence.Unit(x).None?
    ensures Tabulates(v, ids + {x}, unitsByClass, classesByUnit)
  {
    forall c, u: nat
      ensures v.UnitDefines(ids + {x}, u, c) <==> v.UnitDefines(ids, u, c)
    {
      UnitDefinesGrows(v, ids, x, u, c);
    }
  }

  lemma TabulateAdds(v: View, ids: set<TypeId>, unitsByClass: map<TypeId, set<nat>>,
                     classesByUnit: map<nat, set<TypeId>>, x: TypeId, unit: nat)
    requires Tabulates(v, ids, unitsByClass, classesByUnit)
    requires v.DefinedAt(x, unit)
    ensures Tabulates(v, ids + {x}, Added(unitsByClass, v.Class(x), unit), Added(classesByUnit, unit, v.Class(x)))
  {
    var units, classes := Added(unitsByClass, v.Class(x), unit), Added(classesByUnit, unit, v.Class(x));
    forall c, u: nat
      ensures (c in units && u in units[c]) <==> v.UnitDefines(ids + {x}, u, c)
      ensures (u in classes && c in classes[u]) <==> v.UnitDefines(ids + {x}, u, c)
    {
      UnitDefinesGrows(v, ids, x, u, c);
      assert (c in unitsByClass && u in unitsByClass[c]) <==> v.UnitDefines(ids, u, c);
      assert (u in classesByUnit && c in classesByUnit[u]) <==> v.UnitDefines(ids, u, c);
    }
  }

  method TabulateUnits(v: View, ids: seq<TypeId>)
    returns (unitsByClass: map<TypeId, set<nat>>, classesByUnit: map<nat, set<TypeId>>)
    ensures Tabulates(v, Elements(ids), unitsByClass, classesByUnit)
  {
    unitsByClass, classesByUnit := map[], map[];
    for i := 0 to |ids|
      invariant Tabulates(v, Elements(ids[..i]), unitsByClass, classesByUnit)
    {
      assert ids[..i + 1] == ids[..i] + [ids[i]];
      assert Elements(ids[..i + 1]) == Elements(ids[..i]) + {ids[i]};
      var unit := v.evidence.Unit(ids[i]);
      if v.Defines(ids[i]) && unit.Some? {
        TabulateAdds(v, Elements(ids[..i]), unitsByClass, classesByUnit, ids[i], unit.value);
        var classId := CanonicalizeIn(v.subs, ids[i]);
        unitsByClass := Added(unitsByClass, classId, unit.value);
        classesByUnit := Added(classesByUnit, unit.value, classId);
      } else {
        TabulateSkips(v, Elements(ids[..i]), unitsByClass, classesByUnit, ids[i]);
      }
    }
    assert ids[..|ids|] == ids;
  }

  method Classify(v: View, ids: seq<TypeId>) returns (classes: set<TypeId>, declarations: set<TypeId>)
    ensures classes == v.ClassesIn(Elements(ids))
    ensures declarations == v.Standing(Elements(ids))
  {
    classes, declarations := {}, {};
    for i := 0 to |ids|
      invariant classes == v.ClassesIn(Elements(ids[..i]))
      invariant declarations == v.Standing(Elements(ids[..i]))
    {
      assert ids[..i + 1] == ids[..i] + [ids[i]];
      var classId := CanonicalizeIn(v.subs, ids[i]);
      if v.Defines(ids[i]) {
        classes := classes + {classId};
      } else if classId == ids[i] {
        declarations := declarations + {ids[i]};
      }
    }
    assert ids[..|ids|] == ids;
  }

  /** A group's tables, when it has two or more definition classes. */
  method SplitOf(v: View, p: Partition, ids: seq<TypeId>) returns (r: Option<Split>)
    ensures r.Some? <==> v.IsSplit(Resolved(p, ids))
    ensures r.Some? ==> Describes(v, Resolved(p, ids), r.value)
  {
    var resolved := ResolveAll(p, ids);
    var ordered := Ascending(resolved);
    assert resolved == Elements(ordered);
    var classes, declarations := Classify(v, ordered);
    if |classes| < 2 {
      return None;
    }
    var unitsByClass, classesByUnit := TabulateUnits(v, ordered);
    return Some(Split(v.CratesOf(resolved), Ascending(classes), unitsByClass, classesByUnit, Ascending(declarations)));
  }

  // ----- what each unit says, and what a declaration's unit says of its group

  type Vote = (nat, TypeId)

  /** `sole[c]` is the set of units that speak for `c`. */
  ghost predicate TabulatesSole(s: Split, sole: map<TypeId, set<nat>>) {
    forall c: TypeId, u: nat :: (c in sole && u in sole[c]) <==> s.SpeaksFor(u, c)
  }

  method SoleUnits(s: Split) returns (sole: map<TypeId, set<nat>>)
    ensures TabulatesSole(s, sole)
  {
    sole := map[];
    var left := s.classesByUnit.Keys;
    while left != {}
      invariant left <= s.classesByUnit.Keys
      invariant forall c: TypeId, u: nat :: (c in sole && u in sole[c]) <==> s.SpeaksFor(u, c) && u !in left
      decreases |left|
    {
      var unit :| unit in left;
      left := left - {unit};
      if |s.classesByUnit[unit]| == 1 {
        var classId :| classId in s.classesByUnit[unit];
        OnlyElement(s.classesByUnit[unit], classId);
        sole := Added(sole, classId, unit);
      }
    }
  }

  lemma OnlyElement(s: set<TypeId>, x: TypeId)
    requires |s| == 1 && x in s
    ensures s == {x}
  {
    assert |s - {x}| == 0;
  }

  predicate HasVote(byUnit: map<nat, seq<Vote>>, u: nat, i: nat, c: TypeId) {
    u in byUnit && (i, c) in byUnit[u]
  }

  /** Every (group, class) a unit speaks for, in whatever order the table gives them. */
  ghost predicate ListsVotes(splits: seq<Split>, upto: nat, byUnit: map<nat, seq<Vote>>) {
    forall u: nat, i: nat, c: TypeId :: HasVote(byUnit, u, i, c) <==> i < upto <= |splits| && splits[i].SpeaksFor(u, c)
  }

  /** The same in the middle of one group's units, those in `left` still to come. */
  ghost predicate VotesSoFar(splits: seq<Split>, index: nat, left: set<nat>, byUnit: map<nat, seq<Vote>>)
    requires index < |splits|
  {
    forall u: nat, i: nat, c: TypeId :: HasVote(byUnit, u, i, c) <==>
      || (i < index && splits[i].SpeaksFor(u, c))
      || (i == index && splits[index].SpeaksFor(u, c) && u !in left)
  }

  function WithVote(byUnit: map<nat, seq<Vote>>, unit: nat, vote: Vote): map<nat, seq<Vote>> {
    byUnit[unit := (if unit in byUnit then byUnit[unit] else []) + [vote]]
  }

  lemma VoteAdded(splits: seq<Split>, index: nat, left: set<nat>, byUnit: map<nat, seq<Vote>>, unit: nat,
                  classId: TypeId)
    requires index < |splits| && VotesSoFar(splits, index, left, byUnit) && unit in left
    requires splits[index].SpeaksFor(unit, classId)
    ensures VotesSoFar(splits, index, left - {unit}, WithVote(byUnit, unit, (index, classId)))
  {
    var next := WithVote(byUnit, unit, (index, classId));
    forall u: nat, i: nat, c: TypeId
      ensures HasVote(next, u, i, c) <==> HasVote(byUnit, u, i, c) || (u == unit && i == index && c == classId)
    {
    }
  }

  lemma VoteWithheld(splits: seq<Split>, index: nat, left: set<nat>, byUnit: map<nat, seq<Vote>>, unit: nat)
    requires index < |splits| && VotesSoFar(splits, index, left, byUnit)
    requires forall c: TypeId :: !splits[index].SpeaksFor(unit, c)
    ensures VotesSoFar(splits, index, left - {unit}, byUnit)
  {
  }

  lemma VotesBegin(splits: seq<Split>, index: nat, byUnit: map<nat, seq<Vote>>)
    requires index < |splits| && ListsVotes(splits, index, byUnit)
    ensures VotesSoFar(splits, index, splits[index].classesByUnit.Keys, byUnit)
  {
  }

  lemma VotesEnd(splits: seq<Split>, index: nat, byUnit: map<nat, seq<Vote>>)
    requires index < |splits| && VotesSoFar(splits, index, {}, byUnit)
    ensures ListsVotes(splits, index + 1, byUnit)
  {
  }

  method VotesByUnit(splits: seq<Split>) returns (byUnit: map<nat, seq<Vote>>)
    ensures ListsVotes(splits, |splits|, byUnit)
  {
    byUnit := map[];
    for index := 0 to |splits|
      invariant ListsVotes(splits, index, byUnit)
    {
      var s := splits[index];
      var left := s.classesByUnit.Keys;
      VotesBegin(splits, index, byUnit);
      while left != {}
        invariant left <= s.classesByUnit.Keys
        invariant VotesSoFar(splits, index, left, byUnit)
        decreases |left|
      {
        var unit :| unit in left;
        if |s.classesByUnit[unit]| == 1 {
          var classId :| classId in s.classesByUnit[unit];
          OnlyElement(s.classesByUnit[unit], classId);
          VoteAdded(splits, index, left, byUnit, unit, classId);
          byUnit := WithVote(byUnit, unit, (index, classId));
        } else {
          VoteWithheld(splits, index, left, byUnit, unit);
        }
        left := left - {unit};
      }
      VotesEnd(splits, index, byUnit);
    }
  }

  function Supporters(own: Split, agreeing: set<nat>): set<TypeId> {
    set c | c in own.classes && own.UnitsFor(c) * agreeing != {}
  }

  predicate CastsFor(own: Split, siblings: set<nat>, sole: seq<map<TypeId, set<nat>>>, vote: Vote, classId: TypeId) {
    && vote.0 in siblings && vote.0 < |sole| && vote.1 in sole[vote.0]
    && Supporters(own, sole[vote.0][vote.1]) == {classId}
  }

  /** The classes the votes are for, cut short as soon as they disagree. */
  method Tally(own: Split, siblings: set<nat>, sole: seq<map<TypeId, set<nat>>>, votes: seq<Vote>)
    returns (r: set<TypeId>)
    ensures forall c | c in r :: exists vote :: vote in votes && CastsFor(own, siblings, sole, vote, c)
    ensures |r| <= 1 ==> forall vote, c | vote in votes && CastsFor(own, siblings, sole, vote, c) :: c in r
  {
    r := {};
    for i := 0 to |votes|
      invariant forall c | c in r :: exists vote :: vote in votes && CastsFor(own, siblings, sole, vote, c)
      invariant forall vote, c | vote in votes[..i] && CastsFor(own, siblings, sole, vote, c) :: c in r
    {
      var (index, defined) := votes[i];
      assert votes[..i + 1] == votes[..i] + [votes[i]];
      if index in siblings && index < |sole| && defined in sole[index] {
        var supporters := Supporters(own, sole[index][defined]);
        if |supporters| == 1 {
          var classId :| classId in supporters;
          OnlyElement(supporters, classId);
          assert CastsFor(own, siblings, sole, votes[i], classId);
          r := r + {classId};
          if |r| > 1 {
            return;
          }
        }
      }
    }
    assert votes[..|votes|] == votes;
  }

  // ----- the tables decide what the sets do

  lemma DefinesAgrees(v: View, ids: set<TypeId>, s: Split, unit: nat, c: TypeId)
    requires Describes(v, ids, s)
    ensures v.UnitDefines(ids, unit, c) <==> unit in s.classesByUnit && c in s.classesByUnit[unit]
  {
  }

  lemma SpeaksAgrees(v: View, ids: set<TypeId>, s: Split, unit: nat, c: TypeId)
    requires Describes(v, ids, s)
    ensures s.SpeaksFor(unit, c) <==> v.Speaks(ids, unit, c)
  {
    forall other: TypeId
      ensures v.UnitDefines(ids, unit, other) <==> unit in s.classesByUnit && other in s.classesByUnit[unit]
    {
      DefinesAgrees(v, ids, s, unit, other);
    }
  }

  lemma CommonUnit(v: View, own: set<TypeId>, a: Split, other: set<TypeId>, b: Split, sole: map<TypeId, set<nat>>,
                   defined: TypeId, c: TypeId, unit: nat)
    requires Describes(v, own, a) && Describes(v, other, b) && TabulatesSole(b, sole) && defined in sole
    ensures unit in a.UnitsFor(c) * sole[defined] <==> v.UnitDefines(own, unit, c) && v.Speaks(other, unit, defined)
  {
    SpeaksAgrees(v, other, b, unit, defined);
  }

  lemma SupportsAgrees(v: View, own: set<TypeId>, a: Split, other: set<TypeId>, b: Split,
                       sole: map<TypeId, set<nat>>, defined: TypeId, c: TypeId)
    requires Describes(v, own, a) && Describes(v, other, b) && TabulatesSole(b, sole) && defined in sole
    ensures c in Supporters(a, sole[defined]) <==> v.Supports(own, other, defined, c)
  {
    if c in Supporters(a, sole[defined]) {
      var unit :| unit in a.UnitsFor(c) * sole[defined];
      CommonUnit(v, own, a, other, b, sole, defined, c, unit);
    }
    if v.Supports(own, other, defined, c) {
      var unit: nat :| v.UnitDefines(own, unit, c) && v.Speaks(other, unit, defined);
      CommonUnit(v, own, a, other, b, sole, defined, c, unit);
      assert c in v.ClassesIn(own);
    }
  }

  lemma OneClassSpoken(v: View, ids: set<TypeId>, unit: nat, c: TypeId, d: TypeId)
    requires v.Speaks(ids, unit, c) && v.Speaks(ids, unit, d)
    ensures c == d
  {
  }

  lemma VoteFromSupport(v: View, own: set<TypeId>, other: set<TypeId>, unit: nat, defined: TypeId,
                        supporters: set<TypeId>, c: TypeId)
    requires v.Speaks(other, unit, defined)
    requires forall d: TypeId :: d in supporters <==> v.Supports(own, other, defined, d)
    ensures supporters == {c} <==> v.Votes(own, other, unit, c)
  {
    if supporters == {c} {
      assert c in supporters;
      forall d: TypeId | v.Supports(own, other, defined, d)
        ensures d == c
      {
        assert d in supporters;
      }
    }
    if v.Votes(own, other, unit, c) {
      var e :| v.Speaks(other, unit, e) && v.Supports(own, other, e, c) &&
               forall d | v.Supports(own, other, e, d) :: d == c;
      OneClassSpoken(v, other, unit, e, defined);
    }
  }

  lemma SupportersAgree(v: View, own: set<TypeId>, a: Split, other: set<TypeId>, b: Split,
                        sole: map<TypeId, set<nat>>, defined: TypeId)
    requires Describes(v, own, a) && Describes(v, other, b) && TabulatesSole(b, sole) && defined in sole
    ensures forall d: TypeId :: d in Supporters(a, sole[defined]) <==> v.Supports(own, other, defined, d)
  {
    forall d: TypeId
      ensures d in Supporters(a, sole[defined]) <==> v.Supports(own, other, defined, d)
    {
      SupportsAgrees(v, own, a, other, b, sole, defined, d);
    }
  }

  lemma CastAgrees(v: View, own: set<TypeId>, a: Split, other: set<TypeId>, b: Split,
                   sole: map<TypeId, set<nat>>, unit: nat, defined: TypeId, c: TypeId)
    requires Describes(v, own, a) && Describes(v, other, b) && TabulatesSole(b, sole)
    requires b.SpeaksFor(unit, defined)
    ensures defined in sole
    ensures Supporters(a, sole[defined]) == {c} <==> v.Votes(own, other, unit, c)
  {
    assert defined in sole && unit in sole[defined];
    var supporters := Supporters(a, sole[defined]);
    assert v.Speaks(other, unit, defined) by {
      SpeaksAgrees(v, other, b, unit, defined);
    }
    assert forall d: TypeId :: d in supporters <==> v.Supports(own, other, defined, d) by {
      SupportersAgree(v, own, a, other, b, sole, defined);
    }
    VoteFromSupport(v, own, other, unit, defined, supporters, c);
  }

  ghost predicate DescribesAll(v: View, sets: seq<set<TypeId>>, splits: seq<Split>) {
    && |sets| == |splits|
    && forall i | 0 <= i < |splits| :: Describes(v, sets[i], splits[i])
  }

  ghost predicate SoleOf(splits: seq<Split>, sole: seq<map<TypeId, set<nat>>>) {
    && |sole| == |splits|
    && forall i | 0 <= i < |splits| :: TabulatesSole(splits[i], sole[i])
  }

  ghost predicate IsSiblings(v: View, splits: seq<Split>, own: nat, siblings: set<nat>)
    requires own < |splits|
  {
    forall i: nat :: i in siblings <==> i < |splits| && (i == own || splits[own].crates * splits[i].crates != {})
  }

  ghost predicate Carried(own: Split, siblings: set<nat>, sole: seq<map<TypeId, set<nat>>>, votes: seq<Vote>,
                          c: TypeId) {
    exists vote :: vote in votes && CastsFor(own, siblings, sole, vote, c)
  }

  lemma SiblingsAgree(v: View, sets: seq<set<TypeId>>, splits: seq<Split>, own: nat, siblings: set<nat>, i: nat)
    requires DescribesAll(v, sets, splits) && own < |splits| && i < |splits|
    requires IsSiblings(v, splits, own, siblings)
    ensures i in siblings ==> v.Siblings(sets[own], sets[i])
    ensures v.Siblings(sets[own], sets[i]) && (sets[i] == sets[own] ==> i == own) ==> i in siblings
  {
    assert Describes(v, sets[own], splits[own]) && Describes(v, sets[i], splits[i]);
  }

  lemma VoteCast(v: View, sets: seq<set<TypeId>>, splits: seq<Split>, sole: seq<map<TypeId, set<nat>>>,
                 own: nat, siblings: set<nat>, i: nat, unit: nat, defined: TypeId, c: TypeId)
    requires DescribesAll(v, sets, splits) && SoleOf(splits, sole)
    requires own < |splits| && i < |splits| && splits[i].SpeaksFor(unit, defined)
    ensures CastsFor(splits[own], siblings, sole, (i, defined), c)
            <==> i in siblings && v.Votes(sets[own], sets[i], unit, c)
  {
    CastAgrees(v, sets[own], splits[own], sets[i], splits[i], sole[i], unit, defined, c);
  }

  /** A class the tables vote for is elected by the sets. */
  lemma CarriedIsElected(v: View, sets: seq<set<TypeId>>, splits: seq<Split>, sole: seq<map<TypeId, set<nat>>>,
                         own: nat, siblings: set<nat>, votes: seq<Vote>, unit: nat, c: TypeId)
    requires DescribesAll(v, sets, splits) && SoleOf(splits, sole)
    requires forall i: nat, d: TypeId | (i, d) in votes :: i < |splits| && splits[i].SpeaksFor(unit, d)
    requires own < |splits| && IsSiblings(v, splits, own, siblings)
    requires Carried(splits[own], siblings, sole, votes, c)
    ensures v.Elects(Elements(sets), sets[own], unit, c)
  {
    var vote :| vote in votes && CastsFor(splits[own], siblings, sole, vote, c);
    var (i, defined) := vote;
    assert (i, defined) in votes;
    VoteCast(v, sets, splits, sole, own, siblings, i, unit, defined, c);
    SiblingsAgree(v, sets, splits, own, siblings, i);
    assert sets[i] in Elements(sets);
  }

  lemma IndexOf(sets: seq<set<TypeId>>, own: nat, other: set<TypeId>) returns (i: nat)
    requires own < |sets| && other in Elements(sets)
    ensures i < |sets| && sets[i] == other && (other == sets[own] ==> i == own)
  {
    i :| i < |sets| && sets[i] == other;
    if other == sets[own] {
      i := own;
    }
  }

  lemma WhoSpeaks(v: View, own: set<TypeId>, other: set<TypeId>, unit: nat, c: TypeId) returns (defined: TypeId)
    requires v.Votes(own, other, unit, c)
    ensures v.Speaks(other, unit, defined)
  {
    defined :| v.Speaks(other, unit, defined) && v.Supports(own, other, defined, c)
               && forall d | v.Supports(own, other, defined, d) :: d == c;
  }

  /** And every class the sets elect gets a vote in the tables. */
  lemma ElectedIsCarried(v: View, sets: seq<set<TypeId>>, splits: seq<Split>, sole: seq<map<TypeId, set<nat>>>,
                         own: nat, siblings: set<nat>, votes: seq<Vote>, unit: nat, c: TypeId)
    requires DescribesAll(v, sets, splits) && SoleOf(splits, sole)
    requires forall i: nat, d: TypeId | i < |splits| && splits[i].SpeaksFor(unit, d) :: (i, d) in votes
    requires own < |splits| && IsSiblings(v, splits, own, siblings)
    requires v.Elects(Elements(sets), sets[own], unit, c)
    ensures Carried(splits[own], siblings, sole, votes, c)
  {
    var other :| other in Elements(sets) && v.Siblings(sets[own], other) && v.Votes(sets[own], other, unit, c);
    var i := IndexOf(sets, own, other);
    var defined := WhoSpeaks(v, sets[own], sets[i], unit, c);
    assert splits[i].SpeaksFor(unit, defined) by {
      SpeaksAgrees(v, sets[i], splits[i], unit, defined);
    }
    VoteCast(v, sets, splits, sole, own, siblings, i, unit, defined, c);
    SiblingsAgree(v, sets, splits, own, siblings, i);
    assert CastsFor(splits[own], siblings, sole, (i, defined), c);
  }

  // ----- one round of the rule

  datatype Unresolved = Unresolved(declaration: TypeId, unit: Option<nat>, classes: seq<TypeId>, evidence: Verdict)

  method SplitGroups(v: View, p: Partition, groups: seq<seq<TypeId>>)
    returns (splits: seq<Split>, ghost sets: seq<set<TypeId>>)
    ensures DescribesAll(v, sets, splits)
    ensures Elements(sets) == SplitSets(v, p, groups)
    ensures ResolvedApart(p, groups) ==> PairwiseApart(sets)
  {
    splits, sets := [], [];
    for g := 0 to |groups|
      invariant Splitting(v, p, groups, g, splits, sets)
    {
      var split := SplitOf(v, p, groups[g]);
      SplitsStep(v, p, groups, g, splits, sets, split);
      if split.Some? {
        splits, sets := splits + [split.value], sets + [Resolved(p, groups[g])];
      }
    }
    assert groups[..|groups|] == groups;
  }

  ghost predicate Splitting(v: View, p: Partition, groups: seq<seq<TypeId>>, g: nat, splits: seq<Split>,
                            sets: seq<set<TypeId>>)
    requires g <= |groups|
  {
    && DescribesAll(v, sets, splits)
    && Elements(sets) == SplitSets(v, p, groups[..g])
    && (ResolvedApart(p, groups) ==> PairwiseApart(sets))
  }

  lemma SplitsStep(v: View, p: Partition, groups: seq<seq<TypeId>>, g: nat, splits: seq<Split>, sets: seq<set<TypeId>>,
                   split: Option<Split>)
    requires g < |groups| && Splitting(v, p, groups, g, splits, sets)
    requires split.Some? <==> v.IsSplit(Resolved(p, groups[g]))
    requires split.Some? ==> Describes(v, Resolved(p, groups[g]), split.value)
    ensures split.None? ==> Splitting(v, p, groups, g + 1, splits, sets)
    ensures split.Some? ==> Splitting(v, p, groups, g + 1, splits + [split.value], sets + [Resolved(p, groups[g])])
  {
    assert groups[..g + 1] == groups[..g] + [groups[g]];
    SplitSetsGrow(v, p, groups[..g], groups[g]);
    if split.Some? {
      StaysApart(v, p, groups, g, sets);
      DescribesOneMore(v, sets, splits, Resolved(p, groups[g]), split.value);
    }
  }

  /** No id is in two groups once the base is followed. */
  ghost predicate ResolvedApart(p: Partition, groups: seq<seq<TypeId>>) {
    forall g, h | 0 <= g < h < |groups| :: Resolved(p, groups[g]) !! Resolved(p, groups[h])
  }

  ghost predicate PairwiseApart(sets: seq<set<TypeId>>) {
    forall i, j | 0 <= i < j < |sets| :: sets[i] !! sets[j]
  }

  lemma StaysApart(v: View, p: Partition, groups: seq<seq<TypeId>>, g: nat, sets: seq<set<TypeId>>)
    requires g < |groups| && Elements(sets) == SplitSets(v, p, groups[..g])
    requires ResolvedApart(p, groups) ==> PairwiseApart(sets)
    ensures ResolvedApart(p, groups) ==> PairwiseApart(sets + [Resolved(p, groups[g])])
  {
    if ResolvedApart(p, groups) {
      forall i | 0 <= i < |sets|
        ensures sets[i] !! Resolved(p, groups[g])
      {
        assert sets[i] in Elements(sets);
        var h :| 0 <= h < g && v.IsSplit(Resolved(p, groups[..g][h])) && sets[i] == Resolved(p, groups[..g][h]);
        assert groups[..g][h] == groups[h];
      }
    }
  }

  lemma DescribesOneMore(v: View, sets: seq<set<TypeId>>, splits: seq<Split>, ids: set<TypeId>, split: Split)
    requires DescribesAll(v, sets, splits) && Describes(v, ids, split)
    ensures DescribesAll(v, sets + [ids], splits + [split])
    ensures Elements(sets + [ids]) == Elements(sets) + {ids}
  {
  }

  /** The id sets of the groups with two or more definition classes. */
  ghost function SplitSets(v: View, p: Partition, groups: seq<seq<TypeId>>): set<set<TypeId>> {
    set g | 0 <= g < |groups| && v.IsSplit(Resolved(p, groups[g])) :: Resolved(p, groups[g])
  }

  lemma SplitSetsGrow(v: View, p: Partition, groups: seq<seq<TypeId>>, ids: seq<TypeId>)
    ensures SplitSets(v, p, groups + [ids])
            == SplitSets(v, p, groups) + (if v.IsSplit(Resolved(p, ids)) then {Resolved(p, ids)} else {})
  {
    var all := groups + [ids];
    forall x | x in SplitSets(v, p, groups)
      ensures x in SplitSets(v, p, all)
    {
      var g :| 0 <= g < |groups| && v.IsSplit(Resolved(p, groups[g])) && x == Resolved(p, groups[g]);
      assert all[g] == groups[g];
    }
    assert all[|groups|] == ids;
    forall x | x in SplitSets(v, p, all)
      ensures x in SplitSets(v, p, groups) || (v.IsSplit(Resolved(p, ids)) && x == Resolved(p, ids))
    {
      var g :| 0 <= g < |all| && v.IsSplit(Resolved(p, all[g])) && x == Resolved(p, all[g]);
      if g < |groups| {
        assert all[g] == groups[g];
      }
    }
  }

  method SoleUnitsOf(splits: seq<Split>) returns (sole: seq<map<TypeId, set<nat>>>)
    ensures SoleOf(splits, sole)
  {
    sole := [];
    for i := 0 to |splits|
      invariant |sole| == i
      invariant forall j | 0 <= j < i :: TabulatesSole(splits[j], sole[j])
    {
      var units := SoleUnits(splits[i]);
      sole := sole + [units];
    }
  }

  ghost predicate FilesByCrate(splits: seq<Split>, upto: nat, byCrate: map<string, set<nat>>) {
    forall name, i: nat :: (name in byCrate && i in byCrate[name]) <==> i < upto <= |splits| && name in splits[i].crates
  }

  method IndexByCrate(splits: seq<Split>) returns (byCrate: map<string, set<nat>>)
    ensures FilesByCrate(splits, |splits|, byCrate)
  {
    byCrate := map[];
    for index := 0 to |splits|
      invariant FilesByCrate(splits, index, byCrate)
    {
      var left := splits[index].crates;
      while left != {}
        invariant left <= splits[index].crates
        invariant forall name, i: nat :: (name in byCrate && i in byCrate[name]) <==>
                    || (i < index && name in splits[i].crates)
                    || (i == index && name in splits[index].crates && name !in left)
        decreases |left|
      {
        var name :| name in left;
        left := left - {name};
        byCrate := Added(byCrate, name, index);
      }
    }
  }

  function SiblingsOf(splits: seq<Split>, byCrate: map<string, set<nat>>, own: nat): set<nat>
    requires own < |splits|
  {
    {own} + set name, i | name in splits[own].crates && name in byCrate && i in byCrate[name] :: i
  }

  lemma SiblingsShareCrates(v: View, splits: seq<Split>, byCrate: map<string, set<nat>>, own: nat)
    requires FilesByCrate(splits, |splits|, byCrate) && own < |splits|
    ensures IsSiblings(v, splits, own, SiblingsOf(splits, byCrate, own))
  {
    var siblings := SiblingsOf(splits, byCrate, own);
    forall i: nat
      ensures i in siblings <==> i < |splits| && (i == own || splits[own].crates * splits[i].crates != {})
    {
      if i < |splits| && splits[own].crates * splits[i].crates != {} {
        var name :| name in splits[own].crates * splits[i].crates;
        assert name in byCrate && i in byCrate[name];
      }
      if i in siblings && i != own {
        var name :| name in splits[own].crates && name in byCrate && i in byCrate[name];
        assert name in splits[own].crates * splits[i].crates;
      }
    }
  }

  lemma TwoVotes(r: set<TypeId>) returns (b: TypeId, c: TypeId)
    requires |r| > 1
    ensures b in r && c in r && b != c
  {
    b :| b in r;
    assert |r - {b}| > 0;
    c :| c in r - {b};
  }

  lemma TallyDecides(v: View, splits: set<set<TypeId>>, own: set<TypeId>, d: TypeId, unit: nat, r: set<TypeId>,
                     verdict: Verdict)
    requires v.evidence.Unit(d) == Some(unit)
    requires forall c | c in r :: v.Elects(splits, own, unit, c)
    requires |r| <= 1 ==> forall c: TypeId | v.Elects(splits, own, unit, c) :: c in r
    requires if |r| == 0 then verdict == NoEvidence
             else if |r| == 1 then verdict.Placed? && verdict.classId in r
             else verdict == Disagreement
    ensures v.Decides(splits, own, d, verdict)
  {
    if |r| == 0 {
      forall c: TypeId
        ensures !v.Elects(splits, own, unit, c)
      {
        assert c !in r;
      }
    } else if |r| == 1 {
      OnlyElement(r, verdict.classId);
    } else {
      var b, c := TwoVotes(r);
      assert v.Elects(splits, own, unit, b) && v.Elects(splits, own, unit, c);
    }
  }

  method Decide(v: View, ghost sets: seq<set<TypeId>>, splits: seq<Split>, sole: seq<map<TypeId, set<nat>>>,
                byUnit: map<nat, seq<Vote>>, own: nat, siblings: set<nat>, d: TypeId) returns (verdict: Verdict)
    requires DescribesAll(v, sets, splits) && SoleOf(splits, sole) && ListsVotes(splits, |splits|, byUnit)
    requires own < |splits| && IsSiblings(v, splits, own, siblings)
    ensures v.Decides(Elements(sets), sets[own], d, verdict)
  {
    var unit := v.evidence.Unit(d);
    if unit.None? {
      return NoUnit;
    }
    var votes := if unit.value in byUnit then byUnit[unit.value] else [];
    var r := Tally(splits[own], siblings, sole, votes);
    forall c | c in r
      ensures v.Elects(Elements(sets), sets[own], unit.value, c)
    {
      CarriedIsElected(v, sets, splits, sole, own, siblings, votes, unit.value, c);
    }
    if |r| <= 1 {
      forall c: TypeId | v.Elects(Elements(sets), sets[own], unit.value, c)
        ensures c in r
      {
        ElectedIsCarried(v, sets, splits, sole, own, siblings, votes, unit.value, c);
      }
    }
    if |r| == 0 {
      verdict := NoEvidence;
    } else if |r| == 1 {
      var classId :| classId in r;
      OnlyElement(r, classId);
      verdict := Placed(classId);
    } else {
      verdict := Disagreement;
    }
    TallyDecides(v, Elements(sets), sets[own], d, unit.value, r, verdict);
  }

  /** The evidence has one verdict. */
  lemma DecidesOnce(v: View, splits: set<set<TypeId>>, own: set<TypeId>, d: TypeId, a: Verdict, b: Verdict)
    requires v.Decides(splits, own, d, a) && v.Decides(splits, own, d, b)
    ensures a == b
  {
  }

  ghost predicate PlacedAs(v: View, splits: set<set<TypeId>>, own: set<TypeId>, d: TypeId, classId: TypeId) {
    d in v.Standing(own) && v.Decides(splits, own, d, Placed(classId))
  }

  ghost predicate ReportedAs(v: View, splits: set<set<TypeId>>, own: set<TypeId>, report: Unresolved) {
    && report.declaration in v.Standing(own)
    && !report.evidence.Placed?
    && v.Decides(splits, own, report.declaration, report.evidence)
    && report.unit == v.evidence.Unit(report.declaration)
    && report.classes == Ascending(v.ClassesIn(own))
  }

  ghost predicate Mentions(placed: seq<Pair>, unresolved: seq<Unresolved>, d: TypeId) {
    (exists pair :: pair in placed && pair.0 == d) || (exists report :: report in unresolved && report.declaration == d)
  }

  /** Whatever is said of these declarations is right, and each is said once. */
  ghost predicate Settles(v: View, splits: set<set<TypeId>>, own: set<TypeId>, declarations: seq<TypeId>,
                          placed: seq<Pair>, unresolved: seq<Unresolved>) {
    && (forall pair | pair in placed :: pair.0 in declarations && PlacedAs(v, splits, own, pair.0, pair.1))
    && (forall report | report in unresolved ::
          report.declaration in declarations && ReportedAs(v, splits, own, report))
    && (forall d | d in declarations :: Mentions(placed, unresolved, d))
    && (forall i, j | 0 <= i < j < |placed| :: placed[i].0 < placed[j].0)
    && (forall i, j | 0 <= i < j < |unresolved| :: unresolved[i].declaration < unresolved[j].declaration)
  }

  lemma SettlesPlaced(v: View, splits: set<set<TypeId>>, own: set<TypeId>, declarations: seq<TypeId>, d: TypeId,
                      placed: seq<Pair>, unresolved: seq<Unresolved>, classId: TypeId)
    requires Settles(v, splits, own, declarations, placed, unresolved)
    requires PlacedAs(v, splits, own, d, classId) && forall e | e in declarations :: e < d
    ensures Settles(v, splits, own, declarations + [d], placed + [(d, classId)], unresolved)
  {
    var more := placed + [(d, classId)];
    forall e | e in declarations + [d]
      ensures Mentions(more, unresolved, e)
    {
      if e == d {
        assert (d, classId) in more;
      } else if exists pair :: pair in placed && pair.0 == e {
        var pair :| pair in placed && pair.0 == e;
        assert pair in more;
      }
    }
    forall i, j | 0 <= i < j < |more|
      ensures more[i].0 < more[j].0
    {
      assert more[i] in placed;
    }
  }

  lemma SettlesReported(v: View, splits: set<set<TypeId>>, own: set<TypeId>, declarations: seq<TypeId>,
                        placed: seq<Pair>, unresolved: seq<Unresolved>, report: Unresolved)
    requires Settles(v, splits, own, declarations, placed, unresolved)
    requires ReportedAs(v, splits, own, report) && forall e | e in declarations :: e < report.declaration
    ensures Settles(v, splits, own, declarations + [report.declaration], placed, unresolved + [report])
  {
    var more := unresolved + [report];
    forall e | e in declarations + [report.declaration]
      ensures Mentions(placed, more, e)
    {
      if e == report.declaration {
        assert report in more;
      } else if exists r :: r in unresolved && r.declaration == e {
        var r :| r in unresolved && r.declaration == e;
        assert r in more;
      }
    }
    forall i, j | 0 <= i < j < |more|
      ensures more[i].declaration < more[j].declaration
    {
      assert more[i] in unresolved;
    }
  }

  lemma PrefixGrows(ids: seq<TypeId>, i: nat)
    requires i < |ids|
    ensures ids[..i + 1] == ids[..i] + [ids[i]] && ids[i] in ids
  {
  }

  /** File one verdict. */
  method Record(v: View, ghost splits: set<set<TypeId>>, ghost own: set<TypeId>, ghost before: seq<TypeId>, d: TypeId,
                classes: seq<TypeId>, verdict: Verdict, placed: seq<Pair>, unresolved: seq<Unresolved>)
    returns (placed': seq<Pair>, unresolved': seq<Unresolved>)
    requires Settles(v, splits, own, before, placed, unresolved)
    requires d in v.Standing(own) && forall e | e in before :: e < d
    requires classes == Ascending(v.ClassesIn(own)) && v.Decides(splits, own, d, verdict)
    ensures Settles(v, splits, own, before + [d], placed', unresolved')
  {
    if verdict.Placed? {
      SettlesPlaced(v, splits, own, before, d, placed, unresolved, verdict.classId);
      placed', unresolved' := placed + [(d, verdict.classId)], unresolved;
    } else {
      var report := Unresolved(d, v.evidence.Unit(d), classes, verdict);
      SettlesReported(v, splits, own, before, placed, unresolved, report);
      placed', unresolved' := placed, unresolved + [report];
    }
  }

  method PlaceIn(v: View, ghost sets: seq<set<TypeId>>, splits: seq<Split>, sole: seq<map<TypeId, set<nat>>>,
                 byUnit: map<nat, seq<Vote>>, own: nat, siblings: set<nat>)
    returns (placed: seq<Pair>, unresolved: seq<Unresolved>)
    requires DescribesAll(v, sets, splits) && SoleOf(splits, sole) && ListsVotes(splits, |splits|, byUnit)
    requires own < |splits| && IsSiblings(v, splits, own, siblings)
    ensures Settles(v, Elements(sets), sets[own], Ascending(v.Standing(sets[own])), placed, unresolved)
  {
    placed, unresolved := [], [];
    var declarations := splits[own].declarations;
    ghost var ids, all := sets[own], Elements(sets);
    assert declarations == Ascending(v.Standing(ids)) && splits[own].classes == Ascending(v.ClassesIn(ids));
    for i := 0 to |declarations|
      invariant Settles(v, all, ids, declarations[..i], placed, unresolved)
    {
      var d := declarations[i];
      PrefixGrows(declarations, i);
      var verdict := Decide(v, sets, splits, sole, byUnit, own, siblings, d);
      placed, unresolved := Record(v, all, ids, declarations[..i], d, splits[own].classes, verdict, placed, unresolved);
    }
    assert declarations[..|declarations|] == declarations;
  }

  // ----- the whole round

  ghost predicate PlacedBy(v: View, splits: set<set<TypeId>>, sets: seq<set<TypeId>>, pair: Pair) {
    exists i :: 0 <= i < |sets| && PlacedAs(v, splits, sets[i], pair.0, pair.1)
  }

  ghost predicate ReportedBy(v: View, splits: set<set<TypeId>>, sets: seq<set<TypeId>>, report: Unresolved) {
    exists i :: 0 <= i < |sets| && ReportedAs(v, splits, sets[i], report)
  }

  function PairKey(pair: Pair): Key {
    (pair.0, pair.1)
  }

  function ReportKey(report: Unresolved): Key {
    (report.declaration, 0)
  }

  /** Each declaration appears in the list at most once. */
  ghost predicate OncePlaced(placed: seq<Pair>) {
    forall i, j | 0 <= i < j < |placed| :: placed[i].0 != placed[j].0
  }

  ghost predicate OnceReported(unresolved: seq<Unresolved>) {
    forall i, j | 0 <= i < j < |unresolved| :: unresolved[i].declaration != unresolved[j].declaration
  }

  ghost predicate SettlesAll(v: View, splits: set<set<TypeId>>, sets: seq<set<TypeId>>,
                             placed: seq<Pair>, unresolved: seq<Unresolved>) {
    && (forall pair | pair in placed :: PlacedBy(v, splits, sets, pair))
    && (forall report | report in unresolved :: ReportedBy(v, splits, sets, report))
    && (forall i, d | 0 <= i < |sets| && d in v.Standing(sets[i]) :: Mentions(placed, unresolved, d))
    && (PairwiseApart(sets) ==> OncePlaced(placed) && OnceReported(unresolved))
  }

  lemma MentionsMore(placed: seq<Pair>, unresolved: seq<Unresolved>, p: seq<Pair>, u: seq<Unresolved>, d: TypeId)
    requires Mentions(placed, unresolved, d) || Mentions(p, u, d)
    ensures Mentions(placed + p, unresolved + u, d)
  {
    if x :| x in placed && x.0 == d {
      assert x in placed + p;
    } else if x :| x in p && x.0 == d {
      assert x in placed + p;
    } else if x :| x in unresolved && x.declaration == d {
      assert x in unresolved + u;
    } else if x :| x in u && x.declaration == d {
      assert x in unresolved + u;
    }
  }

  lemma SettlesOnce(v: View, splits: set<set<TypeId>>, sets: seq<set<TypeId>>, ids: set<TypeId>,
                    placed: seq<Pair>, unresolved: seq<Unresolved>, p: seq<Pair>, u: seq<Unresolved>)
    requires SettlesAll(v, splits, sets, placed, unresolved)
    requires Settles(v, splits, ids, Ascending(v.Standing(ids)), p, u)
    requires PairwiseApart(sets + [ids])
    ensures OncePlaced(placed + p) && OnceReported(unresolved + u)
  {
    var all := sets + [ids];
    assert PairwiseApart(sets) by {
      forall i, j | 0 <= i < j < |sets|
        ensures sets[i] !! sets[j]
      {
        assert all[i] == sets[i] && all[j] == sets[j];
      }
    }
    forall d, i | 0 <= i < |sets| && d in sets[i]
      ensures d !in ids
    {
      assert all[i] == sets[i] && all[|sets|] == ids;
    }
    forall i, j | 0 <= i < |placed| && 0 <= j < |p|
      ensures placed[i].0 != p[j].0
    {
      assert placed[i] in placed && p[j] in p;
      var k :| 0 <= k < |sets| && PlacedAs(v, splits, sets[k], placed[i].0, placed[i].1);
      assert placed[i].0 in sets[k] && p[j].0 in ids;
    }
    forall i, j | 0 <= i < |unresolved| && 0 <= j < |u|
      ensures unresolved[i].declaration != u[j].declaration
    {
      assert unresolved[i] in unresolved && u[j] in u;
      var k :| 0 <= k < |sets| && ReportedAs(v, splits, sets[k], unresolved[i]);
      assert unresolved[i].declaration in sets[k] && u[j].declaration in ids;
    }
  }

  lemma SettlesMore(v: View, splits: set<set<TypeId>>, sets: seq<set<TypeId>>, ids: set<TypeId>,
                    placed: seq<Pair>, unresolved: seq<Unresolved>, p: seq<Pair>, u: seq<Unresolved>)
    requires SettlesAll(v, splits, sets, placed, unresolved)
    requires Settles(v, splits, ids, Ascending(v.Standing(ids)), p, u)
    ensures SettlesAll(v, splits, sets + [ids], placed + p, unresolved + u)
  {
    var all := sets + [ids];
    forall pair | pair in placed + p
      ensures PlacedBy(v, splits, all, pair)
    {
      if pair in p {
        assert PlacedAs(v, splits, all[|sets|], pair.0, pair.1);
      } else {
        var k :| 0 <= k < |sets| && PlacedAs(v, splits, sets[k], pair.0, pair.1);
        assert all[k] == sets[k];
      }
    }
    forall report | report in unresolved + u
      ensures ReportedBy(v, splits, all, report)
    {
      if report in u {
        assert ReportedAs(v, splits, all[|sets|], report);
      } else {
        var k :| 0 <= k < |sets| && ReportedAs(v, splits, sets[k], report);
        assert all[k] == sets[k];
      }
    }
    forall i, d | 0 <= i < |all| && d in v.Standing(all[i])
      ensures Mentions(placed + p, unresolved + u, d)
    {
      if i < |sets| {
        assert all[i] == sets[i];
      } else {
        assert d in Ascending(v.Standing(ids));
      }
      MentionsMore(placed, unresolved, p, u, d);
    }
    if PairwiseApart(all) {
      SettlesOnce(v, splits, sets, ids, placed, unresolved, p, u);
    }
  }

  /** What a round decides is right, and no standing declaration is passed over. */
  ghost predicate RoundOf(v: View, splits: set<set<TypeId>>, placed: seq<Pair>, unresolved: seq<Unresolved>) {
    && (forall pair | pair in placed :: exists own :: own in splits && PlacedAs(v, splits, own, pair.0, pair.1))
    && (forall report | report in unresolved :: exists own :: own in splits && ReportedAs(v, splits, own, report))
    && (forall own, d | own in splits && d in v.Standing(own) :: Mentions(placed, unresolved, d))
  }

  /** Both lists ascend and repeat no declaration, within or between them. */
  ghost predicate EachOnce(placed: seq<Pair>, unresolved: seq<Unresolved>) {
    && (forall i, j | 0 <= i < j < |placed| :: placed[i].0 < placed[j].0)
    && (forall i, j | 0 <= i < j < |unresolved| :: unresolved[i].declaration < unresolved[j].declaration)
    && (forall pair, report | pair in placed && report in unresolved :: pair.0 != report.declaration)
  }

  lemma MembersApart(sets: seq<set<TypeId>>, a: set<TypeId>, b: set<TypeId>, d: TypeId)
    requires PairwiseApart(sets) && a in Elements(sets) && b in Elements(sets) && d in a && d in b
    ensures a == b
  {
    var i :| 0 <= i < |sets| && sets[i] == a;
    var j :| 0 <= j < |sets| && sets[j] == b;
    assert i != j ==> sets[i] !! sets[j];
  }

  lemma SortedPlaced(placed: seq<Pair>)
    ensures OncePlaced(placed) ==>
              forall i, j | 0 <= i < j < |placed| :: SortBy(placed, PairKey)[i].0 < SortBy(placed, PairKey)[j].0
  {
    if OncePlaced(placed) {
      assert Distinct(placed, PairKey);
      var r := SortBy(placed, PairKey);
      forall i, j | 0 <= i < j < |r|
        ensures r[i].0 < r[j].0
      {
        assert !Less(PairKey(r[j]), PairKey(r[i])) && PairKey(r[i]) != PairKey(r[j]);
        assert r[i] in r && r[j] in r;
        var a :| 0 <= a < |placed| && placed[a] == r[i];
        var b :| 0 <= b < |placed| && placed[b] == r[j];
        assert a != b;
      }
    }
  }

  lemma SortedReported(unresolved: seq<Unresolved>)
    ensures OnceReported(unresolved) ==>
              forall i, j | 0 <= i < j < |unresolved| ::
                SortBy(unresolved, ReportKey)[i].declaration < SortBy(unresolved, ReportKey)[j].declaration
  {
    if OnceReported(unresolved) {
      assert Distinct(unresolved, ReportKey);
      var r := SortBy(unresolved, ReportKey);
      forall i, j | 0 <= i < j < |r|
        ensures r[i].declaration < r[j].declaration
      {
        assert !Less(ReportKey(r[j]), ReportKey(r[i])) && ReportKey(r[i]) != ReportKey(r[j]);
      }
    }
  }

  lemma RoundSettled(v: View, sets: seq<set<TypeId>>, placed: seq<Pair>, unresolved: seq<Unresolved>,
                     placed': seq<Pair>, unresolved': seq<Unresolved>)
    requires SettlesAll(v, Elements(sets), sets, placed, unresolved)
    requires (forall x :: x in placed' <==> x in placed) && (forall x :: x in unresolved' <==> x in unresolved)
    ensures RoundOf(v, Elements(sets), placed', unresolved')
  {
    var splits := Elements(sets);
    forall pair | pair in placed'
      ensures exists own :: own in splits && PlacedAs(v, splits, own, pair.0, pair.1)
    {
      var i :| 0 <= i < |sets| && PlacedAs(v, splits, sets[i], pair.0, pair.1);
      assert sets[i] in splits;
    }
    forall report | report in unresolved'
      ensures exists own :: own in splits && ReportedAs(v, splits, own, report)
    {
      var i :| 0 <= i < |sets| && ReportedAs(v, splits, sets[i], report);
      assert sets[i] in splits;
    }
    forall own, d | own in splits && d in v.Standing(own)
      ensures Mentions(placed', unresolved', d)
    {
      var i :| 0 <= i < |sets| && sets[i] == own;
      assert Mentions(placed, unresolved, d);
    }
  }

  lemma NeverBoth(v: View, sets: seq<set<TypeId>>, placed: seq<Pair>, unresolved: seq<Unresolved>)
    requires RoundOf(v, Elements(sets), placed, unresolved) && PairwiseApart(sets)
    ensures forall pair, report | pair in placed && report in unresolved :: pair.0 != report.declaration
  {
    var splits := Elements(sets);
    forall pair, report | pair in placed && report in unresolved
      ensures pair.0 != report.declaration
    {
      var a :| a in splits && PlacedAs(v, splits, a, pair.0, pair.1);
      var b :| b in splits && ReportedAs(v, splits, b, report);
      if pair.0 == report.declaration {
        MembersApart(sets, a, b, pair.0);
        DecidesOnce(v, splits, a, pair.0, Placed(pair.1), report.evidence);
        assert false;
      }
    }
  }

  /** What the unit rule decides over all split groups: two lists, each sorted by declaration. */
  method PlaceDeclarations(v: View, base: Subs, groups: seq<seq<TypeId>>)
    returns (placed: seq<Pair>, unresolved: seq<Unresolved>)
    ensures RoundOf(v, SplitSets(v, Partition(v.table, base, None), groups), placed, unresolved)
    ensures ResolvedApart(Partition(v.table, base, None), groups) ==> EachOnce(placed, unresolved)
  {
    var p := Partition(v.table, base, None);
    var splits, sets := SplitGroups(v, p, groups);
    placed, unresolved := PlaceAll(v, sets, splits);
    ghost var placed0, unresolved0 := placed, unresolved;
    placed := SortBy(placed, PairKey);
    unresolved := SortBy(unresolved, ReportKey);
    RoundSettled(v, sets, placed0, unresolved0, placed, unresolved);
    if ResolvedApart(p, groups) {
      SortedPlaced(placed0);
      SortedReported(unresolved0);
      NeverBoth(v, sets, placed, unresolved);
    }
  }

  method PlaceAll(v: View, ghost sets: seq<set<TypeId>>, splits: seq<Split>)
    returns (placed: seq<Pair>, unresolved: seq<Unresolved>)
    requires DescribesAll(v, sets, splits)
    ensures SettlesAll(v, Elements(sets), sets, placed, unresolved)
  {
    var byCrate := IndexByCrate(splits);
    var byUnit := VotesByUnit(splits);
    var sole := SoleUnitsOf(splits);
    placed, unresolved := [], [];
    ghost var all := Elements(sets);
    for own := 0 to |splits|
      invariant SettlesAll(v, all, sets[..own], placed, unresolved)
    {
      var siblings := SiblingsOf(splits, byCrate, own);
      SiblingsShareCrates(v, splits, byCrate, own);
      var p, u := PlaceIn(v, sets, splits, sole, byUnit, own, siblings);
      SettlesMore(v, all, sets[..own], sets[own], placed, unresolved, p, u);
      SetPrefixGrows(sets, own);
      placed, unresolved := placed + p, unresolved + u;
    }
    assert sets[..|splits|] == sets;
  }

  lemma SetPrefixGrows(sets: seq<set<TypeId>>, i: nat)
    requires i < |sets|
    ensures sets[..i + 1] == sets[..i] + [sets[i]]
  {
  }
}
