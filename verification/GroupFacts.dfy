/** What one group's partition guarantees, whatever the comparison is like: its classes cover
the definitions once, its aliases lead from duplicates to canonicals and never in a circle. */
module GroupFacts {
  import opened RawTypes
  import opened Layout
  import opened Groups

  // ----- aliases as a map

  function AliasMap(aliases: seq<Pair>): map<TypeId, TypeId> {
    if aliases == [] then map[]
    else
      var last := aliases[|aliases| - 1];
      AliasMap(aliases[..|aliases| - 1])[last.0 := last.1]
  }

  lemma {:induction false} AliasMapConcat(a: seq<Pair>, b: seq<Pair>)
    ensures AliasMap(a + b) == AliasMap(a) + AliasMap(b)
    decreases |b|
  {
    if b == [] {
      assert a + b == a;
    } else {
      assert (a + b)[..|a + b| - 1] == a + b[..|b| - 1];
      AliasMapConcat(a, b[..|b| - 1]);
    }
  }

  lemma {:induction false} AliasMapHas(aliases: seq<Pair>, x: TypeId)
    ensures x in AliasMap(aliases) <==> exists i :: 0 <= i < |aliases| && aliases[i].0 == x
    ensures x in AliasMap(aliases) ==> (x, AliasMap(aliases)[x]) in aliases
  {
    if aliases != [] {
      var init, last := aliases[..|aliases| - 1], aliases[|aliases| - 1];
      AliasMapHas(init, x);
      if exists i :: 0 <= i < |aliases| && aliases[i].0 == x {
        var i :| 0 <= i < |aliases| && aliases[i].0 == x;
        assert i < |init| ==> init[i].0 == x;
      }
      if x in AliasMap(aliases) && last.0 != x {
        var i :| 0 <= i < |init| && init[i].0 == x;
        assert aliases[i].0 == x;
      }
    }
  }

  lemma {:induction false} AliasMapOfDuplicates(ids: seq<TypeId>, canonical: TypeId)
    ensures AliasMap(DuplicatesOf(ids, canonical)) == map x | x in ids && x != canonical :: canonical
  {
    if ids != [] {
      var init, last := ids[..|ids| - 1], ids[|ids| - 1];
      AliasMapOfDuplicates(init, canonical);
      AliasMapConcat(DuplicatesOf(init, canonical), if last != canonical then [(last, canonical)] else []);
      assert ids == init + [last];
    }
  }

  // ----- classes

  ghost predicate Apart(classes: seq<Class>) {
    forall j, k, x | 0 <= j < k < |classes| && x in classes[j] :: x !in classes[k]
  }

  ghost predicate Covers(definitions: seq<TypeId>, classes: seq<Class>) {
    && (forall j, x | 0 <= j < |classes| && x in classes[j] :: x in definitions)
    && (forall x | x in definitions :: exists j :: 0 <= j < |classes| && x in classes[j])
  }

  /** Every member but the head came later and was compatible with it. */
  ghost predicate HeadsLead(p: Partition, detail: map<TypeId, nat>, classes: seq<Class>) {
    forall j, x | 0 <= j < |classes| && x in classes[j] && x != classes[j][0] ::
      && x in detail && classes[j][0] in detail && Before(detail, classes[j][0], x)
      && p.CompatibleLayout(classes[j][0], x)
  }

  ghost predicate HeadsDiffer(p: Partition, classes: seq<Class>) {
    forall j, k | 0 <= j < k < |classes| :: !p.CompatibleLayout(classes[j][0], classes[k][0])
  }

  ghost predicate InOrder(detail: map<TypeId, nat>, definitions: seq<TypeId>) {
    forall i, j | 0 <= i < j < |definitions| ::
      && definitions[i] in detail && definitions[j] in detail
      && Before(detail, definitions[i], definitions[j])
  }

  lemma JoinedMembers(p: Partition, classes: seq<Class>, id: TypeId, j: nat, x: TypeId)
    requires j < |Joined(p, classes, id)|
    ensures var at := FindClass(p, classes, id, 0);
            x in Joined(p, classes, id)[j] <==> (x == id && j == at) || (j < |classes| && x in classes[j])
    ensures j < |classes| ==> Joined(p, classes, id)[j][0] == classes[j][0]
  {
  }

  lemma LastIsNew(detail: map<TypeId, nat>, definitions: seq<TypeId>, id: TypeId)
    requires InOrder(detail, definitions + [id])
    ensures id !in definitions
  {
    var all := definitions + [id];
    forall i | 0 <= i < |definitions|
      ensures definitions[i] != id
    {
      assert all[i] == definitions[i];
      assert Before(detail, all[i], all[|definitions|]);
    }
  }

  lemma JoinedFacts(p: Partition, detail: map<TypeId, nat>, definitions: seq<TypeId>, classes: seq<Class>, id: TypeId)
    requires Apart(classes) && Covers(definitions, classes)
    requires HeadsLead(p, detail, classes) && HeadsDiffer(p, classes)
    requires InOrder(detail, definitions + [id])
    ensures var r := Joined(p, classes, id);
            && Apart(r) && Covers(definitions + [id], r)
            && HeadsLead(p, detail, r) && HeadsDiffer(p, r)
  {
    var r := Joined(p, classes, id);
    var at := FindClass(p, classes, id, 0);
    var all := definitions + [id];
    LastIsNew(detail, definitions, id);
    forall j, k, x | 0 <= j < k < |r| && x in r[j]
      ensures x !in r[k]
    {
      JoinedMembers(p, classes, id, j, x);
      JoinedMembers(p, classes, id, k, x);
    }
    JoinedCovers(p, definitions, classes, id);
    forall j, x | 0 <= j < |r| && x in r[j] && x != r[j][0]
      ensures && x in detail && r[j][0] in detail && Before(detail, r[j][0], x)
              && p.CompatibleLayout(r[j][0], x)
    {
      JoinedMembers(p, classes, id, j, x);
      if x == id && j == at && at < |classes| {
        assert classes[at][0] in classes[at];
        assert classes[at][0] in definitions;
        var i :| 0 <= i < |definitions| && definitions[i] == classes[at][0];
        assert all[i] == classes[at][0] && all[|definitions|] == id;
        assert Before(detail, all[i], all[|definitions|]);
      }
    }
    forall j, k | 0 <= j < k < |r|
      ensures !p.CompatibleLayout(r[j][0], r[k][0])
    {
      JoinedMembers(p, classes, id, j, id);
      JoinedMembers(p, classes, id, k, id);
    }
  }

  lemma JoinedCovers(p: Partition, definitions: seq<TypeId>, classes: seq<Class>, id: TypeId)
    requires Covers(definitions, classes)
    ensures Covers(definitions + [id], Joined(p, classes, id))
  {
    var r := Joined(p, classes, id);
    var at := FindClass(p, classes, id, 0);
    forall j, x | 0 <= j < |r| && x in r[j]
      ensures x in definitions + [id]
    {
      JoinedMembers(p, classes, id, j, x);
    }
    forall x | x in definitions + [id]
      ensures exists j :: 0 <= j < |r| && x in r[j]
    {
      if x == id {
        JoinedMembers(p, classes, id, at, x);
        assert x in r[at];
      } else {
        var j :| 0 <= j < |classes| && x in classes[j];
        JoinedMembers(p, classes, id, j, x);
        assert x in r[j];
      }
    }
  }

  lemma {:induction false} ClassesFacts(p: Partition, detail: map<TypeId, nat>, definitions: seq<TypeId>)
    requires InOrder(detail, definitions)
    ensures var r := Classes(p, definitions);
            && Apart(r) && Covers(definitions, r)
            && HeadsLead(p, detail, r) && HeadsDiffer(p, r)
  {
    if definitions != [] {
      var init, last := definitions[..|definitions| - 1], definitions[|definitions| - 1];
      ClassesFacts(p, detail, init);
      assert init + [last] == definitions;
      JoinedFacts(p, detail, init, Classes(p, init), last);
    }
  }

  /** The classes depend on the comparison only through its verdicts on the definitions. */
  lemma {:induction false} ClassesAgree(p: Partition, q: Partition, detail: map<TypeId, nat>, definitions: seq<TypeId>)
    requires InOrder(detail, definitions)
    requires forall x, y | x in definitions && y in definitions :: p.CompatibleLayout(x, y) == q.CompatibleLayout(x, y)
    ensures Classes(p, definitions) == Classes(q, definitions)
  {
    if definitions != [] {
      var init, last := definitions[..|definitions| - 1], definitions[|definitions| - 1];
      ClassesAgree(p, q, detail, init);
      ClassesFacts(p, detail, init);
      var classes := Classes(p, init);
      forall j | 0 <= j < |classes|
        ensures p.CompatibleLayout(classes[j][0], last) == q.CompatibleLayout(classes[j][0], last)
      {
        assert classes[j][0] in classes[j];
        assert classes[j][0] in init && init <= definitions;
        assert classes[j][0] in definitions && last in definitions;
      }
      FindAgrees(p, q, classes, last, 0);
    }
  }

  lemma {:induction false} FindAgrees(p: Partition, q: Partition, classes: seq<Class>, id: TypeId, from: nat)
    requires from <= |classes|
    requires forall j | 0 <= j < |classes| ::
               p.CompatibleLayout(classes[j][0], id) == q.CompatibleLayout(classes[j][0], id)
    ensures FindClass(p, classes, id, from) == FindClass(q, classes, id, from)
    decreases |classes| - from
  {
    if from < |classes| && !p.CompatibleLayout(classes[from][0], id) {
      FindAgrees(p, q, classes, id, from + 1);
    }
  }

  // ----- what the aliases say of each id

  lemma {:induction false} ClassAliasesLookup(classes: seq<Class>, x: TypeId)
    requires Apart(classes)
    ensures forall j | 0 <= j < |classes| && x in classes[j] ::
              if x == classes[j][0] then x !in AliasMap(ClassAliases(classes))
              else x in AliasMap(ClassAliases(classes)) && AliasMap(ClassAliases(classes))[x] == classes[j][0]
    ensures (forall j | 0 <= j < |classes| :: x !in classes[j]) ==> x !in AliasMap(ClassAliases(classes))
  {
    if classes != [] {
      var init, last := classes[..|classes| - 1], classes[|classes| - 1];
      assert Apart(init) by {
        forall j, k, y | 0 <= j < k < |init| && y in init[j]
          ensures y !in init[k]
        {
          assert y in classes[j];
        }
      }
      ClassAliasesLookup(init, x);
      AliasMapConcat(ClassAliases(init), DuplicatesOf(last, last[0]));
      AliasMapOfDuplicates(last, last[0]);
      forall j | 0 <= j < |init|
        ensures init[j] == classes[j] && (x in init[j] ==> x !in last)
      {
      }
    }
  }

  ghost function ClassesOf(p: Partition, ids: seq<TypeId>): seq<Class> {
    Classes(p, OrderedDefinitions(p, ids))
  }

  ghost function DeclaredOf(p: Partition, ids: seq<TypeId>): seq<TypeId> {
    Ascending(Declarations(p, ids))
  }

  lemma ClassesOfFacts(p: Partition, ids: seq<TypeId>)
    ensures var r := ClassesOf(p, ids);
            && Apart(r) && Covers(OrderedDefinitions(p, ids), r)
            && HeadsLead(p, Details(p.table, Definitions(p, ids)), r) && HeadsDiffer(p, r)
    ensures forall x :: x in OrderedDefinitions(p, ids) <==> x in Definitions(p, ids)
  {
    ClassesFacts(p, Details(p.table, Definitions(p, ids)), OrderedDefinitions(p, ids));
  }

  /** Where a definition's alias leads: to the head of its class, which has none. */
  lemma DefinitionLookup(p: Partition, ids: seq<TypeId>, j: nat, x: TypeId)
    requires |ids| != 1
    requires j < |ClassesOf(p, ids)| && x in ClassesOf(p, ids)[j]
    ensures var m := AliasMap(Result(p, ids).aliases);
            var head := ClassesOf(p, ids)[j][0];
            if x == head then x !in m else x in m && m[x] == head
    ensures x in Definitions(p, ids)
  {
    ClassesOfFacts(p, ids);
    var classes, declared := ClassesOf(p, ids), DeclaredOf(p, ids);
    assert x in OrderedDefinitions(p, ids);
    ClassAliasesLookup(classes, x);
    var tail := Result(p, ids).aliases[|ClassAliases(classes)|..];
    assert Result(p, ids).aliases == ClassAliases(classes) + tail;
    AliasMapConcat(ClassAliases(classes), tail);
    DeclaredAliases(p, ids);
    assert x !in AliasMap(tail);
  }

  /** The aliases after the classes' own are the declarations'. */
  lemma DeclaredAliases(p: Partition, ids: seq<TypeId>)
    requires |ids| != 1
    ensures var classes, declared := ClassesOf(p, ids), DeclaredOf(p, ids);
            && |ClassAliases(classes)| <= |Result(p, ids).aliases|
            && Result(p, ids).aliases[..|ClassAliases(classes)|] == ClassAliases(classes)
            && AliasMap(Result(p, ids).aliases[|ClassAliases(classes)|..])
               == (if |classes| == 1 then map x | x in declared && x != classes[0][0] :: classes[0][0]
                   else if |classes| == 0 && declared != [] then
                     map x | x in declared && x != declared[0] :: declared[0]
                   else map[])
  {
    var classes, declared := ClassesOf(p, ids), DeclaredOf(p, ids);
    if |classes| == 1 {
      AliasMapOfDuplicates(declared, classes[0][0]);
    } else if |classes| == 0 && declared != [] {
      AliasMapOfDuplicates(declared, declared[0]);
    }
  }

  /** Where a declaration's alias leads: to the sole class, to the lowest declaration when
  there is no class, and nowhere between several. */
  lemma DeclarationLookup(p: Partition, ids: seq<TypeId>, x: TypeId)
    requires |ids| != 1
    requires x in Declarations(p, ids)
    ensures var m := AliasMap(Result(p, ids).aliases);
            var classes, declared := ClassesOf(p, ids), DeclaredOf(p, ids);
            if |classes| == 1 then x in m && m[x] == classes[0][0]
            else if |classes| == 0 then
              declared != [] && if x == declared[0] then x !in m else x in m && m[x] == declared[0]
            else x !in m
  {
    ClassesOfFacts(p, ids);
    var classes, declared := ClassesOf(p, ids), DeclaredOf(p, ids);
    assert x in declared;
    NotInClasses(p, ids, x);
    ClassAliasesLookup(classes, x);
    var tail := Result(p, ids).aliases[|ClassAliases(classes)|..];
    DeclaredAliases(p, ids);
    assert Result(p, ids).aliases == ClassAliases(classes) + tail;
    AliasMapConcat(ClassAliases(classes), tail);
    if |classes| == 1 {
      assert classes[0][0] in classes[0];
      assert classes[0][0] in OrderedDefinitions(p, ids);
    }
  }

  lemma NotInClasses(p: Partition, ids: seq<TypeId>, x: TypeId)
    requires x !in Definitions(p, ids)
    ensures forall j | 0 <= j < |ClassesOf(p, ids)| :: x !in ClassesOf(p, ids)[j]
  {
    ClassesOfFacts(p, ids);
  }

  lemma StrangerLookup(p: Partition, ids: seq<TypeId>, x: TypeId)
    requires x !in Resolved(p, ids)
    ensures x !in AliasMap(Result(p, ids).aliases)
  {
    if |ids| != 1 {
      ClassesOfFacts(p, ids);
      NotInClasses(p, ids, x);
      var classes, declared := ClassesOf(p, ids), DeclaredOf(p, ids);
      ClassAliasesLookup(classes, x);
      var tail := Result(p, ids).aliases[|ClassAliases(classes)|..];
      DeclaredAliases(p, ids);
      assert Result(p, ids).aliases == ClassAliases(classes) + tail;
      AliasMapConcat(ClassAliases(classes), tail);
      assert x !in declared;
    }
  }

  /** An alias leads from a declaration to a definition, or down in the order canonicals
  are chosen by. */
  predicate Lower(table: Table, y: TypeId, x: TypeId) {
    if x in table.declarations then y !in table.declarations || y < x
    else y !in table.declarations && (table.Detail(y) > table.Detail(x)
                                      || (table.Detail(y) == table.Detail(x) && y < x))
  }

  lemma AliasesDescend(p: Partition, ids: seq<TypeId>, x: TypeId)
    requires x in AliasMap(Result(p, ids).aliases)
    ensures var m := AliasMap(Result(p, ids).aliases);
            && x in Resolved(p, ids) && m[x] in Resolved(p, ids)
            && Lower(p.table, m[x], x) && m[x] !in m
  {
    if x !in Resolved(p, ids) {
      StrangerLookup(p, ids, x);
    }
    ClassesOfFacts(p, ids);
    var m := AliasMap(Result(p, ids).aliases);
    var classes, declared := ClassesOf(p, ids), DeclaredOf(p, ids);
    if x in Definitions(p, ids) {
      var j :| 0 <= j < |classes| && x in classes[j];
      DefinitionLookup(p, ids, j, x);
      assert classes[j][0] in classes[j];
      DefinitionLookup(p, ids, j, classes[j][0]);
    } else {
      DeclarationLookup(p, ids, x);
      if |classes| == 1 {
        assert classes[0][0] in classes[0];
        DefinitionLookup(p, ids, 0, classes[0][0]);
      } else {
        assert declared[0] in declared;
        DeclarationLookup(p, ids, declared[0]);
      }
    }
  }

  /** A group with one canonical has one: everything in it leads there. */
  lemma SoleCanonical(p: Partition, ids: seq<TypeId>) returns (c: TypeId)
    requires ids != [] && Result(p, ids).canonicals <= 1
    ensures c in Resolved(p, ids) && c !in AliasMap(Result(p, ids).aliases)
    ensures forall x | x in Resolved(p, ids) && x != c ::
              x in AliasMap(Result(p, ids).aliases) && AliasMap(Result(p, ids).aliases)[x] == c
  {
    c := p.Canonical(ids[0]);
    assert c in Resolved(p, ids);
    if |ids| != 1 {
      ClassesOfFacts(p, ids);
      var classes, declared := ClassesOf(p, ids), DeclaredOf(p, ids);
      if |classes| == 1 {
        assert classes[0][0] in classes[0];
        DefinitionLookup(p, ids, 0, classes[0][0]);
        c := classes[0][0];
      } else {
        DeclarationLookup(p, ids, c);
        c := declared[0];
        assert c in declared;
        DeclarationLookup(p, ids, c);
      }
      forall x | x in Resolved(p, ids) && x != c
        ensures x in AliasMap(Result(p, ids).aliases) && AliasMap(Result(p, ids).aliases)[x] == c
      {
        if x in Definitions(p, ids) {
          var j :| 0 <= j < |classes| && x in classes[j];
          DefinitionLookup(p, ids, j, x);
        } else {
          DeclarationLookup(p, ids, x);
        }
      }
    }
  }

  lemma {:induction false} PairOfDuplicates(ids: seq<TypeId>, canonical: TypeId, pair: Pair)
    requires pair in DuplicatesOf(ids, canonical)
    ensures pair.0 in ids && pair.1 == canonical && pair.0 != canonical
  {
    var init := ids[..|ids| - 1];
    if pair in DuplicatesOf(init, canonical) {
      PairOfDuplicates(init, canonical, pair);
    }
  }

  lemma {:induction false} PairOfClasses(classes: seq<Class>, pair: Pair) returns (j: nat)
    requires pair in ClassAliases(classes)
    ensures j < |classes| && pair.0 in classes[j] && pair.1 == classes[j][0] && pair.0 != pair.1
  {
    var init, last := classes[..|classes| - 1], classes[|classes| - 1];
    if pair in ClassAliases(init) {
      j := PairOfClasses(init, pair);
    } else {
      PairOfDuplicates(last, last[0], pair);
      j := |classes| - 1;
    }
  }

  /** Each alias pair is what the map says of its duplicate, between ids of the group. */
  lemma PairsDescend(p: Partition, ids: seq<TypeId>, pair: Pair)
    requires pair in Result(p, ids).aliases
    ensures pair.0 in Resolved(p, ids) && pair.1 in Resolved(p, ids)
    ensures Lower(p.table, pair.1, pair.0)
    ensures pair.0 in AliasMap(Result(p, ids).aliases) && AliasMap(Result(p, ids).aliases)[pair.0] == pair.1
  {
    ClassesOfFacts(p, ids);
    var classes, declared := ClassesOf(p, ids), DeclaredOf(p, ids);
    if pair in ClassAliases(classes) {
      var j := PairOfClasses(classes, pair);
      DefinitionLookup(p, ids, j, pair.0);
      AliasesDescend(p, ids, pair.0);
    } else if |classes| == 1 {
      PairOfDuplicates(declared, classes[0][0], pair);
      DeclarationLookup(p, ids, pair.0);
      AliasesDescend(p, ids, pair.0);
    } else {
      PairOfDuplicates(declared, declared[0], pair);
      DeclarationLookup(p, ids, pair.0);
      AliasesDescend(p, ids, pair.0);
    }
  }
}
