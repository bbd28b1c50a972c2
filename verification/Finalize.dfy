/** The reader once every unit is in: links folded, names partitioned, structures closed, and
the definitions of each type indexed. */
module Finalize {
  import opened RawTypes
  import opened Substitution
  import opened Layout
  import opened Sorting
  import opened Units
  import Groups
  import opened Passes
  import opened Grouping
  import opened Coarsest
  import opened Worklist
  import opened Fixpoints
  import opened Placement
  import opened RoundFacts
  import opened Reference
  import opened Histories
  import opened Settle
  import opened Structural
  import opened Specifications

  // ----- the named groups

  ghost predicate Files(table: Table, seen: set<TypeId>, groups: map<GroupKey, seq<TypeId>>) {
    && (forall k, x | k in groups && x in groups[k] :: x in seen && table.Key(x) == Some(k))
    && (forall x | x in seen && table.Key(x).Some? :: table.Key(x).value in groups && x in groups[table.Key(x).value])
    && (forall k | k in groups :: groups[k] != [])
  }

  lemma FilesOneMore(table: Table, seen: set<TypeId>, groups: map<GroupKey, seq<TypeId>>, x: TypeId)
    requires Files(table, seen, groups)
    ensures table.Key(x).None? ==> Files(table, seen + {x}, groups)
    ensures table.Key(x).Some? ==> Files(table, seen + {x}, Pushed(groups, table.Key(x).value, x))
  {
    if table.Key(x).Some? {
      var r := Pushed(groups, table.Key(x).value, x);
      forall k, y | k in r && y in r[k]
        ensures y in seen + {x} && table.Key(y) == Some(k)
      {
        if y != x || k != table.Key(x).value {
          assert k in groups && y in groups[k];
        }
      }
    }
  }

  method FileByName(table: Table) returns (named: map<GroupKey, seq<TypeId>>)
    ensures Files(table, table.types.Keys, named)
  {
    named := map[];
    var todo := table.types.Keys;
    ghost var seen: set<TypeId> := {};
    while todo != {}
      invariant seen + todo == table.types.Keys && seen !! todo
      invariant Files(table, seen, named)
      decreases todo
    {
      var x :| x in todo;
      FilesOneMore(table, seen, named, x);
      var key := table.Key(x);
      if key.Some? {
        named := Pushed(named, key.value, x);
      }
      todo, seen := todo - {x}, seen + {x};
    }
  }

  ghost predicate ListsGroups(named: map<GroupKey, seq<TypeId>>, keys: seq<GroupKey>, groups: seq<seq<TypeId>>) {
    && |keys| == |groups|
    && (forall i | 0 <= i < |keys| :: keys[i] in named && groups[i] == named[keys[i]])
    && (forall i, j | 0 <= i < j < |keys| :: keys[i] != keys[j])
  }

  method ListGroups(named: map<GroupKey, seq<TypeId>>) returns (groups: seq<seq<TypeId>>, ghost keys: seq<GroupKey>)
    ensures ListsGroups(named, keys, groups) && forall k | k in named :: k in keys
  {
    groups, keys := [], [];
    var todo := named.Keys;
    while todo != {}
      invariant todo <= named.Keys && ListsGroups(named, keys, groups)
      invariant forall k | k in named :: k in keys <==> k !in todo
      decreases todo
    {
      var k :| k in todo;
      groups, keys, todo := groups + [named[k]], keys + [k], todo - {k};
    }
  }

  lemma ListedIsGrouped(table: Table, named: map<GroupKey, seq<TypeId>>, keys: seq<GroupKey>, groups: seq<seq<TypeId>>)
    requires Files(table, table.types.Keys, named) && ListsGroups(named, keys, groups)
    requires forall k | k in named :: k in keys
    ensures Grouped(table, groups)
  {
    forall g | 0 <= g < |groups|
      ensures groups[g] != [] && table.Key(groups[g][0]) == Some(keys[g])
    {
      assert groups[g][0] in named[keys[g]];
    }
    forall x | table.IsNamed(x)
      ensures exists g :: 0 <= g < |groups| && x in groups[g]
    {
      var g :| 0 <= g < |keys| && keys[g] == table.Key(x).value;
      assert x in groups[g];
    }
  }

  /** Named types by kind, namespace and name, each key once, in whatever order. */
  method GroupByName(table: Table) returns (groups: seq<seq<TypeId>>)
    ensures Grouped(table, groups)
  {
    var named := FileByName(table);
    ghost var keys;
    groups, keys := ListGroups(named);
    ListedIsGrouped(table, named, keys, groups);
  }

  // ----- which definitions a type has

  /** A type's definitions: every definition DIE with its canonical. */
  ghost predicate IsDefinition(table: Table, subs: Subs, canonical: TypeId, x: TypeId) {
    x in table.types && x !in table.declarations && Canon(subs, x) == canonical
  }

  /** The folded definitions, under their canonicals, in order. */
  ghost predicate Indexes(table: Table, subs: Subs, aliases: seq<Pair>) {
    && (forall i, j | 0 <= i < j < |aliases| :: Less(aliases[i], aliases[j]))
    && (forall pair: Pair :: pair in aliases <==> pair.1 in subs && IsDefinition(table, subs, pair.0, pair.1))
  }

  /** The same, in any order and with those in `todo` left out. */
  ghost predicate Lists(table: Table, subs: Subs, todo: set<TypeId>, aliases: seq<Pair>) {
    && (forall pair: Pair :: pair in aliases <==>
          pair.1 in subs && pair.1 !in todo && IsDefinition(table, subs, pair.0, pair.1))
    && (forall i, j | 0 <= i < j < |aliases| :: aliases[i].1 != aliases[j].1)
  }

  lemma ListsOneMore(table: Table, subs: Subs, todo: set<TypeId>, aliases: seq<Pair>, x: TypeId)
    requires Lists(table, subs, todo, aliases) && x in todo && x in subs
    ensures Lists(table, subs, todo - {x},
                  if x in table.types && x !in table.declarations then aliases + [(Canon(subs, x), x)] else aliases)
  {
    assert forall i | 0 <= i < |aliases| :: aliases[i] in aliases;
  }

  lemma SortedIndexes(table: Table, subs: Subs, aliases: seq<Pair>)
    requires Lists(table, subs, {}, aliases)
    ensures Indexes(table, subs, SortBy(aliases, Itself))
  {
    assert Distinct(aliases, Itself);
  }

  method IndexDefinitions(table: Table, subs: Subs) returns (aliases: seq<Pair>)
    ensures Indexes(table, subs, aliases)
  {
    aliases := [];
    var todo := subs.Keys;
    while todo != {}
      invariant todo <= subs.Keys && Lists(table, subs, todo, aliases)
      decreases todo
    {
      var x :| x in todo;
      ListsOneMore(table, subs, todo, aliases, x);
      if x in table.types && x !in table.declarations {
        var canonical := CanonicalizeIn(subs, x);
        aliases := aliases + [(canonical, x)];
      }
      todo := todo - {x};
    }
    SortedIndexes(table, subs, aliases);
    aliases := SortBy(aliases, Itself);
  }

  method Dies(aliases: seq<Pair>) returns (r: seq<TypeId>)
    ensures |r| == |aliases| && forall i | 0 <= i < |r| :: r[i] == aliases[i].1
  {
    r := [];
    for i := 0 to |aliases|
      invariant |r| == i && forall j | 0 <= j < i :: r[j] == aliases[j].1
    {
      r := r + [aliases[i].1];
    }
  }

  /** All and only the definitions with that canonical, in ascending order. */
  ghost predicate Enumerates(table: Table, subs: Subs, canonical: TypeId, dies: seq<TypeId>) {
    && (forall i, j | 0 <= i < j < |dies| :: dies[i] < dies[j])
    && (forall x :: x in dies <==> IsDefinition(table, subs, canonical, x))
  }

  predicate Rising(ids: seq<TypeId>) {
    forall i, j | 0 <= i < j < |ids| :: ids[i] < ids[j]
  }

  /** The index entries of one canonical: its folded definitions, ascending. */
  lemma OwnEntries(table: Table, subs: Subs, canonical: TypeId, aliases: seq<Pair>, start: nat, end: nat,
                   ids: seq<TypeId>)
    requires Indexes(table, subs, aliases) && start <= end <= |aliases|
    requires forall i | 0 <= i < |aliases| ::
               (aliases[i].0 < canonical <==> i < start) && (aliases[i].0 <= canonical <==> i < end)
    requires |ids| == end - start && forall i | 0 <= i < |ids| :: ids[i] == aliases[start + i].1
    ensures Rising(ids)
    ensures forall x :: x in ids <==> x in subs && IsDefinition(table, subs, canonical, x)
  {
    forall i, j | 0 <= i < j < |ids|
      ensures ids[i] < ids[j]
    {
      assert Less(aliases[start + i], aliases[start + j]);
    }
    forall x
      ensures x in ids <==> x in subs && IsDefinition(table, subs, canonical, x)
    {
      if x in ids {
        var i :| 0 <= i < |ids| && ids[i] == x;
        assert aliases[start + i] in aliases;
      }
      if x in subs && IsDefinition(table, subs, canonical, x) {
        assert (canonical, x) in aliases;
        var i :| 0 <= i < |aliases| && aliases[i] == (canonical, x);
        assert ids[i - start] == x;
      }
    }
  }

  /** The canonical takes its place among them. */
  lemma SplicedEnumerates(table: Table, subs: Subs, canonical: TypeId, ids: seq<TypeId>, split: nat, own: seq<TypeId>)
    requires Rising(ids) && canonical !in subs && split <= |ids|
    requires forall x :: x in ids <==> x in subs && IsDefinition(table, subs, canonical, x)
    requires forall i | 0 <= i < |ids| :: ids[i] < canonical <==> i < split
    requires own == if canonical in table.types && canonical !in table.declarations then [canonical] else []
    ensures Enumerates(table, subs, canonical, ids[..split] + own + ids[split..])
  {
    var dies := ids[..split] + own + ids[split..];
    forall x
      ensures x in dies <==> x in ids || x in own
    {
      assert ids == ids[..split] + ids[split..];
    }
    assert canonical !in ids;
    SplicedRises(ids, split, canonical, own);
  }

  lemma SplicedRises(ids: seq<TypeId>, split: nat, canonical: TypeId, own: seq<TypeId>)
    requires Rising(ids) && split <= |ids| && canonical !in ids && (own == [] || own == [canonical])
    requires forall i | 0 <= i < |ids| :: ids[i] < canonical <==> i < split
    ensures Rising(ids[..split] + own + ids[split..])
  {
    assert forall i | 0 <= i < |ids| :: ids[i] in ids;
    assert own == [] ==> ids[..split] + own + ids[split..] == ids;
  }

  method TypeDefinitions(table: Table, subs: Subs, aliases: seq<Pair>, id: TypeId) returns (dies: seq<TypeId>)
    requires Indexes(table, subs, aliases)
    ensures Enumerates(table, subs, Canon(subs, id), dies)
  {
    var canonical := CanonicalizeIn(subs, id);
    var start := PartitionPoint(aliases, (pair: Pair) => pair.0 < canonical);
    var end := PartitionPoint(aliases, (pair: Pair) => pair.0 <= canonical);
    Ordered(aliases, canonical, start, end);
    var ids := Dies(aliases[start..end]);
    OwnEntries(table, subs, canonical, aliases, start, end, ids);
    var split := PartitionPoint(aliases[start..end], (pair: Pair) => pair.1 < canonical);
    var self := if canonical in table.types && canonical !in table.declarations then [canonical] else [];
    SplicedEnumerates(table, subs, canonical, ids, split, self);
    dies := ids[..split] + self + ids[split..];
  }

  lemma Ordered(aliases: seq<Pair>, canonical: TypeId, start: nat, end: nat)
    requires start <= |aliases| && end <= |aliases|
    requires forall i, j | 0 <= i < j < |aliases| :: Less(aliases[i], aliases[j])
    requires forall i | 0 <= i < |aliases| ::
               (aliases[i].0 < canonical <==> i < start) && (aliases[i].0 <= canonical <==> i < end)
    ensures start <= end
    ensures var own := aliases[start..end];
            forall i, j | 0 <= i < j < |own| && own[j].1 < canonical :: own[i].1 < canonical
  {
    if end < |aliases| {
      assert aliases[end].0 <= canonical <==> end < end;
    }
    var own := aliases[start..end];
    forall i, j | 0 <= i < j < |own| && own[j].1 < canonical
      ensures own[i].1 < canonical
    {
      assert own[i] == aliases[start + i] && own[j] == aliases[start + j];
      assert Less(aliases[start + i], aliases[start + j]);
    }
  }

  // ----- from the settled names to the structures over them

  /** Links join types of one group, where either has a name. */
  ghost predicate LinksClosed(table: Table, specs: map<TypeId, TypeId>) {
    forall d | d in specs && (table.IsNamed(d) || table.IsNamed(specs[d])) :: table.Key(d) == table.Key(specs[d])
  }

  lemma LinksGiveBase(table: Table, specs: map<TypeId, TypeId>, base: map<TypeId, TypeId>)
    requires LinksClosed(table, specs) && IsBase(specs, table.declarations, specs.Keys, base)
    ensures GroupClosed(table, base)
  {
    forall x | x in base
      ensures table.IsNamed(x) ==> table.Key(base[x]) == table.Key(x)
    {
      assert FoldedAt(specs, table.declarations, specs.Keys, base, x);
      var d: TypeId :| LastWord(specs, table.declarations, specs.Keys, base, x, d);
    }
  }

  lemma SettledNames(table: Table, groups: seq<seq<TypeId>>, base: Subs, grown: Subs, named: Subs)
    requires Grouped(table, groups) && GroupClosed(table, grown)
    requires exists results :: InMap(groups, grown, named, results)
    requires NewNamed(table, base, grown)
    ensures NamesStay(table, grown, named)
    ensures PlainStructures(table, base) ==> PlainStructures(table, named)
  {
    var results :| InMap(groups, grown, named, results);
    forall x | x in grown
      ensures x in named && named[x] == grown[x]
    {
      MapOfEntries(grown, results, x);
    }
    forall x | x in named && !table.IsNamed(x)
      ensures x in grown
    {
      MapOfStranger(table, groups, grown, results, x);
    }
    forall x | x in named && table.IsNamed(x)
      ensures table.IsNamed(named[x])
    {
      var g := OwnerOf(table, groups, x);
      MapOfKeepsGroup(table, groups, grown, results, g);
      MembersNamed(table, groups, g, named[x]);
    }
  }

  /** Wherever the settled map leads, each linked declared pointer or array without a name is filed
  with a lower one. */
  ghost predicate SettlesAbove(table: Table, evidence: Evidence, base: Subs) {
    forall groups, history |
      Grouped(table, groups) && Completes(table, evidence, groups, base, MAX_IDENTITY_PASSES - 1, history) ::
      LinkedAbove(table, Final(history).base, Final(history).subs)
  }

  lemma KeyAgrees(table: Table, small: Subs, big: Subs, x: TypeId, y: TypeId)
    requires table.IsAnonymous(x) && table.IsAnonymous(y) && KeyIn(table, small, x) == KeyIn(table, small, y)
    requires forall z | z in small :: z in big && big[z] == small[z]
    ensures KeyIn(table, big, x) == KeyIn(table, big, y)
  {
    KeyMeans(table, small, x, y);
    KeyMeans(table, big, x, y);
    CanonThrough(small, big, TargetOf(table, x));
    CanonThrough(small, big, TargetOf(table, y));
  }

  lemma StaysAbove(table: Table, base: Subs, grown: Subs, named: Subs)
    requires LinkedAbove(table, base, base) && Grows(table, base, grown) && NewNamed(table, base, grown)
    requires NamesStay(table, grown, named)
    ensures LinkedAbove(table, grown, named)
  {
    forall d | table.IsAnonymous(d) && d in table.declarations && d in grown
      ensures d != Low(table, named, d)
    {
      var low := Low(table, base, d);
      KeyAgrees(table, base, named, low, d);
      assert low in Bucket(table, named, d);
    }
  }

  /** It is so if the folded links alone file it with a lower one. */
  lemma AboveSettles(table: Table, evidence: Evidence, base: Subs)
    requires BaseDescends(table, base) && GroupClosed(table, base) && LinkedAbove(table, base, base)
    ensures SettlesAbove(table, evidence, base)
  {
    forall groups, history |
      Grouped(table, groups) && Completes(table, evidence, groups, base, MAX_IDENTITY_PASSES - 1, history)
      ensures LinkedAbove(table, Final(history).base, Final(history).subs)
    {
      var t := Final(history);
      CompletesSound(table, evidence, groups, base, MAX_IDENTITY_PASSES - 1, history);
      CompletesInGroups(table, evidence, groups, base, MAX_IDENTITY_PASSES - 1, history);
      SettledNames(table, groups, base, t.base, t.subs);
      StaysAbove(table, base, t.base, t.subs);
    }
  }

  /** The same of whatever the specification links fold to. */
  ghost predicate LinksAbove(table: Table, evidence: Evidence, specs: map<TypeId, TypeId>) {
    forall base: Subs | IsBase(specs, table.declarations, specs.Keys, base) :: SettlesAbove(table, evidence, base)
  }

  /** In particular it is so if no link folds away a declared pointer or array without a name. */
  lemma UndeclaredAbove(table: Table, evidence: Evidence, specs: map<TypeId, TypeId>)
    requires LinksClosed(table, specs) && forall x: TypeId :: !SelfLinked(specs, table.declarations, x)
    requires forall d | d in specs ::
               var folded := DuplicateOf(table.declarations, d, specs[d]);
               !(table.IsAnonymous(folded) && folded in table.declarations)
    ensures LinksAbove(table, evidence, specs)
  {
    forall base: Subs | IsBase(specs, table.declarations, specs.Keys, base)
      ensures SettlesAbove(table, evidence, base)
    {
      FoldedDescends(table, specs, base);
      LinksGiveBase(table, specs, base);
      forall x | x in base
        ensures !(table.IsAnonymous(x) && x in table.declarations)
      {
        assert FoldedAt(specs, table.declarations, specs.Keys, base, x);
        var d: TypeId :| LastWord(specs, table.declarations, specs.Keys, base, x, d);
      }
      AboveSettles(table, evidence, base);
    }
  }

  // ----- conventions

  datatype Origin = Origin(end: nat, producer: Option<string>)

  function Ends(units: map<nat, Origin>): Origins {
    map u | u in units :: units[u].end
  }

  /** Over units that do not overlap, a DIE is of the one whose range, from its root to its end, holds it. */
  lemma UnitExactly(units: map<nat, Origin>, die: nat, unit: nat)
    requires forall a, b | a in units && b in units && a < b :: units[a].end <= b
    ensures UnitOf(Ends(units), die) == Some(unit) <==> unit in units && unit <= die < units[unit].end
  {
    UnitOfIsOwner(Ends(units), die, unit);
  }

  datatype Decline =
    | MissingUnit(die: TypeId)
    | MissingProducer(unit: nat)
    | Unsupported(unit: nat)
    | Conflict(first: nat, other: nat)
    | MissingDefinitions

  datatype Result<+T> = Ok(value: T) | Err(error: Decline)

  /** What a rule's selector answers of a unit, after so many questions. */
  type Selector<K> = (nat, nat) -> Option<K>

  /** It does not matter when it is asked. */
  ghost predicate Steady<K(!new)>(select: Selector<K>) {
    forall i: nat, j: nat, u: nat :: select(i, u) == select(j, u)
  }

  /** The unit of the `i`th definition names its producer and answers `k`. */
  ghost predicate Supports<K(!new)>(units: map<nat, Origin>, select: Selector<K>, i: nat, die: TypeId, k: K) {
    exists u ::
      UnitOf(Ends(units), die) == Some(u) && u in units && units[u].producer.Some? && select(i, u) == Some(k)
  }

  ghost predicate AllSupport<K(!new)>(units: map<nat, Origin>, select: Selector<K>, dies: seq<TypeId>, n: nat,
                                      k: K)
    requires n <= |dies|
  {
    forall i | 0 <= i < n :: Supports(units, select, i, dies[i], k)
  }

  /** Why one definition supports nothing. */
  ghost predicate Withholds<K(!new)>(units: map<nat, Origin>, select: Selector<K>, i: nat, die: TypeId, e: Decline) {
    match UnitOf(Ends(units), die)
    case None => e == MissingUnit(die)
    case Some(u) =>
      && u in units
      && if units[u].producer.None? then e == MissingProducer(u) else select(i, u).None? && e == Unsupported(u)
  }

  /** The first definition to withhold support, or to answer otherwise than those before it. */
  ghost predicate DeclinesAt<K(!new)>(units: map<nat, Origin>, select: Selector<K>, dies: seq<TypeId>, i: nat,
                                      e: Decline)
    requires i < |dies|
  {
    && (i == 0 || exists k :: AllSupport(units, select, dies, i, k))
    && (|| Withholds(units, select, i, dies[i], e)
        || (&& i > 0 && e.Conflict?
            && UnitOf(Ends(units), dies[0]) == Some(e.first) && UnitOf(Ends(units), dies[i]) == Some(e.other)
            && exists k, l ::
                 k != l && Supports(units, select, 0, dies[0], k) && Supports(units, select, i, dies[i], l)))
  }

  /** One convention for a type: the answer all its definitions' units give. */
  method Convention<K(==, !new)>(units: map<nat, Origin>, dies: seq<TypeId>, select: Selector<K>)
    returns (r: Result<K>)
    ensures forall k :: r == Ok(k) <==> dies != [] && AllSupport(units, select, dies, |dies|, k)
    ensures r == Err(MissingDefinitions) <==> dies == []
    ensures r.Err? && dies != [] ==> exists i :: 0 <= i < |dies| && DeclinesAt(units, select, dies, i, r.error)
  {
    var agreed: Option<(nat, K)> := None;
    for i := 0 to |dies|
      invariant agreed.None? <==> i == 0
      invariant agreed.Some? ==> UnitOf(Ends(units), dies[0]) == Some(agreed.value.0)
      invariant agreed.Some? ==> AllSupport(units, select, dies, i, agreed.value.1)
    {
      var unit := UnitOf(Ends(units), dies[i]);
      if unit.None? {
        assert Withholds(units, select, i, dies[i], MissingUnit(dies[i]));
        assert DeclinesAt(units, select, dies, i, MissingUnit(dies[i]));
        return Err(MissingUnit(dies[i]));
      }
      if units[unit.value].producer.None? {
        assert DeclinesAt(units, select, dies, i, MissingProducer(unit.value));
        return Err(MissingProducer(unit.value));
      }
      var convention := select(i, unit.value);
      if convention.None? {
        assert DeclinesAt(units, select, dies, i, Unsupported(unit.value));
        return Err(Unsupported(unit.value));
      }
      assert Supports(units, select, i, dies[i], convention.value);
      if agreed.None? {
        agreed := Some((unit.value, convention.value));
      } else if agreed.value.1 != convention.value {
        assert DeclinesAt(units, select, dies, i, Conflict(agreed.value.0, unit.value));
        return Err(Conflict(agreed.value.0, unit.value));
      }
    }
    if agreed.None? {
      return Err(MissingDefinitions);
    }
    return Ok(agreed.value.1);
  }

  ghost predicate HasDefinition(table: Table, subs: Subs, canonical: TypeId) {
    exists x :: IsDefinition(table, subs, canonical, x)
  }

  ghost predicate EverySupports<K(!new)>(table: Table, subs: Subs, canonical: TypeId, units: map<nat, Origin>,
                                         select: Selector<K>, k: K) {
    forall x | IsDefinition(table, subs, canonical, x) :: Supports(units, select, 0, x, k)
  }

  // ----- the reader

  /** What is known of the settled map `named` over folded links, which placements have grown to
  `grown`, from the rounds of its settling. */
  ghost predicate NamesOver(table: Table, evidence: Evidence, groups: seq<seq<TypeId>>, base: Subs, grown: Subs,
                            named: Subs, report: Report, history: seq<Round>) {
    && FromHistory(table, evidence, groups, base, grown, named, report, history)
    && BaseDescends(table, grown) && Descends(table, grown, named) && NamesStay(table, grown, named)
    && 1 <= report.passes <= MAX_IDENTITY_PASSES
    && (Strong(table, groups, base) ==>
          && WholeRuns(table, evidence, groups, base, MAX_IDENTITY_PASSES - 1, named,
                       MAX_IDENTITY_PASSES - report.passes)
          && history[|history| - 1].Splits(evidence)
             == SplitSets(View(table, evidence, named), PlainPass(table, grown), groups))
    && (Strong(table, groups, base) && report.passes < MAX_IDENTITY_PASSES ==>
          WholeSettles(table, evidence, groups, base, named) && SettlesTo(table, groups, grown, named))
    && (Uniform(table, groups, base) && report.passes < MAX_IDENTITY_PASSES ==> IsCoarsest(table, groups, grown, named))
  }

  /** The history ends at the map and base, with the counts of the report; its last round decides
  over its own split groups that nothing is left to place, and reports the rest once each. */
  ghost predicate FromHistory(table: Table, evidence: Evidence, groups: seq<seq<TypeId>>, base: Subs, grown: Subs,
                              named: Subs, report: Report, history: seq<Round>) {
    && Grouped(table, groups)
    && Completes(table, evidence, groups, base, MAX_IDENTITY_PASSES - 1, history)
    && named == Final(history).subs && grown == Final(history).base
    && RoundOf(View(table, evidence, named), history[|history| - 1].Splits(evidence), [], report.unresolved)
    && EachOnce([], report.unresolved)
    && report.repartitioned == |groups| + LoadOf(history) && report.placed == PlacedIn(history)
  }

  /** What is known of its closure over anonymous types. */
  ghost predicate StructuresOver(table: Table, base: Subs, grown: Subs, named: Subs, subs: Subs) {
    && SendsDown(table, named, subs) && Needed(table, named, subs)
    && (PlainStructures(table, base) ==>
          && AddsDown(table, named, subs) && IsCongruence(table, subs)
          && Faithful(Partition(table, grown, Some(named)), subs))
  }

  /** Named types settled. */
  method SettleGroups(table: Table, evidence: Evidence, base: Subs)
    returns (subs: Subs, report: Report, ghost grown: Subs, ghost groups: seq<seq<TypeId>>, ghost history: seq<Round>)
    requires BaseDescends(table, base) && GroupClosed(table, base)
    ensures NamesOver(table, evidence, groups, base, grown, subs, report, history)
    ensures PlainStructures(table, base) ==> PlainStructures(table, subs)
  {
    var grouped := GroupByName(table);
    groups := grouped;
    subs, report, grown, history := SettleNamed(table, evidence, grouped, base);
    SettledNames(table, groups, base, grown, subs);
  }

  /** The aliases over the folded links: names to a fixed point, then structures to one. */
  method AliasSubstitutions(table: Table, evidence: Evidence, base: Subs)
    returns (subs: Subs, report: Report, ghost grown: Subs, ghost named: Subs, ghost groups: seq<seq<TypeId>>,
             ghost history: seq<Round>)
    requires BaseDescends(table, base) && GroupClosed(table, base) && SettlesAbove(table, evidence, base)
    ensures NamesOver(table, evidence, groups, base, grown, named, report, history)
    ensures StructuresOver(table, base, grown, named, subs)
  {
    var settled;
    settled, report, grown, groups, history := SettleGroups(table, evidence, base);
    named := settled;
    assert LinkedAbove(table, Final(history).base, Final(history).subs);
    subs := CloseStructures(table, grown, settled);
  }

  /** The links, then the aliases over them. */
  method FoldAndAlias(before: Table, specs: map<TypeId, TypeId>, evidence: Evidence)
    returns (table: Table, subs: Subs, report: Report, ghost base: Subs, ghost grown: Subs, ghost named: Subs,
             ghost groups: seq<seq<TypeId>>, ghost history: seq<Round>)
    requires forall x: TypeId :: !SelfLinked(specs, before.declarations, x)
    requires LinksClosed(WithNames(before, specs), specs) && LinksAbove(WithNames(before, specs), evidence, specs)
    ensures table == WithNames(before, specs)
    ensures IsBase(specs, table.declarations, specs.Keys, base)
    ensures NamesOver(table, evidence, groups, base, grown, named, report, history)
    ensures StructuresOver(table, base, grown, named, subs)
  {
    var types, links := FoldSpecifications(before.types, before.declarations, specs);
    table := Table(types, before.declarations, before.subroutines);
    FoldedDescends(table, specs, links);
    BaseIsAcyclic(table, links);
    LinksGiveBase(table, specs, links);
    base := links;
    subs, report, grown, named, groups, history := AliasSubstitutions(table, evidence, links);
  }

  /** The types as the links' names leave them. */
  function WithNames(table: Table, specs: map<TypeId, TypeId>): Table {
    Table(InheritAll(table.types, specs, Groups.Ascending(specs.Keys)), table.declarations, table.subroutines)
  }

  class Reader {
    var types: map<TypeId, RawType>
    const declarations: set<TypeId>
    const subroutines: set<TypeId>
    const specifications: map<TypeId, TypeId>
    const units: map<nat, Origin>
    const crates: map<TypeId, set<string>>
    var subs: Subs
    var definitions: seq<Pair>
    var report: Report

    constructor (types: map<TypeId, RawType>, declarations: set<TypeId>, subroutines: set<TypeId>,
                 specifications: map<TypeId, TypeId>, units: map<nat, Origin>, crates: map<TypeId, set<string>>)
      ensures this.types == types && this.declarations == declarations && this.subroutines == subroutines
      ensures this.specifications == specifications && this.units == units && this.crates == crates
    {
      this.types, this.declarations, this.subroutines := types, declarations, subroutines;
      this.specifications, this.units, this.crates := specifications, units, crates;
      EmptyIsAcyclic();
      subs, definitions, report := map[], [], Report(0, 0, 0, []);
    }

    function TableNow(): Table
      reads this
    {
      Table(types, declarations, subroutines)
    }

    ghost predicate Finalized()
      reads this
    {
      Indexes(TableNow(), subs, definitions)
    }

    /** Everything after the last unit: the links, the names, the structures, the index. */
    method FinalizeTypes()
      returns (ghost base: Subs, ghost grown: Subs, ghost named: Subs, ghost groups: seq<seq<TypeId>>,
               ghost history: seq<Round>)
      requires forall x: TypeId :: !SelfLinked(specifications, declarations, x)
      requires LinksClosed(WithNames(TableNow(), specifications), specifications)
      requires LinksAbove(WithNames(TableNow(), specifications), Evidence(Ends(units), crates), specifications)
      modifies this`types, this`subs, this`definitions, this`report
      ensures TableNow() == old(WithNames(TableNow(), specifications))
      ensures IsBase(specifications, declarations, specifications.Keys, base)
      ensures NamesOver(TableNow(), Evidence(Ends(units), crates), groups, base, grown, named, report, history)
      ensures StructuresOver(TableNow(), base, grown, named, subs)
      ensures Finalized()
    {
      var table, aliases, settled;
      table, aliases, settled, base, grown, named, groups, history :=
        FoldAndAlias(TableNow(), specifications, Evidence(Ends(units), crates));
      var index := IndexDefinitions(table, aliases);
      types, subs, definitions, report := table.types, aliases, index, settled;
      assert TableNow() == table;
    }

    method DefinitionsOf(id: TypeId) returns (dies: seq<TypeId>)
      requires Finalized()
      ensures Enumerates(TableNow(), subs, Canon(subs, id), dies)
    {
      dies := TypeDefinitions(TableNow(), subs, definitions, id);
    }

    /** The convention of a type is `k` exactly when it has a definition and the unit of each, asked
    in order, supports `k`; the order is nothing to a selector that answers the same at any time. */
    method TypeConvention<K(==, !new)>(id: TypeId, select: Selector<K>)
      returns (r: Result<K>, ghost dies: seq<TypeId>)
      requires Finalized()
      ensures Enumerates(TableNow(), subs, Canon(subs, id), dies)
      ensures forall k :: r == Ok(k) <==>
                HasDefinition(TableNow(), subs, Canon(subs, id)) && AllSupport(units, select, dies, |dies|, k)
      ensures Steady(select) ==>
                forall k :: r == Ok(k) <==>
                  && HasDefinition(TableNow(), subs, Canon(subs, id))
                  && EverySupports(TableNow(), subs, Canon(subs, id), units, select, k)
      ensures r == Err(MissingDefinitions) <==> !HasDefinition(TableNow(), subs, Canon(subs, id))
      ensures r.Err? && dies != [] ==> exists i :: 0 <= i < |dies| && DeclinesAt(units, select, dies, i, r.error)
    {
      var found := DefinitionsOf(id);
      dies := found;
      r := Convention(units, found, select);
      DefinedWhenListed(TableNow(), subs, Canon(subs, id), dies);
      if Steady(select) {
        EnumeratedSupport(TableNow(), subs, Canon(subs, id), dies, units, select);
      }
    }
  }

  lemma DefinedWhenListed(table: Table, subs: Subs, canonical: TypeId, dies: seq<TypeId>)
    requires Enumerates(table, subs, canonical, dies)
    ensures dies != [] <==> HasDefinition(table, subs, canonical)
  {
    if dies != [] {
      assert dies[0] in dies;
    }
  }

  lemma EnumeratedSupport<K(!new)>(table: Table, subs: Subs, canonical: TypeId, dies: seq<TypeId>,
                                   units: map<nat, Origin>,
                                   select: Selector<K>)
    requires Enumerates(table, subs, canonical, dies) && Steady(select)
    ensures forall k ::
              AllSupport(units, select, dies, |dies|, k) <==> EverySupports(table, subs, canonical, units, select, k)
  {
    forall k
      ensures AllSupport(units, select, dies, |dies|, k) <==> EverySupports(table, subs, canonical, units, select, k)
    {
      forall i | 0 <= i < |dies|
        ensures Supports(units, select, i, dies[i], k) <==> Supports(units, select, 0, dies[i], k)
      {
        SteadySupport(units, select, i, dies[i], k);
      }
      forall i | 0 <= i < |dies|
        ensures IsDefinition(table, subs, canonical, dies[i])
      {
        assert dies[i] in dies;
      }
    }
  }

  lemma SteadySupport<K(!new)>(units: map<nat, Origin>, select: Selector<K>, i: nat, die: TypeId, k: K)
    requires Steady(select)
    ensures Supports(units, select, i, die, k) <==> Supports(units, select, 0, die, k)
  {
    assert forall u: nat :: select(i, u) == select(0, u);
  }

  /** Every alias of a type has the same definitions. */
  lemma SameForEveryAlias(table: Table, subs: Subs, x: TypeId, y: TypeId, a: seq<TypeId>, b: seq<TypeId>)
    requires Enumerates(table, subs, Canon(subs, x), a) && Enumerates(table, subs, Canon(subs, y), b)
    requires Canon(subs, x) == Canon(subs, y)
    ensures a == b
  {
    AscendingOnce(a, b, (x: TypeId) => x);
  }
}
