/** What the passes compute: each quotients the named types by an equivalence, each refines
the one before, and where they settle is the coarsest stable partition. */
module Coarsest {
  import opened RawTypes
  import opened Collections
  import opened Substitution
  import opened Layout
  import opened Signature
  import opened LayoutSignature
  import opened Groups
  import opened GroupFacts
  import opened Passes
  import opened Grouping
  import opened Dependence
  import opened Worklist

  /** Alignments of same-named definitions are both present or both absent. */
  ghost predicate AllAligned(g: Graph) {
    forall d, e | Comparable(g, d, e) :: AlignedAlike(g.table.types[d], g.table.types[e])
  }

  ghost predicate Uniform(table: Table, groups: seq<seq<TypeId>>, base: Subs) {
    && Regular(table, groups, base)
    && Complete(Graph(table, base))
    && AllAligned(Graph(table, base))
  }

  /** A base that folds more leaves fewer definitions to compare. */
  lemma UniformGrows(table: Table, groups: seq<seq<TypeId>>, base: Subs, grown: Subs)
    requires Uniform(table, groups, base) && Regular(table, groups, grown) && base.Keys <= grown.Keys
    ensures Uniform(table, groups, grown)
  {
    forall d, e | Comparable(Graph(table, grown), d, e)
      ensures Comparable(Graph(table, base), d, e)
    {
    }
  }

  // ----- the relation a labelling of the named types induces

  /** A named type no link folds away. */
  ghost predicate IsRoot(g: Graph, x: TypeId) {
    g.table.IsNamed(x) && x !in g.base
  }

  ghost function LayoutAt(g: Graph, naming: TypeId -> Label, x: TypeId): LayoutSig
    requires g.ShortChains() && x in g.table.types
  {
    LayoutBy(g, naming, g.table.types[x])
  }

  /** All definitions of one key have one layout. */
  ghost predicate Sole(g: Graph, naming: TypeId -> Label, key: Option<GroupKey>)
    requires g.ShortChains()
  {
    forall d, e | Comparable(g, d, e) && g.table.Key(d) == key :: LayoutAt(g, naming, d) == LayoutAt(g, naming, e)
  }

  /** Two definitions go together when their layouts agree and their references pairwise bear
  the same labels; a declaration goes with the others of its name when these leave it one
  class to go to. */
  ghost predicate Related(g: Graph, naming: TypeId -> Label, x: TypeId, y: TypeId)
    requires g.ShortChains() && IsRoot(g, x) && IsRoot(g, y)
  {
    || x == y
    || (&& g.table.Key(x) == g.table.Key(y)
        && if Comparable(g, x, y) then LayoutAt(g, naming, x) == LayoutAt(g, naming, y)
           else Sole(g, naming, g.table.Key(x)))
  }

  /** Ids with one label are related by it: a partition that splits nothing further. */
  ghost predicate Stable(g: Graph, naming: TypeId -> Label)
    requires g.ShortChains()
  {
    forall x, y | IsRoot(g, x) && IsRoot(g, y) && naming(x) == naming(y) :: Related(g, naming, x, y)
  }

  ghost predicate Refines(g: Graph, fine: TypeId -> Label, coarse: TypeId -> Label) {
    forall x, y | IsRoot(g, x) && IsRoot(g, y) && fine(x) == fine(y) :: coarse(x) == coarse(y)
  }

  // ----- a finer labelling relates less

  lemma SigsRefine(g: Graph, fine: TypeId -> Label, coarse: TypeId -> Label, l: TypeId, r: TypeId)
    requires g.ShortChains() && Refines(g, fine, coarse)
    requires g.SigBy(fine, l) == g.SigBy(fine, r)
    ensures g.SigBy(coarse, l) == g.SigBy(coarse, r)
  {
    var x, y := g.EndOf(l), g.EndOf(r);
    assert g.EndBy(fine, x) == g.EndBy(fine, y);
    if g.table.IsNamed(x) {
      assert IsRoot(g, x) && IsRoot(g, y);
    }
  }

  lemma SigListsRefine(g: Graph, fine: TypeId -> Label, coarse: TypeId -> Label, a: seq<TypeId>, b: seq<TypeId>)
    requires g.ShortChains() && Refines(g, fine, coarse)
    requires Sigs(g, fine, a) == Sigs(g, fine, b)
    ensures Sigs(g, coarse, a) == Sigs(g, coarse, b)
  {
    assert |a| == |Sigs(g, fine, a)| == |Sigs(g, fine, b)| == |b|;
    forall i | 0 <= i < |a|
      ensures Sigs(g, coarse, a)[i] == Sigs(g, coarse, b)[i]
    {
      assert Sigs(g, fine, a)[i] == Sigs(g, fine, b)[i];
      SigsRefine(g, fine, coarse, a[i], b[i]);
    }
  }

  lemma LayoutsRefine(g: Graph, fine: TypeId -> Label, coarse: TypeId -> Label, x: TypeId, y: TypeId)
    requires g.ShortChains() && Refines(g, fine, coarse) && x in g.table.types && y in g.table.types
    requires LayoutAt(g, fine, x) == LayoutAt(g, fine, y)
    ensures LayoutAt(g, coarse, x) == LayoutAt(g, coarse, y)
  {
    var a, b := g.table.types[x], g.table.types[y];
    SigListsRefine(g, fine, coarse, LeadRefs(a), LeadRefs(b));
    SigListsRefine(g, fine, coarse, ItemRefs(a), ItemRefs(b));
    SigListsRefine(g, fine, coarse, ParamRefsOf(a), ParamRefsOf(b));
  }

  lemma RelatedRefines(g: Graph, fine: TypeId -> Label, coarse: TypeId -> Label, x: TypeId, y: TypeId)
    requires g.ShortChains() && Refines(g, fine, coarse)
    requires IsRoot(g, x) && IsRoot(g, y) && Related(g, fine, x, y)
    ensures Related(g, coarse, x, y)
  {
    if x != y {
      if Comparable(g, x, y) {
        LayoutsRefine(g, fine, coarse, x, y);
      } else {
        forall d, e | Comparable(g, d, e) && g.table.Key(d) == g.table.Key(x)
          ensures LayoutAt(g, coarse, d) == LayoutAt(g, coarse, e)
        {
          LayoutsRefine(g, fine, coarse, d, e);
        }
      }
    }
  }

  // ----- one pass is the quotient by that relation

  lemma CompatibleIsSame(p: Partition, groups: seq<seq<TypeId>>, d: TypeId, e: TypeId)
    requires Uniform(p.table, groups, p.base) && Comparable(GraphOf(p), d, e)
    ensures p.CompatibleLayout(d, e) <==> LayoutAt(GraphOf(p), LabelOf(p), d) == LayoutAt(GraphOf(p), LabelOf(p), e)
  {
    var a, b := p.table.types[d], p.table.types[e];
    assert CompleteTypes(a, b) && AlignedAlike(a, b) && HomogeneousOn(GraphOf(p), AlignedPairs(a, b));
    CompatibleIsLayout(p, a, b);
  }

  lemma DefinitionsComparable(p: Partition, groups: seq<seq<TypeId>>, i: nat, d: TypeId, e: TypeId)
    requires Uniform(p.table, groups, p.base) && i < |groups|
    requires d in Definitions(p, groups[i]) && e in Definitions(p, groups[i])
    ensures Comparable(GraphOf(p), d, e)
  {
    ResolvedInGroup(p, groups, i);
    MembersNamed(p.table, groups, i, d);
    MembersNamed(p.table, groups, i, e);
    assert p.table.Key(d) == p.table.Key(groups[i][0]) == p.table.Key(e);
  }

  lemma MemberOfClass(p: Partition, ids: seq<TypeId>, j: nat, d: TypeId)
    requires j < |ClassesOf(p, ids)| && d in ClassesOf(p, ids)[j]
    ensures d in Definitions(p, ids)
    ensures ClassesOf(p, ids)[j][0] in Definitions(p, ids)
    ensures d == ClassesOf(p, ids)[j][0] || p.CompatibleLayout(ClassesOf(p, ids)[j][0], d)
  {
    ClassesOfFacts(p, ids);
    assert ClassesOf(p, ids)[j][0] in ClassesOf(p, ids)[j];
  }

  /** A definition's layout is that of the head of its class. */
  lemma LayoutOfHead(p: Partition, groups: seq<seq<TypeId>>, i: nat, j: nat, d: TypeId)
    requires Uniform(p.table, groups, p.base) && i < |groups|
    requires j < |ClassesOf(p, groups[i])| && d in ClassesOf(p, groups[i])[j]
    ensures var head := ClassesOf(p, groups[i])[j][0];
            && Comparable(GraphOf(p), head, d)
            && LayoutAt(GraphOf(p), LabelOf(p), d) == LayoutAt(GraphOf(p), LabelOf(p), head)
  {
    var head := ClassesOf(p, groups[i])[j][0];
    MemberOfClass(p, groups[i], j, d);
    DefinitionsComparable(p, groups, i, head, d);
    CompatibleIsSame(p, groups, head, d);
  }

  lemma LayoutsOfHeads(p: Partition, groups: seq<seq<TypeId>>, i: nat, j: nat, k: nat)
    requires Uniform(p.table, groups, p.base) && i < |groups|
    requires j < k < |ClassesOf(p, groups[i])|
    ensures var a, b := ClassesOf(p, groups[i])[j][0], ClassesOf(p, groups[i])[k][0];
            && Comparable(GraphOf(p), a, b)
            && LayoutAt(GraphOf(p), LabelOf(p), a) != LayoutAt(GraphOf(p), LabelOf(p), b)
  {
    var a, b := ClassesOf(p, groups[i])[j][0], ClassesOf(p, groups[i])[k][0];
    MemberOfClass(p, groups[i], j, a);
    MemberOfClass(p, groups[i], k, b);
    DefinitionsComparable(p, groups, i, a, b);
    CompatibleIsSame(p, groups, a, b);
    ClassesOfFacts(p, groups[i]);
  }

  /** Two definitions are in one class when their layouts are one, and only then. */
  lemma ClassIsLayout(p: Partition, groups: seq<seq<TypeId>>, i: nat, j: nat, k: nat, d: TypeId, e: TypeId)
    requires Uniform(p.table, groups, p.base) && i < |groups|
    requires j < |ClassesOf(p, groups[i])| && d in ClassesOf(p, groups[i])[j]
    requires k < |ClassesOf(p, groups[i])| && e in ClassesOf(p, groups[i])[k]
    ensures Comparable(GraphOf(p), d, e)
    ensures j == k <==> LayoutAt(GraphOf(p), LabelOf(p), d) == LayoutAt(GraphOf(p), LabelOf(p), e)
  {
    MemberOfClass(p, groups[i], j, d);
    MemberOfClass(p, groups[i], k, e);
    DefinitionsComparable(p, groups, i, d, e);
    LayoutOfHead(p, groups, i, j, d);
    LayoutOfHead(p, groups, i, k, e);
    if j < k {
      LayoutsOfHeads(p, groups, i, j, k);
    } else if k < j {
      LayoutsOfHeads(p, groups, i, k, j);
    }
  }

  lemma FewClassesIsSole(p: Partition, groups: seq<seq<TypeId>>, i: nat)
    requires Uniform(p.table, groups, p.base) && i < |groups|
    ensures |ClassesOf(p, groups[i])| <= 1 <==> Sole(GraphOf(p), LabelOf(p), p.table.Key(groups[i][0]))
  {
    var g, f := GraphOf(p), LabelOf(p);
    var ids := groups[i];
    var classes := ClassesOf(p, ids);
    ClassesOfFacts(p, ids);
    ResolvedInGroup(p, groups, i);
    if |classes| <= 1 {
      forall d, e | Comparable(g, d, e) && g.table.Key(d) == p.table.Key(ids[0])
        ensures LayoutAt(g, f, d) == LayoutAt(g, f, e)
      {
        assert d in Definitions(p, ids) && e in Definitions(p, ids);
        var j :| 0 <= j < |classes| && d in classes[j];
        var k :| 0 <= k < |classes| && e in classes[k];
        ClassIsLayout(p, groups, i, j, k, d, e);
      }
    } else {
      var a, b := classes[0][0], classes[1][0];
      assert a in classes[0] && b in classes[1];
      ClassIsLayout(p, groups, i, 0, 1, a, b);
      assert a in OrderedDefinitions(p, ids) && a in ids;
      assert p.table.Key(a) == p.table.Key(ids[0]);
    }
  }

  /** Where one pass sends a root: one step along its group's aliases. */
  lemma RootCanon(p: Partition, groups: seq<seq<TypeId>>, i: nat, x: TypeId)
    requires Regular(p.table, groups, p.base) && i < |groups| && x in groups[i] && x !in p.base
    ensures var own := AliasMap(Result(p, groups[i]).aliases);
            Canon(PassMap(p, groups), x) == if x in own then own[x] else x
    ensures x in Resolved(p, groups[i])
  {
    var results := ResultsOf(p, groups);
    forall g | 0 <= g < |groups|
      ensures OwnedBy(groups[g], results[g])
    {
      ResultOwned(p, groups, g);
    }
    ResolvedInGroup(p, groups, i);
    MapOfLookup(p.table, groups, p.base, results, i, x);
    var own := AliasMap(results[i].aliases);
    if x in own {
      AliasesDescend(p, groups[i], x);
      MapOfLookup(p.table, groups, p.base, results, i, own[x]);
    }
  }

  lemma DefinitionCanon(p: Partition, groups: seq<seq<TypeId>>, i: nat, x: TypeId) returns (j: nat)
    requires Uniform(p.table, groups, p.base) && i < |groups| && x in groups[i] && x !in p.base
    requires x !in p.table.declarations && |groups[i]| != 1
    ensures j < |ClassesOf(p, groups[i])| && x in ClassesOf(p, groups[i])[j]
    ensures Canon(PassMap(p, groups), x) == ClassesOf(p, groups[i])[j][0]
  {
    RootCanon(p, groups, i, x);
    ClassesOfFacts(p, groups[i]);
    assert x in Definitions(p, groups[i]);
    j :| 0 <= j < |ClassesOf(p, groups[i])| && x in ClassesOf(p, groups[i])[j];
    DefinitionLookup(p, groups[i], j, x);
  }

  lemma DeclarationCanon(p: Partition, groups: seq<seq<TypeId>>, i: nat, x: TypeId)
    requires Uniform(p.table, groups, p.base) && i < |groups| && x in groups[i] && x !in p.base
    requires x in p.table.declarations && |groups[i]| != 1
    ensures var classes, declared := ClassesOf(p, groups[i]), DeclaredOf(p, groups[i]);
            Canon(PassMap(p, groups), x) == if |classes| == 1 then classes[0][0]
                                            else if |classes| == 0 && declared != [] then declared[0] else x
    ensures DeclaredOf(p, groups[i]) != []
  {
    RootCanon(p, groups, i, x);
    assert x in Declarations(p, groups[i]);
    DeclarationLookup(p, groups[i], x);
    assert x in DeclaredOf(p, groups[i]);
  }

  ghost predicate SameCanon(p: Partition, groups: seq<seq<TypeId>>, x: TypeId, y: TypeId)
    requires BaseDescends(p.table, p.base)
  {
    Canon(PassMap(p, groups), x) == Canon(PassMap(p, groups), y)
  }

  lemma DefinitionsQuotient(p: Partition, groups: seq<seq<TypeId>>, i: nat, x: TypeId, y: TypeId)
    requires Uniform(p.table, groups, p.base) && i < |groups| && |groups[i]| != 1
    requires x in groups[i] && y in groups[i] && x !in p.base && y !in p.base
    requires x !in p.table.declarations && y !in p.table.declarations
    ensures Comparable(GraphOf(p), x, y)
    ensures SameCanon(p, groups, x, y)
            <==> LayoutAt(GraphOf(p), LabelOf(p), x) == LayoutAt(GraphOf(p), LabelOf(p), y)
  {
    var j := DefinitionCanon(p, groups, i, x);
    var k := DefinitionCanon(p, groups, i, y);
    ClassIsLayout(p, groups, i, j, k, x, y);
    HeadsApart(p, groups[i], j, k);
  }

  lemma DeclarationsQuotient(p: Partition, groups: seq<seq<TypeId>>, i: nat, x: TypeId, y: TypeId)
    requires Uniform(p.table, groups, p.base) && i < |groups| && |groups[i]| != 1 && x != y
    requires x in groups[i] && y in groups[i] && x !in p.base && y !in p.base
    requires x in p.table.declarations && y in p.table.declarations
    ensures SameCanon(p, groups, x, y) <==> |ClassesOf(p, groups[i])| <= 1
  {
    DeclarationCanon(p, groups, i, x);
    DeclarationCanon(p, groups, i, y);
  }

  lemma MixedQuotient(p: Partition, groups: seq<seq<TypeId>>, i: nat, x: TypeId, y: TypeId)
    requires Uniform(p.table, groups, p.base) && i < |groups| && |groups[i]| != 1
    requires x in groups[i] && y in groups[i] && x !in p.base && y !in p.base
    requires x in p.table.declarations && y !in p.table.declarations
    ensures SameCanon(p, groups, x, y) <==> |ClassesOf(p, groups[i])| <= 1
  {
    var j := DefinitionCanon(p, groups, i, y);
    HeadIsDefinition(p, groups[i], j);
    DeclarationCanon(p, groups, i, x);
    if |ClassesOf(p, groups[i])| == 1 {
      assert j == 0;
    }
  }

  lemma SameGroupQuotient(p: Partition, groups: seq<seq<TypeId>>, i: nat, x: TypeId, y: TypeId)
    requires Uniform(p.table, groups, p.base) && i < |groups| && x != y
    requires x in groups[i] && y in groups[i] && x !in p.base && y !in p.base
    requires IsRoot(GraphOf(p), x) && IsRoot(GraphOf(p), y)
    ensures SameCanon(p, groups, x, y) <==> Related(GraphOf(p), LabelOf(p), x, y)
  {
    assert p.table.Key(x) == p.table.Key(groups[i][0]) == p.table.Key(y);
    assert |groups[i]| != 1;
    FewClassesIsSole(p, groups, i);
    if x in p.table.declarations && y in p.table.declarations {
      DeclarationsQuotient(p, groups, i, x, y);
    } else if x in p.table.declarations {
      MixedQuotient(p, groups, i, x, y);
    } else if y in p.table.declarations {
      MixedQuotient(p, groups, i, y, x);
    } else {
      DefinitionsQuotient(p, groups, i, x, y);
    }
  }

  lemma HeadsApart(p: Partition, ids: seq<TypeId>, j: nat, k: nat)
    requires j < |ClassesOf(p, ids)| && k < |ClassesOf(p, ids)|
    ensures ClassesOf(p, ids)[j][0] == ClassesOf(p, ids)[k][0] <==> j == k
  {
    ClassesOfFacts(p, ids);
    assert ClassesOf(p, ids)[j][0] in ClassesOf(p, ids)[j];
    assert ClassesOf(p, ids)[k][0] in ClassesOf(p, ids)[k];
  }

  lemma HeadIsDefinition(p: Partition, ids: seq<TypeId>, j: nat)
    requires j < |ClassesOf(p, ids)|
    ensures ClassesOf(p, ids)[j][0] !in p.table.declarations
  {
    ClassesOfFacts(p, ids);
    assert ClassesOf(p, ids)[j][0] in ClassesOf(p, ids)[j];
    assert ClassesOf(p, ids)[j][0] in OrderedDefinitions(p, ids);
  }

  /** A pass gives two named roots one canonical exactly when the labels it compares
  references by relate them; so that relation is an equivalence, and the pass its quotient. */
  lemma PassIsQuotient(p: Partition, groups: seq<seq<TypeId>>, x: TypeId, y: TypeId)
    requires Uniform(p.table, groups, p.base)
    requires IsRoot(GraphOf(p), x) && IsRoot(GraphOf(p), y)
    ensures SameCanon(p, groups, x, y) <==> Related(GraphOf(p), LabelOf(p), x, y)
  {
    if x != y {
      var i, j := OwnerOf(p.table, groups, x), OwnerOf(p.table, groups, y);
      if i == j {
        SameGroupQuotient(p, groups, i, x, y);
      } else {
        assert p.table.Key(x) == p.table.Key(groups[i][0]) != p.table.Key(groups[j][0]) == p.table.Key(y);
        PassKeepsGroups(p, groups);
        if Canon(PassMap(p, groups), x) == Canon(PassMap(p, groups), y) {
          CanonSeparates(p.table, groups, PassMap(p, groups), x, y);
        }
      }
    }
  }

  lemma PassKeepsGroups(p: Partition, groups: seq<seq<TypeId>>)
    requires Regular(p.table, groups, p.base)
    ensures KeepsGroups(PassMap(p, groups), groups)
  {
    var results := ResultsOf(p, groups);
    forall g | 0 <= g < |groups|
      ensures OwnedBy(groups[g], results[g])
    {
      ResultOwned(p, groups, g);
    }
    forall g | 0 <= g < |groups|
      ensures KeepsGroup(PassMap(p, groups), groups[g])
    {
      MapOfKeepsGroup(p.table, groups, p.base, results, g);
    }
  }

  // ----- every pass refines the last, and no stable partition is coarser

  ghost function NthLabel(table: Table, groups: seq<seq<TypeId>>, base: Subs, k: nat): TypeId -> Label
    requires BaseDescends(table, base)
  {
    LabelOf(NthPass(table, groups, base, k))
  }

  ghost function ClassesBy(m: Subs): TypeId -> Label {
    (x: TypeId) => ClassLabel(Canon(m, x))
  }

  /** The classes of the `k`th pass are what the labels it compared by relate. */
  lemma NthIsQuotient(table: Table, groups: seq<seq<TypeId>>, base: Subs, k: nat, x: TypeId, y: TypeId)
    requires Uniform(table, groups, base)
    requires IsRoot(Graph(table, base), x) && IsRoot(Graph(table, base), y)
    ensures Canon(NthMap(table, groups, base, k), x) == Canon(NthMap(table, groups, base, k), y)
            <==> Related(Graph(table, base), NthLabel(table, groups, base, k), x, y)
  {
    PassIsQuotient(NthPass(table, groups, base, k), groups, x, y);
  }

  lemma LabelIsCanon(table: Table, groups: seq<seq<TypeId>>, base: Subs, k: nat, x: TypeId, y: TypeId)
    requires BaseDescends(table, base)
    ensures NthLabel(table, groups, base, k + 1)(x) == NthLabel(table, groups, base, k + 1)(y)
            <==> Canon(NthMap(table, groups, base, k), x) == Canon(NthMap(table, groups, base, k), y)
  {
  }

  /** What a labelling finer than a pass's relates, the pass keeps together. */
  lemma KeptByNext(table: Table, groups: seq<seq<TypeId>>, base: Subs, naming: TypeId -> Label, k: nat, x: TypeId,
                   y: TypeId)
    requires Uniform(table, groups, base)
    requires Refines(Graph(table, base), naming, NthLabel(table, groups, base, k))
    requires IsRoot(Graph(table, base), x) && IsRoot(Graph(table, base), y)
    requires Related(Graph(table, base), naming, x, y)
    ensures NthLabel(table, groups, base, k + 1)(x) == NthLabel(table, groups, base, k + 1)(y)
  {
    RelatedRefines(Graph(table, base), naming, NthLabel(table, groups, base, k), x, y);
    NthIsQuotient(table, groups, base, k, x, y);
    LabelIsCanon(table, groups, base, k, x, y);
  }

  lemma NextRefines(table: Table, groups: seq<seq<TypeId>>, base: Subs, k: nat, x: TypeId, y: TypeId)
    requires Uniform(table, groups, base)
    requires Refines(Graph(table, base), NthLabel(table, groups, base, k + 1), NthLabel(table, groups, base, k))
    requires IsRoot(Graph(table, base), x) && IsRoot(Graph(table, base), y)
    requires NthLabel(table, groups, base, k + 2)(x) == NthLabel(table, groups, base, k + 2)(y)
    ensures NthLabel(table, groups, base, k + 1)(x) == NthLabel(table, groups, base, k + 1)(y)
  {
    LabelIsCanon(table, groups, base, k + 1, x, y);
    NthIsQuotient(table, groups, base, k + 1, x, y);
    KeptByNext(table, groups, base, NthLabel(table, groups, base, k + 1), k, x, y);
  }

  lemma NextRefinesAll(table: Table, groups: seq<seq<TypeId>>, base: Subs, k: nat)
    requires Uniform(table, groups, base)
    requires Refines(Graph(table, base), NthLabel(table, groups, base, k + 1), NthLabel(table, groups, base, k))
    ensures Refines(Graph(table, base), NthLabel(table, groups, base, k + 2), NthLabel(table, groups, base, k + 1))
  {
    forall x, y | IsRoot(Graph(table, base), x) && IsRoot(Graph(table, base), y)
                  && NthLabel(table, groups, base, k + 2)(x) == NthLabel(table, groups, base, k + 2)(y)
      ensures NthLabel(table, groups, base, k + 1)(x) == NthLabel(table, groups, base, k + 1)(y)
    {
      NextRefines(table, groups, base, k, x, y);
    }
  }

  /** Each pass's labels refine those of the pass before. */
  lemma {:induction false} LabelsRefine(table: Table, groups: seq<seq<TypeId>>, base: Subs, k: nat)
    requires Uniform(table, groups, base)
    ensures Refines(Graph(table, base), NthLabel(table, groups, base, k + 1), NthLabel(table, groups, base, k))
    decreases k
  {
    if k == 0 {
      NthSeparates(table, groups, base, 1);
    } else {
      LabelsRefine(table, groups, base, k - 1);
      NextRefinesAll(table, groups, base, k - 1);
    }
  }

  /** What a pass keeps together, every pass before it kept together. */
  lemma PassesRefine(table: Table, groups: seq<seq<TypeId>>, base: Subs, k: nat, x: TypeId, y: TypeId)
    requires Uniform(table, groups, base)
    requires IsRoot(Graph(table, base), x) && IsRoot(Graph(table, base), y)
    requires Canon(NthMap(table, groups, base, k + 1), x) == Canon(NthMap(table, groups, base, k + 1), y)
    ensures Canon(NthMap(table, groups, base, k), x) == Canon(NthMap(table, groups, base, k), y)
  {
    LabelsRefine(table, groups, base, k + 1);
    assert NthLabel(table, groups, base, k + 2)(x) == NthLabel(table, groups, base, k + 2)(y);
    assert NthLabel(table, groups, base, k + 1)(x) == NthLabel(table, groups, base, k + 1)(y);
  }

  /** No pass separates what a stable partition keeps together. */
  lemma {:induction false} StableRefines(table: Table, groups: seq<seq<TypeId>>, base: Subs, naming: TypeId -> Label,
                                         k: nat)
    requires Uniform(table, groups, base) && Stable(Graph(table, base), naming)
    ensures Refines(Graph(table, base), naming, NthLabel(table, groups, base, k))
    decreases k
  {
    if k == 0 {
      StableRefinesFirst(table, groups, base, naming);
    } else {
      StableRefines(table, groups, base, naming, k - 1);
      StableRefinesNext(table, groups, base, naming, k - 1, k);
    }
  }

  lemma StableRefinesFirst(table: Table, groups: seq<seq<TypeId>>, base: Subs, naming: TypeId -> Label)
    requires Uniform(table, groups, base) && Stable(Graph(table, base), naming)
    ensures Refines(Graph(table, base), naming, NthLabel(table, groups, base, 0))
  {
    forall x, y | IsRoot(Graph(table, base), x) && IsRoot(Graph(table, base), y) && naming(x) == naming(y)
      ensures NthLabel(table, groups, base, 0)(x) == NthLabel(table, groups, base, 0)(y)
    {
      assert Related(Graph(table, base), naming, x, y);
    }
  }

  lemma StableRefinesNext(table: Table, groups: seq<seq<TypeId>>, base: Subs, naming: TypeId -> Label, k: nat,
                          next: nat)
    requires Uniform(table, groups, base) && Stable(Graph(table, base), naming) && next == k + 1
    requires Refines(Graph(table, base), naming, NthLabel(table, groups, base, k))
    ensures Refines(Graph(table, base), naming, NthLabel(table, groups, base, next))
  {
    forall x, y | IsRoot(Graph(table, base), x) && IsRoot(Graph(table, base), y) && naming(x) == naming(y)
      ensures NthLabel(table, groups, base, next)(x) == NthLabel(table, groups, base, next)(y)
    {
      assert Related(Graph(table, base), naming, x, y);
      KeptByNext(table, groups, base, naming, k, x, y);
    }
  }

  /** The settled map's classes are a stable partition, and every stable partition refines
  them: they are the coarsest. */
  lemma SettledIsCoarsest(table: Table, groups: seq<seq<TypeId>>, base: Subs, k: nat)
    requires Uniform(table, groups, base) && Settled(table, groups, base, k)
    ensures Stable(Graph(table, base), ClassesBy(NthMap(table, groups, base, k)))
    ensures forall naming: TypeId -> Label | Stable(Graph(table, base), naming) ::
              Refines(Graph(table, base), naming, ClassesBy(NthMap(table, groups, base, k)))
  {
    var g, m := Graph(table, base), NthMap(table, groups, base, k);
    var classes := NthLabel(table, groups, base, k + 1);
    assert forall x: TypeId :: classes(x) == ClassesBy(m)(x);
    forall x, y | IsRoot(g, x) && IsRoot(g, y) && ClassesBy(m)(x) == ClassesBy(m)(y)
      ensures Related(g, ClassesBy(m), x, y)
    {
      NthIsQuotient(table, groups, base, k + 1, x, y);
      assert Refines(g, classes, ClassesBy(m));
      RelatedRefines(g, classes, ClassesBy(m), x, y);
    }
    forall naming: TypeId -> Label | Stable(g, naming)
      ensures Refines(g, naming, ClassesBy(m))
    {
      StableRefines(table, groups, base, naming, k + 1);
    }
  }

  /** The same of the map the passes settle to. */
  lemma CoarsestStablePartition(table: Table, groups: seq<seq<TypeId>>, base: Subs, m: Subs)
    requires Uniform(table, groups, base) && SettlesTo(table, groups, base, m)
    ensures IsCoarsest(table, groups, base, m)
  {
    var k: nat :| Settled(table, groups, base, k) && m == NthMap(table, groups, base, k);
    SettledIsCoarsest(table, groups, base, k);
  }

  /** The map's classes over these types and links are a stable partition, and every stable
  partition refines them. */
  ghost predicate IsCoarsest(table: Table, groups: seq<seq<TypeId>>, base: Subs, m: Subs) {
    && Uniform(table, groups, base)
    && Stable(Graph(table, base), ClassesBy(m))
    && forall naming: TypeId -> Label | Stable(Graph(table, base), naming) ::
         Refines(Graph(table, base), naming, ClassesBy(m))
  }

  // ----- the passes do settle

  ghost function Roots(table: Table, base: Subs): set<TypeId> {
    set x | x in table.types && IsRoot(Graph(table, base), x)
  }

  /** The pairs of roots the `k`th pass keeps together. */
  ghost function Kept(table: Table, groups: seq<seq<TypeId>>, base: Subs, k: nat): set<Pair>
    requires BaseDescends(table, base)
  {
    set pair | pair in Pairs(Roots(table, base))
               && Canon(NthMap(table, groups, base, k), pair.0) == Canon(NthMap(table, groups, base, k), pair.1)
  }

  lemma KeptShrinks(table: Table, groups: seq<seq<TypeId>>, base: Subs, k: nat)
    requires Uniform(table, groups, base)
    ensures Kept(table, groups, base, k + 1) <= Kept(table, groups, base, k)
  {
    forall pair | pair in Kept(table, groups, base, k + 1)
      ensures pair in Kept(table, groups, base, k)
    {
      PassesRefine(table, groups, base, k, pair.0, pair.1);
    }
  }

  lemma CanonOfRoot(table: Table, groups: seq<seq<TypeId>>, base: Subs, k: nat, j: nat, x: TypeId)
    requires Regular(table, groups, base) && j < |groups| && x in groups[j]
    ensures Canon(base, x) in Roots(table, base)
    ensures Canon(NthMap(table, groups, base, k), Canon(base, x)) == Canon(NthMap(table, groups, base, k), x)
  {
    CanonThrough(base, NthMap(table, groups, base, k), x);
    BaseKeepsGroup(table, groups, base, j);
    CanonKeepsGroup(base, groups[j], x);
    MembersNamed(table, groups, j, Canon(base, x));
  }

  lemma KeptIsLabelled(table: Table, groups: seq<seq<TypeId>>, base: Subs, k: nat, j: nat, x: TypeId, y: TypeId)
    requires Regular(table, groups, base) && j < |groups| && x in groups[j] && y in groups[j]
    ensures (Canon(base, x), Canon(base, y)) in Kept(table, groups, base, k)
            <==> NthLabel(table, groups, base, k + 1)(x) == NthLabel(table, groups, base, k + 1)(y)
  {
    LabelIsCanon(table, groups, base, k, x, y);
    CanonOfRoot(table, groups, base, k, j, x);
    CanonOfRoot(table, groups, base, k, j, y);
    assert (Canon(base, x), Canon(base, y)) in Pairs(Roots(table, base));
  }

  lemma KeptIsKernel(table: Table, groups: seq<seq<TypeId>>, base: Subs, k: nat, j: nat)
    requires Regular(table, groups, base) && j < |groups|
    requires Kept(table, groups, base, k + 1) == Kept(table, groups, base, k)
    ensures SameKernel(groups[j], NthLabel(table, groups, base, k + 1), NthLabel(table, groups, base, k + 2))
  {
    forall x, y | x in groups[j] && y in groups[j]
      ensures NthLabel(table, groups, base, k + 1)(x) == NthLabel(table, groups, base, k + 1)(y)
              <==> NthLabel(table, groups, base, k + 2)(x) == NthLabel(table, groups, base, k + 2)(y)
    {
      KeptIsLabelled(table, groups, base, k, j, x, y);
      KeptIsLabelled(table, groups, base, k + 1, j, x, y);
    }
  }

  ghost function Indices(n: nat): (r: set<nat>)
    ensures forall j: nat :: j in r <==> j < n
  {
    if n == 0 then {} else Indices(n - 1) + {n - 1}
  }

  lemma AllIndicesCover(g: Graph, groups: seq<seq<TypeId>>, i: nat)
    requires g.ShortChains() && Grouped(g.table, groups) && i < |groups|
    ensures Covered(g, groups, Indices(|groups|), i)
  {
  }

  lemma SameKernelsSameResult(p: Partition, q: Partition, groups: seq<seq<TypeId>>, i: nat)
    requires p.table == q.table && p.base == q.base && Regular(p.table, groups, p.base) && i < |groups|
    requires Separates(p.table, LabelOf(p)) && Separates(p.table, LabelOf(q))
    requires forall j | 0 <= j < |groups| :: SameKernel(groups[j], LabelOf(p), LabelOf(q))
    ensures ResultsOf(p, groups)[i] == ResultsOf(q, groups)[i]
  {
    AllIndicesCover(GraphOf(p), groups, i);
    ResultDependsOn(p, q, groups, Indices(|groups|), i);
  }

  lemma SameKernelsSameMap(p: Partition, q: Partition, groups: seq<seq<TypeId>>)
    requires p.table == q.table && p.base == q.base && Regular(p.table, groups, p.base)
    requires Separates(p.table, LabelOf(p)) && Separates(p.table, LabelOf(q))
    requires forall j | 0 <= j < |groups| :: SameKernel(groups[j], LabelOf(p), LabelOf(q))
    ensures PassMap(p, groups) == PassMap(q, groups)
  {
    forall i | 0 <= i < |groups|
      ensures ResultsOf(p, groups)[i] == ResultsOf(q, groups)[i]
    {
      SameKernelsSameResult(p, q, groups, i);
    }
    assert ResultsOf(p, groups) == ResultsOf(q, groups);
  }

  /** A pass that splits nothing is the last. */
  lemma NothingSplitSettles(table: Table, groups: seq<seq<TypeId>>, base: Subs, k: nat)
    requires Regular(table, groups, base)
    requires Kept(table, groups, base, k + 1) == Kept(table, groups, base, k)
    ensures Settled(table, groups, base, k + 1)
  {
    NthSeparates(table, groups, base, k + 1);
    NthSeparates(table, groups, base, k + 2);
    var p, q := NthPass(table, groups, base, k + 1), NthPass(table, groups, base, k + 2);
    forall j | 0 <= j < |groups|
      ensures SameKernel(groups[j], LabelOf(p), LabelOf(q))
    {
      KeptIsKernel(table, groups, base, k, j);
    }
    SameKernelsSameMap(p, q, groups);
  }

  /** Every pass that changes the map splits some class for good, so the passes settle. */
  lemma {:induction false} PassesSettle(table: Table, groups: seq<seq<TypeId>>, base: Subs, k: nat) returns (last: nat)
    requires Uniform(table, groups, base)
    ensures Settled(table, groups, base, last) && last <= k + 1 + |Kept(table, groups, base, k)|
    decreases Kept(table, groups, base, k)
  {
    KeptShrinks(table, groups, base, k);
    if Kept(table, groups, base, k + 1) == Kept(table, groups, base, k) {
      NothingSplitSettles(table, groups, base, k);
      last := k + 1;
    } else {
      last := PassesSettle(table, groups, base, k + 1);
      Smaller(Kept(table, groups, base, k + 1), Kept(table, groups, base, k));
    }
  }
}
