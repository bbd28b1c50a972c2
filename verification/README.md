# Verified core of hansei

A model of the parts of hansei that decide what counts as the same thing, with proofs about
them:

- **Type identity** (`exegesis`). After every DWARF unit is read, duplicate type ids are mapped
  to canonical ones: specification links are folded, same-named types are partitioned by layout
  to a fixed point with a worklist, declarations are placed by the evidence of their units, and
  anonymous pointers and arrays are closed under congruence.
- **Concurrent interning** (`exegesis`). Workers intern strings and namespaces through sharded,
  separately locked tables, in any interleaving.
- **Path validation** (`hansei-bundle`, and the describer in `exegesis`). Several walkers
  interpret one path language over a type table.
- **DIE streams and unit ids** (`exegesis`). Loops over the flattened tree of debugging entries,
  and one id space for plain and packaged units.
- **Small codecs and indexes**: bit-field tables, discriminant constants, name indexes.

## How the identity proof goes

`Signature` and `LayoutSignature` show that comparing two references, with its guard against
cycles, is comparing two values, and that comparing two layouts is too. One pass is therefore a
quotient (`Coarsest`). `Dependence` shows that a group's result depends only on the labels of
the groups its definitions reach, `DependencyIndex` that the index lists all of those, and
`Worklist` that repartitioning only the groups a change reached gives the whole pass's map on
every pass. `Fixpoints` is the class that does it in place; `Rounds`, `Placement`, `RoundFacts` and
`Settle` add the placements and resets. `Reference` says what it should come to: every group on
every pass up to a map that repeats, then the unit rule over every group, and again from the
first pass while that places anything (`WholeRuns` with so many passes to spend, `WholeSettles`
with enough). `Histories` is what the code goes through, round by round; what its result is worth
is read off that history. `Mirrors` and `SameHistory` set two histories side by side, over the same
groups in different orders. `Structural` closes the map over anonymous types, and `Finalize` puts
the reader together. `Transitivity` and `Counterexamples` say what the conditions below are for, and
`Chains` that no number of passes is enough for all tables. `Identity` says, under no condition,
what two references are compared by, `Canonicals` which definition of a class is its canonical, and
`Siblings` the unit rule in terms of the evidence.

`Routes` says what a path means apart from the walkers, and `Descriptions` that the describer tells
the routes.

The conditions the code forces are named predicates:

- no `SelfLinked` DIE: no DIE is left as its own specification (`Specifications`; proved to be
  exactly what makes the folded links acyclic);
- `LinksClosed`: links of named types stay inside one (kind, namespace, name) group, which is
  `GroupClosed` for a map;
- `LinksAbove`: once the names have settled, each linked declared pointer or array without a name is
  filed with a lower one (`SettlesAbove` for a map, `LinkedAbove` for one settling). It is so if the
  folded links alone do it (`Finalize.AboveSettles`), in particular if no link folds such a type
  (`Finalize.UndeclaredAbove`). For links between like structures it is exactly what the first
  structural round needs (`Structural.FirstRoundAcyclic`); for any links the exact condition is
  `Structural.FirstRoundExactly`;
- `PlainStructures`: no link touches an anonymous type at all, for the congruence claims only;
- `Complete`: no definition leaves empty a list a same-named definition fills; `AllAligned`:
  alignments of same-named definitions are both present or both absent;
- `HomogeneousTypes`: a named pointer is never compared with an anonymous one;
- `ShortChains`: anonymous chains have fewer than 32 links;
- fewer than 64 passes in all, where it is said so.

`Regular` bundles the grouping and reference conditions, `Strong` adds `Complete`, `Uniform` adds
`AllAligned`. Acyclicity, termination and independence of order need none of these but the first
three.

## Where code and documentation differ

- The comment on the pass limit (`exegesis/src/reader.rs:213-217`) speaks of the passes of one
  round. The counter is not reset between rounds, so the limit is on all rounds together; the
  model follows the code (`Settle.SettleNamed`).
- The same comment takes a run that reaches the limit for a cycle of comparisons that are not
  transitive. Two copies of a chain of wrappers that differ in the last link come apart one link a
  pass, so a chain of 64 links reaches it with every comparison transitive (`Chains.ChainSettles`,
  `Chains.ChainMeetsLimit`).
- The documentation of `intern_cgu` (`exegesis/src/reader.rs:2016-2021`) says namespaces keep
  unit-local ids for the collector to remap. The code remaps them on the spot, and so does the
  model.
- Namespace and string ids are inverse to their encoding while the index fits the word, but for
  the one pair whose id would be zero (`StripedIds.DecodeInverts`, both directions).

## Model

| member | source | states |
|---|---|---|
| `Substitution.CanonicalizeIn` | exegesis/src/reader.rs:1916-1922 | the unbounded chase ends on every acyclic map, at the one id the chain leads to that the map leaves alone |
| `Signature.IdentityIsSignature` | exegesis/src/reader.rs:1602-1645 | the recursive reference test, whatever pairs it is already visiting, decides equality of signatures: the anonymous links on the way to the first named type, and that type's label |
| `Identity.ReferenceExactly` | exegesis/src/reader.rs:1602-1645 | whatever the types are like, two references are one exactly when some set of pairs holds them and each pair of it is borne out by names, targets or elements the set pairs in turn |
| `Identity.ReferenceUnfolds` | exegesis/src/reader.rs:1602-1645 | the guard against cycles is not seen from outside: each comparison is one step and then comparisons of the same kind, a named pointer against an anonymous one by what they point to |
| `LayoutSignature.CompatibleMonotone` | exegesis/src/reader.rs:1549-1743 | identifying more references never makes two compatible layouts incompatible |
| `LayoutSignature.CompatibleIsLayout` | exegesis/src/reader.rs:1549-1743 | on complete definitions the layout test decides equality of layout values: sizes, names, offsets, discriminants, and references pairwise |
| `LayoutSignature.CompatibleInCommon` | exegesis/src/reader.rs:1549-1743 | what one definition leaves out, a list or an alignment, is no obstacle: the test sees only what both give |
| `LayoutSignature.CompatibleExactly` | exegesis/src/reader.rs:1549-1743 | complete or not, two definitions are compatible exactly when what both give of them is one layout value |
| `LayoutSignature.LayoutExactly` | exegesis/src/reader.rs:1549-1600 | so it is of two ids, which one canonical also makes compatible whether it has a type or not |
| `Groups.CompatibleNamedAliases` | exegesis/src/reader.rs:1440-1526 | one group's aliases and canonical count are the first-fit partition of its definitions, most detailed first, with declarations joining a sole class |
| `Canonicals.GroupedNamesakes` | exegesis/src/reader.rs:860-866 | two types are in one group exactly when they are the same sort of type under one name in one namespace |
| `Canonicals.TakenByRank` | exegesis/src/reader.rs:1451-1459 | definitions are taken by how much they record, members and variants counted twice, parameters, enumerators and a discriminant once, and then by id |
| `Canonicals.CanonicalOutranks` | exegesis/src/reader.rs:1440-1526 | a definition is aliased only to a compatible one that records more, or as much under a lower id |
| `Canonicals.FullestLeads` | exegesis/src/reader.rs:1528-1545 | a definition that fills at the same length all another fills, and something besides, is never aliased to it |
| `Canonicals.CanonicalExactly` | exegesis/src/reader.rs:1440-1545 | under `Uniform`, a pass sends a definition to the highest ranked of all definitions compatible with it, and to no other |
| `GroupFacts.ClassesFacts` | exegesis/src/reader.rs:1470-1481 | classes are disjoint, cover the definitions, lead with their best member, are compatible with it, and have pairwise incompatible heads, whatever the comparison is like |
| `GroupFacts.DeclarationLookup` | exegesis/src/reader.rs:1502-1520 | a declaration is aliased to the sole class, to the lowest declaration when there is no class, and to nothing between several |
| `GroupFacts.AliasesDescend` | exegesis/src/reader.rs:1453-1520 | every alias goes from declaration to definition or down in (detail, id), to an id of the group that has no alias itself |
| `GroupFacts.SoleCanonical` | exegesis/src/reader.rs:1489-1525 | a group that counts one canonical sends everything in it to one id |
| `Passes.DescendingIsAcyclic` | exegesis/src/reader.rs:1453-1520 | base links and aliases together never close a loop, so every map of the named passes is acyclic |
| `Passes.MapOfDescends` | exegesis/src/reader.rs:1206-1211 | the map built from any groups' lower aliases over a base keeps every base entry and otherwise only goes down |
| `Dependence.ResultDependsOn` | exegesis/src/reader.rs:691-707 | a group whose dependencies' labels identify what they did is partitioned exactly as it was |
| `DependencyIndex.GroupIndex` | exegesis/src/reader.rs:753-762 | the index sends each group's key to that group |
| `DependencyIndex.ReferencedExactly` | exegesis/src/reader.rs:801-834 | the references followed are the types of a definition's parts, and no others |
| `DependencyIndex.GroupReached` | exegesis/src/reader.rs:839-858 | following anonymous pointers and arrays for at most 32 types finds the group of the first named type, if there is one |
| `DependencyIndex.GroupDependencies` | exegesis/src/reader.rs:773-800 | the groups the definitions outside the by-name duplicates reach, and no others |
| `DependencyIndex.DependenciesCover` | exegesis/src/reader.rs:773-858 | the index leaves out no group a comparison inside the group looks at, though it skips the by-name duplicates |
| `Worklist.SeedCovers` | exegesis/src/reader.rs:1230-1241 | a group none of whose dependencies has several canonicals is partitioned by class as it was by name |
| `Worklist.StepInStep` | exegesis/src/reader.rs:1245-1296 | repartitioning only the worklist gives the map of the next whole pass |
| `Worklist.StepRepeats` | exegesis/src/reader.rs:1276-1287 | a group that references no changed group would be partitioned by the next whole pass as by this one |
| `Worklist.EmptySettles` | exegesis/src/reader.rs:1245-1296 | an empty worklist means the whole passes have settled |
| `Worklist.SettledOnce` | exegesis/src/reader.rs:3338-3368 | repartitioning every group on every pass has at most one answer |
| `FirstPass.PartitionByName` | exegesis/src/reader.rs:1183-1199 | every group's by-name result and its dependencies |
| `FirstPass.InvertDependencies` | exegesis/src/reader.rs:1200-1205 | the referrers of a group are exactly the groups that depend on it |
| `FirstPass.BuildMap` | exegesis/src/reader.rs:1206-1211 | the map is the base overriding all groups' aliases |
| `Swapping.SwappedIsMapOf` | exegesis/src/reader.rs:1312-1332 | taking a group's old aliases out and its new ones in gives the map the new results would have built |
| `Fixpoints.Fixpoint.constructor` | exegesis/src/reader.rs:1178-1224 | the first pass establishes the invariant: by-name results, their map, and the inverted dependencies |
| `Fixpoints.Fixpoint.SwapAliases` | exegesis/src/reader.rs:1312-1332 | the map after the swap is the old one with the base put back under the old aliases and the new ones over it, and still only goes down |
| `Fixpoints.Fixpoint.Apply` | exegesis/src/reader.rs:1299-1310 | the group's result becomes current, the map follows, and the group is dirty exactly once |
| `Fixpoints.Fixpoint.Seed` | exegesis/src/reader.rs:1230-1241 | exactly the groups that reference one with several canonicals |
| `Fixpoints.Fixpoint.Pass` | exegesis/src/reader.rs:1255-1294 | one pass gives the worklist's groups the results the map before it gives them, and lists whoever references a changed one |
| `Fixpoints.Fixpoint.Cascade` | exegesis/src/reader.rs:1245-1296 | a run of such passes from the seed, ending with an empty worklist or at the limit on all passes, with the invariant kept throughout |
| `Fixpoints.Fixpoint.Place` | exegesis/src/reader.rs:1334-1348 | the base grows by the placements, no group keeps a by-class result, and the map is what the first results make of the new base |
| `Fixpoints.RunRepresents` | exegesis/src/reader.rs:1152-1171 | at every step of every cascade the map is the base over all groups' current aliases, whatever the types are like, as long as links stay in their groups |
| `Fixpoints.ResetRepresents` | exegesis/src/reader.rs:1334-1348 | and so it is after placements |
| `Fixpoints.RunKeepsUp` | exegesis/src/reader.rs:1245-1296 | the state after `k` passes of a cascade has exactly the map of the `k`th whole pass |
| `Rounds.RegularPlaced` | exegesis/src/reader.rs:1334-1348 | the conditions the result rests on survive every placement |
| `Rounds.FirstPassPlaced` | exegesis/src/reader.rs:698-706 | over a base grown by placements every by-name result has the same effect, and several canonicals exactly when it had |
| `Units.UnitOfIsOwner` | exegesis/src/reader.rs:1797-1802 | over disjoint ranges the unit found for an id is the one whose range holds it, and none is found in gaps |
| `Placement.SplitOf` | exegesis/src/reader.rs:900-939 | a group is split when its definitions have two or more classes; the tables say which unit defines which class |
| `Placement.VotesByUnit` | exegesis/src/reader.rs:955-967 | a unit votes in exactly the groups of which it defines one class |
| `Placement.SoleUnits` | exegesis/src/reader.rs:968-985 | per class, the units that define it and no other of its group |
| `Placement.Tally` | exegesis/src/reader.rs:1013-1039 | every class counted is one a vote is for, and unless two disagree every such class is counted: the early exit and the order of votes change no verdict |
| `Placement.Decide` | exegesis/src/reader.rs:1000-1050 | a declaration is placed exactly when its unit elects one class, and otherwise reported with the one reason that applies |
| `Placement.PlaceDeclarations` | exegesis/src/reader.rs:883-1055 | a round's placements and reports are those the rule over sets gives, each standing declaration once when no id is in two groups |
| `Siblings.SiblingsExactly` | exegesis/src/reader.rs:927-997 | one group's evidence counts for another's declarations exactly when the paths of their lowest types name a crate in common |
| `Siblings.PlacedExactly` | exegesis/src/reader.rs:986-1050 | a round places a standing declaration in a class exactly when akin groups, as its unit defines them, vote for that class and no other |
| `Siblings.OneSiblingPlaces` | exegesis/src/reader.rs:868-882 | one sibling suffices where the unit is silent on the declaration's own group and on the other siblings |
| `RoundFacts.RoundPlaceable` | exegesis/src/reader.rs:1040-1050 | a round places only declarations the base leaves alone, and only onto definitions |
| `RoundFacts.PlacedInGroup` | exegesis/src/reader.rs:1043-1045 | a placement targets a definition class of the declaration's own group |
| `RoundFacts.PlacedShrinks` | exegesis/src/reader.rs:738-745 | a round that places anything leaves fewer unplaced declarations |
| `RoundFacts.ResetKeepsStep` | exegesis/src/reader.rs:1334-1348 | after a reset the state is where a first pass over the grown base would be |
| `Reference.WholeSettlesOnce` | exegesis/src/reader.rs:3338-3368 | the reference of whole passes and placements has at most one answer |
| `Settle.Turn` | exegesis/src/reader.rs:717-745 | one round of the code is a round of the history: a cascade within the passes left, a decision over exactly the groups with several canonicals, and the way back to the first pass when it places anything |
| `Settle.SettleNamed` | exegesis/src/reader.rs:708-749 | ends with a complete history of rounds, whose counts are the report's; the map is acyclic, the last round places nothing, at most 64 passes in all; under `Strong` it is the reference's map with as many passes, at the limit and below it, and below it the settled one; under `Uniform` also the coarsest stable partition over the grown base |
| `Histories.CompletesSound` | exegesis/src/reader.rs:708-749 | every settling, whatever the types: the base grows by declarations only, no link of base or map goes up, and the last round leaves nothing to place |
| `Histories.CompletesInGroups` | exegesis/src/reader.rs:1186-1360 | with links that stay in their groups the final map is the base and the groups' aliases, and each standing declaration is reported once |
| `Histories.CompletesAsWhole` | exegesis/src/reader.rs:691-707 | the rounds of a settling are rounds of the reference, passes spent and left included |
| `Settle.CompletesCoarsest` | exegesis/src/reader.rs:691-707 | below the limit the map of a settling is the coarsest stable partition over the base as placements have grown it |
| `Reordering.WholeRunsAnyOrder` | exegesis/src/reader.rs:648-663 | permuting the groups, or the ids inside them, leaves what the reference reaches with as many passes as it was, at the limit too |
| `Mirrors.RunMirrors` | exegesis/src/reader.rs:1245-1296 | two cascades over the same groups in different orders have, pass by pass, one map and group by group one result and one place on the worklist |
| `SameHistory.SettledAnyOrder` | exegesis/src/reader.rs:648-663 | two settlings over the same groups in different orders, whatever the types are like, end with one map over one base, in as many rounds, passes and repartitions, with the same declarations placed and reported |
| `Coarsest.PassIsQuotient` | exegesis/src/reader.rs:1440-1526 | a pass gives two named types one canonical exactly when the labels it compares by relate them, so it is the quotient by an equivalence |
| `Coarsest.PassesRefine` | exegesis/src/reader.rs:1245-1296 | what a pass keeps together, every pass before it kept together |
| `Coarsest.CoarsestStablePartition` | exegesis/src/reader.rs:1440-1743 | the settled classes are a stable partition and every stable partition refines them |
| `Coarsest.PassesSettle` | exegesis/src/reader.rs:213-217 | the whole passes always settle, within as many passes as the first kept pairs |
| `Chains.ChainSettles` | exegesis/src/reader.rs:213-217 | for every number of passes there is a table, complete and with alignments alike, on which the whole passes first settle at exactly that pass |
| `Chains.ChainMeetsLimit` | exegesis/src/reader.rs:1245-1254 | whatever the limit, every settling of a chain longer than it uses up all passes and ends unsettled, with every comparison transitive |
| `Structural.FileStructures` | exegesis/src/reader.rs:667-684 | anonymous pointers are filed by their target's canonical, arrays by their element's and their count |
| `Structural.AliasToLowest` | exegesis/src/reader.rs:1925-1934 | all ids but the lowest are sent to the lowest |
| `Structural.SameLengthSameMap` | exegesis/src/reader.rs:685-688 | a round that leaves the map's length leaves the map |
| `Structural.MergedIsIdentity` | exegesis/src/reader.rs:1602-1645 | at the end two references share a canonical exactly when the partition calls them one, function signatures apart |
| `Structural.CloseStructures` | exegesis/src/reader.rs:665-690 | if every linked declared anonymous type is filed with a lower one the loop ends, links only go down or stay the named map's, and nothing is merged that some congruence over the named map keeps apart; with no links between anonymous types, these share a canonical exactly when their targets (elements and counts) do, it is the lowest id, and nothing the partition's identity separates is merged |
| `Structural.FirstRoundAcyclic` | exegesis/src/reader.rs:664-690 | over links between like structures, the first round closes no cycle if and only if no linked declared anonymous type is the lowest of its bucket |
| `Structural.FirstRoundExactly` | exegesis/src/reader.rs:664-690 | over any links, the first round closes no cycle if and only if the jumps, through its other links, from one declared anonymous type that stays linked to the next close none |
| `Structural.LowestLinkedLoops` | exegesis/src/reader.rs:664-690 | a linked type that is the lowest of the bucket it is linked into makes the round close a cycle |
| `Structural.SendsDownAcyclic` | exegesis/src/reader.rs:664-690 | links down from anonymous types, over any named map whose declared anonymous types go down too, close no cycle |
| `Specifications.FoldSpecifications` | exegesis/src/reader.rs:522-551 | each id is sent where the last link, by id, that folds it sends it |
| `Specifications.FoldedDescends` | exegesis/src/reader.rs:535-550 | every folded link goes from declaration to definition or to the lower id exactly when no DIE is left as its own specification |
| `Specifications.FoldedAcyclic` | exegesis/src/reader.rs:535-550 | the folded links are acyclic exactly then |
| `Specifications.InheritOnlyNames` | exegesis/src/reader.rs:1749-1795 | inheriting fills in absent names and namespaces and changes nothing else |
| `Specifications.ProperLinksClosed` | exegesis/src/reader.rs:1749-1795 | links from definitions to complete, like-named declarations keep to their groups |
| `Finalize.GroupByName` | exegesis/src/reader.rs:648-662 | the groups are the named types by kind, namespace and name, each key once |
| `Finalize.AliasSubstitutions` | exegesis/src/reader.rs:647-690 | all that is known of the settled names (a complete history of rounds with the report's counts, the reference at and below the limit, the coarsest partition, nothing left to place over the last round's split groups, each report once, aliases between named types only) and of their structural closure, down to when its merging is the partition's identity; asks of declared anonymous types only that settled links file them with a lower one |
| `Finalize.AboveSettles` | exegesis/src/reader.rs:647-690 | a linked declared anonymous type that the folded links file with a lower one is filed with one wherever the names settle |
| `Finalize.UndeclaredAbove` | exegesis/src/reader.rs:522-551 | links that fold no declared anonymous type away always meet that condition |
| `Finalize.IndexDefinitions` | exegesis/src/reader.rs:576-582 | the folded definitions under their canonicals, strictly ascending |
| `Finalize.TypeDefinitions` | exegesis/src/reader.rs:1818-1836 | exactly the non-declaration DIEs sharing the canonical, strictly ascending |
| `Finalize.SameForEveryAlias` | exegesis/src/reader.rs:1812-1836 | every alias of a type enumerates the same definitions |
| `Finalize.Convention` | exegesis/src/provenance.rs:51-79 | Ok(k) exactly when there is a definition and every definition's unit is known, names a producer and answers k when its turn comes; otherwise the first definition that breaks this says how |
| `Finalize.UnitExactly` | exegesis/src/reader.rs:1797-1802 | over units that do not overlap, a DIE is of the unit whose range from root to end holds it |
| `Finalize.Reader.FinalizeTypes` | exegesis/src/reader.rs:522-584 | with no self-linked DIE, links that keep to their groups, and linked declared anonymous types filed with lower ones, finalization ends with the links folded, the names settled, the structures closed without a cycle, and the definitions indexed |
| `Finalize.Reader.TypeConvention` | exegesis/src/provenance.rs:51-79 | Ok(k) exactly when the type has a definition and each definition that shares its canonical, asked in order of a selector that may change its answers, supports k; for one that does not, whatever the order; otherwise the reason the first definition in order gives |
| `Counterexamples.EmptyListsBreakTransitivity` | exegesis/src/reader.rs:1647-1665 | three definitions, one with no members recorded, on which the layout test is not transitive |
| `Counterexamples.AbsentAlignmentsBreakTransitivity` | exegesis/src/reader.rs:2114-2116 | three base types, one with no alignment recorded, on which it is not either |
| `Transitivity.CompatibleTransitive` | exegesis/src/reader.rs:1549-1743 | two definitions that go with a third go together if and only if every list and alignment the third leaves out and both fill, they fill alike |
| `Transitivity.LayoutTransitive` | exegesis/src/reader.rs:1549-1743 | so it is of any three definitions one pass may compare |
| `Transitivity.UniformTransitive` | exegesis/src/reader.rs:1549-1743 | the layout test of a pass is transitive on complete definitions with alignments alike |
| `Counterexamples.LinkedArraysLoop` | exegesis/src/reader.rs:664-690 | a declared array specified by a higher one of the same kind, on which the structural round closes a loop |
| `StripedIds.DecodeInverts` | exegesis/src/string_table.rs:40-53 | decoding gives back shard and index exactly when they fit the word and are not the pair whose id would be zero |
| `StripedIds.RoomInShard` | exegesis/src/string_table.rs:28-43 | a shard takes 2^24 strings or 2^56 namespaces, the last one fewer |
| `StripedIds.OverflowCollides` | exegesis/src/raw_types.rs:123-134 | past the word an entry gets the id of an earlier one of its shard |
| `StripedIds.EncodeInverts` | exegesis/src/raw_types.rs:123-134 | every id decodes to the pair that encodes to it |
| `StripedTables.SameIdSameKey` | exegesis/src/string_table.rs:68-88 | ids are equal exactly when the keys are |
| `StripedTables.GetInverts` | exegesis/src/string_table.rs:177-181 | looking an id up gives the key whose id it is |
| `StripedTables.InternSound` | exegesis/src/string_table.rs:68-88 | the step under one shard's lock keeps index and entries one to one |
| `StripedTables.InternExtends` | exegesis/src/raw_types.rs:142-153 | an id once given is never taken back, nor what it stands for changed |
| `StripedTables.InternCounted` | exegesis/src/string_table.rs:68-88 | every interning is counted once, as an entry or as a duplicate |
| `Interning.StepSound` | exegesis/src/raw_types.rs:170-190 | every step of every worker (cache miss, cache fill, check, read of the parent's depth, insert) keeps the invariant |
| `Interning.RunSound` | exegesis/src/raw_types.rs:141-202 | so every state of every run, however steps interleave, satisfies it |
| `Interning.StringsLinearize` | exegesis/src/reader.rs:2151-2174 | answers of any workers at any times are one id exactly when the strings are one; the final table gives the string back; the caches answer what the table would |
| `Interning.DepthIsLength` | exegesis/src/raw_types.rs:176-185 | the depth kept is the number of names on the path, so parent chains are finite |
| `Interning.OneEntryPerPair` | exegesis/src/raw_types.rs:142-153 | one entry per parent and name, races included |
| `Interning.PathIsIdentity` | exegesis/src/raw_types.rs:170-190 | two namespace ids are one exactly when their full paths are |
| `Interning.UnitsAgree` | exegesis/src/reader.rs:2029-2039 | namespaces of any two units share a global id exactly when their full paths are equal |
| `Interning.MeasureNeverFails` | exegesis/src/raw_types.rs:176-190 | the parent whose depth is read without a lock held is always there |
| `InternTables.NamespaceTable.Insert` | exegesis/src/raw_types.rs:78-95 | the entry it answers with is the only one with its path; one entry per pair, parents first, depth the length of the path, earlier entries untouched |
| `InternTables.FrozenStrings.Intern` | exegesis/src/string_table.rs:170-175 | while the shard has room, the id found from then on with every earlier id kept; past its last index the id of another string, or none and nothing changed |
| `InternTables.FrozenStrings.Get` | exegesis/src/string_table.rs:177-181 | the string whose id it is |
| `InternTables.FrozenStrings.Find` | exegesis/src/string_table.rs:183-187 | an id of the string, or no entry has it |
| `TypeTables.UniqueNamed` | hansei-bundle/src/schema.rs:382-392 | a position exactly when one and only one bears the name |
| `TypeTables.MemberFound` | hansei-bundle/src/io.rs:54-58 | an address finds a member exactly when it gives its position, or its name and no other member has it |
| `TypeTables.VariantFound` | hansei-bundle/src/io.rs:70-80 | a name finds a variant exactly when that one and no other has it |
| `TypeTables.ArraySize` | hansei-bundle/src/schema.rs:1077-1101 | the cycle guard is not seen from outside: an array is as large as its elements together, when that is known and fits |
| `TypeTables.SizeExactly` | hansei-bundle/src/schema.rs:1077-1101 | a type has a size exactly when its chain of elements comes to a type that declares one and the products fit all the way back |
| `Paths.SelectorTarget` | hansei-bundle/src/io.rs:113-256 | the loop follows the path step by step, fault for fault, under either policy |
| `Routes.TargetExactly` | hansei-bundle/src/io.rs:113-256 | a path lands on a type exactly when there is a route of legs to it, each one its step allows, to a type its run has not been at, and under the strict policy by name, outside unions, to a sized member that ends no later than its parent |
| `Routes.FaultExactly` | hansei-bundle/src/io.rs:113-256 | it fails for a reason exactly when such a route leads to a step to which that reason, and none before it, applies |
| `Paths.FollowInside` | hansei-bundle/src/io.rs:120-152 | after every step of an accepted semantic path, offset plus landed size is within the type heading the run since the last pointer |
| `Paths.TargetNeverOverflows` | hansei-bundle/src/io.rs:146-151 | the inline-overflow error cannot be reached, on any path |
| `Paths.StrictIsLenient` | hansei-bundle/src/io.rs:86-111 | what the strict policy accepts the lenient one accepts, landing on the same type |
| `Paths.SelectorOffset` | hansei-bundle/src/io.rs:258-287 | the sum of the offsets of a path within one allocation, or none |
| `Routes.OffsetExactly` | hansei-bundle/src/io.rs:258-287 | it answers exactly when there is a route that crosses no pointer and leaves no variant open, and then with the sum of its offsets |
| `Paths.OffsetInsideRoot` | hansei-bundle/src/io.rs:258-287 | on an accepted semantic path that crosses no pointer the resolver finds an offset, and the datum there lies inside the root |
| `FanOut.WalkExact` | hansei-bundle/src/io.rs:296-364 | the fan-out's answer sums up the outcomes of all choices of live variant: all landings, listed, or one of the faults |
| `FanOut.FanOutIsExact` | hansei-bundle/src/io.rs:296-364 | it succeeds exactly when every choice resolves, and lists precisely those landings |
| `Descriptions.WalkedRoutes` | hansei-bundle/src/io.rs:296-364 | the types an accepted path lists are the ends of its routes |
| `FanOut.CheckersAgree` | hansei-bundle/src/io.rs:113-256 | where no live variant is taken, the two checkers accept the same paths, land alike and fault alike |
| `FanOut.WalkAll` | exegesis/src/describe.rs:91-195 | the describer's loop, which recurses at a live variant, lists every path of the description in variant order |
| `Descriptions.DescribesExactly` | exegesis/src/describe.rs:91-195 | whatever the path and the table, it tells every route, to the end or to the step no leg takes and why, with one hop a leg and the bytes since the last pointer, and tells nothing else |
| `Descriptions.DescribedRoutes` | exegesis/src/describe.rs:91-195 | on a path the fan-out accepts, it tells exactly the whole routes: a hop for each step that names the member or variant taken, and the offset from zero at the last pointer |
| `Descriptions.ToldByResolver` | exegesis/src/describe.rs:91-195 | that offset is the resolver's for the steps after the last pointer along the variants taken |
| `FanOut.AlwaysDescribes` | exegesis/src/describe.rs:197-205 | some landing is always described |
| `FanOut.DescribedWhereWalked` | exegesis/src/describe.rs:91-195 | on a path the fan-out accepts, the description lands on the same types in the same order |
| `FanOut.DescribedOffset` | exegesis/src/describe.rs:91-195 | within one allocation it gives the resolver's offset |
| `DieStreams.Cursor.ConsumeEntry` | exegesis/src/cgu.rs:1331-1349 | from an entry to the last token of its subtree |
| `DieWalk.ProcessResumeVar` | exegesis/src/cgu.rs:1005-1027 | a variable goes to the awaits, the locals or neither, by its name |
| `DieWalk.CollectResumeVars` | exegesis/src/cgu.rs:966-995 | the depth-counting loop stops on the block's last token with exactly the awaits and locals of the pre-order traversal |
| `SelectArms.CollectSelectArms` | exegesis/src/cgu.rs:889-958 | one arm per outermost typed reference, with exactly the differently-filed variables after it up to the close of its block |
| `SelectArms.BindingsExactly` | exegesis/src/cgu.rs:941-948 | a variable adds its place to the arm exactly when it is not called `fut` and its file is known and another than the reference's |
| `SelectArms.ArmOpens` | exegesis/src/cgu.rs:929-940 | the first typed variable called `fut` in a block opens an arm that takes all that follows |
| `SelectArms.NoArm` | exegesis/src/cgu.rs:889-958 | a block without such a variable has no arm |
| `SplitIds.PlanJobs` | exegesis/src/reader.rs:295-350 | a job for every readable unit in order, package units stacked past the main section; otherwise how many skeletons there are and how many were found |
| `SplitIds.SpansApart` | exegesis/src/reader.rs:303-340 | no two units share an id |
| `SplitIds.IdsInjective` | exegesis/src/cgu.rs:50-68 | a DIE's id tells its unit and its offset |
| `SplitIds.OriginOfDie` | exegesis/src/reader.rs:1797-1802 | looking a DIE's id up gives back its own unit |
| `SplitIds.OriginExactly` | exegesis/src/reader.rs:1797-1802 | an id has an origin exactly when it is a DIE's, headers and gaps having none, and it is the unit of that DIE |
| `SplitIds.ReferencesAgree` | exegesis/src/cgu.rs:69-80 | a reference, within the unit or within the section, gives the id of the DIE it means, and two of either spelling give one id exactly when they mean one DIE |
| `BitFields.OverlapIsMask` | hansei-bundle/src/io.rs:563-572 | the mask test finds exactly the fields that overlap an earlier one |
| `BitFields.CheckScalarDecode` | hansei-bundle/src/io.rs:525-590 | over words of any width a table is accepted exactly when it is non-empty, resolvable, in range and disjoint and no shift reaches 64; there is no answer exactly when the loop comes to a field whose shift does, which no word of at most 64 bits allows |
| `BitFields.AcceptedByBits` | hansei-bundle/src/io.rs:525-590 | bit by bit: a field has the bits of its width, or without a width all from its shift on; all are in the word, the values named fit them, and none is of two fields |
| `BitFields.WordRebuilt` | hansei-bundle/src/schema.rs:474-509 | a word is what its fields' values and its uncovered bits make |
| `BitFields.WordUnique` | hansei-bundle/src/schema.rs:474-509 | words with the same field values and the same uncovered bits are one |
| `BitFields.ValuesReadBack` | hansei-bundle/src/schema.rs:474-509 | the fields of a word made from values are those values |
| `Discriminants.SignedValue` | exegesis/src/raw_types.rs:460-471 | every signed number of every width is widened back to itself |
| `Discriminants.UnsignedValue` | exegesis/src/raw_types.rs:460-471 | so is every unsigned one a signed 128-bit number can hold, and only those |
| `Discriminants.TagIsModulo` | exegesis/src/raw_types.rs:473-484 | the tag bits are the number modulo what the tag holds |
| `Discriminants.TagsDiffer` | exegesis/src/raw_types.rs:473-484 | distinct constants a tag can hold have distinct tag bits |
| `Discriminants.MatchesItsOwn` | hansei-bundle/src/schema.rs:1292-1300 | a variant of one constant matches exactly the tags that hold its number |
| `Discriminants.MatchesRange` | hansei-bundle/src/schema.rs:1292-1300 | a range of constants on one side of zero matches exactly the tags of the numbers between; one that reaches over zero matches none |
| `Discriminants.MatchesAny` | hansei-bundle/src/schema.rs:1292-1300 | a list of values and ranges matches what any of them does |
| `NameIndex.FindByName` | hansei-bundle/src/schema.rs:1103-1120 | the binary search over a sorted index returns a prefix of what a scan would, and all of it exactly when the name is not empty or no dangling ref comes before an empty text |
| `NameIndex.TypeTable.BuildNormalizedIndex` | hansei-bundle/src/schema.rs:1148-1166 | one entry per named row, its hash and position, sorted |
| `NameIndex.TypeTable.FindByNormalizedName` | hansei-bundle/src/schema.rs:1122-1146 | the hash search returns what filtering every row by sameness would, in the same order |
| `NameIndex.CheckNormalizedIndex` | hansei-bundle/src/io.rs:1540-1564 | accepted exactly when it has as many entries as rows, hashes in order and each position once |
| `NameIndex.CheckedCovers` | hansei-bundle/src/io.rs:1536-1539 | an accepted index covers every row |

## Left out

- Decoding of DWARF: attribute forms, location expressions and line tables. The model starts from
  balanced entry streams and parsed types; leaf tags are taken to own no children.
- Bundle framing, compression, serialization and file access.
- Thread pools, batching, timing and tracing. Locks are kept as atomic steps; parallel maps over
  groups or names are loops.
- Source locations, which take no part in identity, and the names a pointer had before it
  inherited one.
- The names in the crate paths behind `Evidence.crates`: which crates a type's path names is an
  input.
- Strings as bytes and hash functions: texts are opaque or ranks in byte order, shard choice,
  name hashes and sameness of normalized names are arbitrary fixed functions.
- Error message texts: faults are named, not spelled.
- `freeze` itself: it moves the shards out of their locks, so a frozen table is the table the
  last step left.
- FanOut.WalkAll: keeps the chain of hops as a list; joining it to text is not modelled. Offsets add
  up modulo 2^64, as in builds without overflow checks.
- BitFields.CheckScalarDecode: gives no answer where a shift overflows; builds without overflow
  checks, in which the shift wraps around, are not modelled.
- NameIndex.CheckNormalizedIndex: like the code, does not compare the hashes with the names, nor
  the positions within one hash.
- Paths.SelectorTarget: the step and type numbers in error texts are not kept.
- Display-name folding, text rendering, the extractor's detectors and the run-time evaluator.
