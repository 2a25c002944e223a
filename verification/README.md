# Salto core algorithms, modelled and proved in Dafny

The models follow four parts of the Salto monorepo and prove what these parts are for.

* **Dependency graphs and cycle-free grouping** (`packages/dag`). The node map with its reverse
  index is a class; cycle search, components, evaluation groups and the asynchronous walk are
  methods on it. A handler of the walk settles at any point, so the contract of the walk holds for
  every interleaving. Grouping splits groups that are on a cycle of groups and no others, and drops
  only the nodes of a cycle of groups of which none can be split; such a cycle is proved to be a
  cycle of the source (the claim of the comment in `group.ts`), and nodes are dropped if and only
  if the source has a cycle across groups.
* **Structural diff and patch with list reordering** (`packages/adapter-utils`). The index mapping
  of two lists is computed in four passes and proved to meet the contract of its comment. The
  changes between two values are described by a delta, a tree that says part by part what became
  what. For every mapping that meets the contract it is proved exactly when applying the changes
  gives the value after, and applying the reversed changes the value before; what is set may leave
  holes and named properties in lists on the way.
* **Name encoding** (`naclCase` and `invertNaclCase`): decoding undoes encoding for every sequence
  of UTF-16 code units.
* **The editor's queue of file updates** (`packages/lang-server`): a state machine whose steps are
  the pieces of code between two waits.

## How the parts fit together

`Graphs` has the theory of walks and cycles; `NodeMap`, `Cycles`, `EvaluationOrder` and `DagWalk`
model `nodemap.ts`; `GroupGraph`, `GroupSplit`, `GroupCycles`, `GroupBuild` and `DisjointGroups`
model `group.ts`.
`ListMapping` and `IndexMapping` model the mapping, `EqualItems` says what it does with items in both
lists, `ListPatch` models the update of one list, `IndependentIds` and `IndependentChanges` the filter
of nested changes, `Diff` the changes and their reversal, `Patch` their application, and `PathChanges`
what it does with changes that come from elsewhere. `Spots` leads from the ids of changes to places in the
value, `Progress` and `ListProgress` say what the value can be when some of the changes are applied,
`Strays` is about changes inside moved items that the filter lets through, `Replay` about one step of
the application, and `RoundTrip` puts these together; `RoundTripLimit` and `RoundTripThrows` have
the examples. `NaclCase` and `NaclIdentifiers` model the names, `EditorQueue` and `EditorHistory` the
queue. `Sorting`, `Values`, `Changes` and `Wrappers` are shared.

## Where the code differs from what it promises

* **Nested changes of moved items.** `getIndependentElemIDs` sorts ids as comma-joined strings. A
  name with a comma followed by a character below the comma can sort between an id and an id below
  it, and the id below is then kept. `GetIndependentIsExact` says exactly when the filter is right.
  A change kept by mistake is set inside an item that is still to be moved. Mostly the move puts
  something else there anyway; but if the item's new index is past the end of the list before, the
  list gets an item that its own changes know nothing of, and ends with an item too many.
  And a list inside an item can be removed before its own changes have their turn, which then
  throw. `DiffThenPatchIff` and `ReverseThenPatchIff` say that this is all that can go wrong: the
  round trip holds if and only if no change that is set one by one puts something into a moved item
  past the end of its list (`NoStray`) and every group of item changes comes upon a list
  (`Applies`), which it does unless one is inside a moved item (`NoStrayList`). `RoundTripFails` and
  `ApplyingThrows` give two objects each, with what comparing them item by item reports, for which
  the one and the other goes wrong. If the filter is right the round trip holds (`DiffThenPatch`),
  and with keys that have only characters above the comma the filter is right (`PlainRoundTrip`).
* **Names of inherited properties.** Keys are looked up in plain objects without a test for own
  properties (`packages/adapter-utils/src/compare.ts:137-138`,
  `packages/adapter-utils/src/list_comparison.ts:178,205`), and the library that sets values refuses
  some names. From `{ toString: 'x' }` to `{}` the code reports a change of `toString` to the
  inherited function, not its removal, and applying it does not give `{}`. Comparing the lists
  `['constructor']` and `['x']` item by item calls `shift` on the inherited constructor, which
  throws. The models have no inherited properties: what they say of the diff, the list mapping and
  the round trips holds of the code if no key of an object and no key of a list item names a member
  of the object or array prototype, and no key is `prototype`.
* **A call without files.** If `setNaclFiles` or `removeNaclFiles` is called with nothing while the
  queue is idle, the drain ends before the field that holds its promise is assigned, and nothing
  ever clears that field: later updates stay pending although their promise is settled.
  `HealthyUnlessEmptyCall` says that this call, and no other, breaks the queue.
* **Set, then delete.** Deletes of a batch go before its sets, so a delete is lost if and only if a
  set of the same file is pending when it is asked for (`DeleteDestines`).

## Model

| member | source | states |
|---|---|---|
| NodeMaps.NodeMap.CreateReverseNeighbors | packages/dag/src/nodemap.ts:121-127 | the reverse index built from the entries is their exact transpose |
| NodeMaps.NodeMap.AddEdge | packages/dag/src/nodemap.ts:208-213 | adds exactly this edge and the nodes it needs; the reverse index stays the transpose |
| NodeMaps.NodeMap.RemoveEdge | packages/dag/src/nodemap.ts:199-206 | removes exactly this edge, creates no node; the reverse index stays the transpose |
| NodeMaps.NodeMap.DeleteNode | packages/dag/src/nodemap.ts:167-177 | leaves the graph without the node and its edges, returns its dependents, self-loops included; the reverse index stays the transpose |
| NodeMaps.NodeMap.ClearEdges | packages/dag/src/nodemap.ts:215-219 | keeps the nodes and their data, no edge is left in either index |
| NodeMaps.NodeMap.Clone | packages/dag/src/nodemap.ts:353-355 | a new map with the same graph and data |
| NodeMaps.NodeMap.CloneWithout | packages/dag/src/nodemap.ts:323-328 | a new map without the given nodes, their edges and their data |
| NodeMaps.NodeMap.AddNode | packages/dag/src/nodemap.ts:313-316 | adds the node, its dependencies and exactly the edges to them |
| Cycles.HasCycle | packages/dag/src/nodemap.ts:231-239 | true exactly when a visited node or a cycle can be reached; ends although it searches with copies of the visited set |
| Cycles.DoesCreateCycle | packages/dag/src/nodemap.ts:431-444 | true exactly when a cycle is reachable with the dependencies replaced; afterwards the edges are the old ones, with empty nodes added at most |
| Cycles.GetCycleFrom | packages/dag/src/nodemap.ts:242-258 | the colouring search: no cycle from here means everything reached is settled, otherwise the path closes a simple cycle |
| Cycles.GetCycle | packages/dag/src/nodemap.ts:241-264 | nothing exactly when the graph is acyclic, otherwise consecutive edges that form a simple closed cycle |
| Cycles.SimpleCycleIsClosedWalk | packages/dag/src/nodemap.ts:241-264 | the reported edges are a closed walk, so the nodes on it are on a cycle |
| Cycles.GetComponent | packages/dag/src/nodemap.ts:266-296 | exactly the nodes reachable from the roots through admitted nodes, in either direction |
| EvaluationOrder.EdgeGoesToEarlierGroup | packages/dag/src/nodemap.ts:359-384 | a dependency is in a strictly earlier evaluation group |
| EvaluationOrder.EvaluationOrderGroupsDestructive | packages/dag/src/nodemap.ts:359-380 | group k is exactly the nodes whose longest dependency chain has length k, and exactly the nodes that reach a cycle are left over |
| EvaluationOrder.EvaluationOrderGroups | packages/dag/src/nodemap.ts:359-380 | the same for the copy, leaving the graph alone |
| DagWalk.SetError | packages/dag/src/nodemap.ts:84-100 | marks exactly the node and what depends on it, each dependent with a skip error that names a node marked with it, in place of any error it had |
| DagWalk.FinalSplit | packages/dag/src/nodemap.ts:386-403 | when nothing runs any more, succeeded, errored and circular nodes are determined by the graph and the failing handlers alone |
| DagWalk.OnSuccess | packages/dag/src/nodemap.ts:389-396 | a success keeps the invariant of the walk: the free nodes left are exactly those running or failed |
| DagWalk.OnFailure | packages/dag/src/nodemap.ts:394-396 | a failure keeps the invariant of the walk and starts nothing |
| DagWalk.WalkAsyncDestructive | packages/dag/src/nodemap.ts:386-403 | over every interleaving: each node starts at most once and after all its dependencies succeeded, and whenever a handler settles every node whose dependencies have all succeeded has been started; who succeeds, fails, is skipped or circular is independent of the schedule; a failed node keeps its own error, and a skip names a dependency on the way to the last failure the node depends on |
| DagWalk.WalkAsync | packages/dag/src/nodemap.ts:405-407 | the same on a copy, leaving the graph alone |
| GroupGraph.BuildPossiblyCyclicGroupGraph | packages/dag/src/group.ts:111-137 | the group graph is the quotient: the groups partition the nodes with their data, and group edges are exactly those between members of different groups |
| GroupSplit.GetComponentWithoutNodesToAvoid | packages/dag/src/group.ts:31-47 | exactly one possible start with everything it depends on in the group, none of it a node to avoid, or else every possible start reaches one of them |
| GroupSplit.GetNewGroupToCreate | packages/dag/src/group.ts:60-83 | the part split off is exactly an entry of the group with all it depends on there; it is not the whole group, depends on nothing left behind and has no edge to the next group; if there is none, every entry reaches an exit |
| GroupSplit.CrossGroup | packages/dag/src/group.ts:97-101 | in a group that cannot be split, every entry has a walk through the group to an entry of the next group |
| GroupSplit.CrossGroups | packages/dag/src/group.ts:97-101 | so there is a walk through any number of groups of the cycle |
| GroupSplit.StuckMeansSourceCycle | packages/dag/src/group.ts:97-101 | if no group on a cycle of groups can be split, the source has a closed walk through every one of these groups |
| GroupBuild.SplitAddsGroup | packages/dag/src/group.ts:78-95 | a split makes exactly one group more |
| GroupBuild.SplitCrossing | packages/dag/src/group.ts:93-95 | a cycle that crosses groups after a split crossed groups before it |
| GroupBuild.FewerGroupsThanNodes | packages/dag/src/group.ts:197-233 | there are never more groups than nodes, so splitting comes to an end |
| GroupBuild.ModifyGroupKeyToRemoveCycle | packages/dag/src/group.ts:49-109 | either a proper split of a group on the cycle, by an entry with all it depends on in the group and with no edge on along the cycle, or no group on it can be split and the nodes reported are those of the cycle's groups |
| GroupBuild.SourceCycleCrosses | packages/dag/src/group.ts:97-109 | the source cycle behind a stuck cycle crosses groups and lies in the reported nodes |
| GroupCycles.CycleOfPieces | packages/dag/src/group.ts:93-95 | a group that was left whole while others were split is on a cycle of the pieces only if it is on a cycle of the groups |
| GroupBuild.RemoveCycle | packages/dag/src/group.ts:49-109 | the remedy for a cycle of groups: such a split of a group on a cycle, or the nodes of the groups of one, of which none can be split |
| GroupBuild.BuildAcyclicGroupedGraphImpl | packages/dag/src/group.ts:197-233 | ends; the result is the acyclic quotient that a chain of steps leads to, each a split that cuts a cycle of groups, or the removal of exactly the nodes of a cycle of groups of which none can be split at that point |
| GroupBuild.StepsOutcome | packages/dag/src/group.ts:197-233 | whatever the steps: the groups refine the given ones, a node gets another key only if its group was on a cycle of groups, and each removed batch is disjoint from the earlier ones and holds a source cycle across groups |
| GroupBuild.RemovesIffCrossing | packages/dag/src/group.ts:209-231 | nodes are removed if and only if the source has a cycle across groups; an acyclic source loses nothing |
| GroupBuild.LeftAloneIffAcyclic | packages/dag/src/group.ts:202-216 | if the groups have no cycle nothing is removed and every group that is not marked disjoint stays as it is, and if nothing is removed or split the groups had no cycle |
| GroupBuild.EvaluationRespectsSource | packages/dag/src/group.ts:197-216 | evaluating the groups in order meets every dependency between groups first |
| DisjointGroups.BreakToDisjointGroup | packages/dag/src/group.ts:139-163 | two members keep one key if and only if the longest dependency chains inside the group that start at them are equally long, and the group keeps its key if and only if nothing in it depends on anything in it; or else the nodes reported are exactly those that reach a cycle inside it |
| DisjointGroups.BreakToDisjointGroups | packages/dag/src/group.ts:165-188 | every marked group is broken up that way, and no edge is left inside a group that comes from a marked one; fails exactly when a marked group is cyclic inside, with the nodes of one that reach its cycle |
| DisjointGroups.BuildAcyclicGroupedGraph | packages/dag/src/group.ts:241-257 | the whole result for the caller's keys: the marked groups broken up, then such a chain of steps; a new key only for nodes of a marked group or a group on a cycle, and no edge inside what came from a marked group, also after all later splits |
| ListMapping.BuildKeyToIndicesMap | packages/adapter-utils/src/list_comparison.ts:128-134 | each key has exactly its indexes, in increasing order |
| ListMapping.MatchByExactKey | packages/adapter-utils/src/list_comparison.ts:175-192 | each item takes exactly the after index it is offered: the one of its exact key that comes after all those its predecessors with the key were offered; the bound kept is the highest pair so far |
| ListMapping.MatchByTopLevelKey | packages/adapter-utils/src/list_comparison.ts:194-226 | pairs are kept, and each unmatched item takes exactly what it is offered for its top-level key unless a pair had that before; the bound is the highest pair so far |
| ListMapping.MatchByIndex | packages/adapter-utils/src/list_comparison.ts:228-239 | pairs are kept, and an unmatched item takes its own index exactly if the after list has it and no pair had it before; the bound is the highest pair so far |
| ListMapping.MatchInOrder | packages/adapter-utils/src/list_comparison.ts:241-269 | every pair added is in the same order as every other pair of any pass and has the highest free after index that fits; an item is left unmatched only if none fits |
| IndexMapping.RoomForNext | packages/adapter-utils/src/list_comparison.ts:284-291 | counting argument: the next removal's index is never past the end, so it lands at its index |
| IndexMapping.SpliceAllSplices | packages/adapter-utils/src/list_comparison.ts:286-291 | splicing in the removals keeps the order by after index and puts each at its before index |
| IndexMapping.GetArrayIndexMapping | packages/adapter-utils/src/list_comparison.ts:162-294 | for any key functions whose keys name no inherited property: each index exactly once, modifications and additions by after index, removals at their before index, and the pairs are exactly those the four passes lead to |
| ListMapping.OffersHaveKey | packages/adapter-utils/src/list_comparison.ts:194-216 | whatever a pass by keys pairs has equal keys |
| EqualItems.TwinsMapped | packages/adapter-utils/src/list_comparison.ts:175-226 | whatever the other passes do, the first item with an exact key is matched with the first one after, the second with the second, and so on |
| EqualItems.SameListStays | packages/adapter-utils/src/list_comparison.ts:162-294 | in a list that did not change nothing moves, is added or removed |
| Changes.ReverseChange | packages/adapter-utils/src/change.ts:26-47 | reversing keeps the id and makes no order change of any other change, nor the other way round |
| Changes.ReverseAllTwice | packages/adapter-utils/src/change.ts:32-47 | reversing is its own inverse |
| Values.IndexOfName | packages/adapter-utils/src/list_comparison.ts:302-318 | the name of an index is read back as the index |
| ListPatch.UpdateList | packages/adapter-utils/src/list_comparison.ts:321-335 | the loops over removals and sorted additions compute the list with holes, then without them |
| ListPatch.PlacedAtOwnIndex | packages/adapter-utils/src/list_comparison.ts:327-334 | whatever else is in the list, every item added or modified ends up at its own index, since in the order of their indexes no later one pushes an earlier one away |
| ListPatch.PlacedAmong | packages/adapter-utils/src/list_comparison.ts:328-334 | placing an item puts it between the items before its index and the others, and leaves all of them in their order, whether it fills a slot or is spliced in |
| ListPatch.NeverSpliced | packages/adapter-utils/src/list_comparison.ts:328-334 | every change that fits finds its slot free, so the splice branch is not reached |
| ListPatch.UpdatedIsAfter | packages/adapter-utils/src/list_comparison.ts:321-335 | for any mapping with each index exactly once, all item changes turn the before list into the after list, and nothing is spliced |
| ListPatch.UpdatedKeepsExtra | packages/adapter-utils/src/list_comparison.ts:321-335 | applied to a list with more places than the before list, they leave as many items too many as these places hold, holes not counted |
| IndependentIds.GetIndependentElemIDs | packages/adapter-utils/src/utils.ts:1170-1188 | the loop over the sorted ids keeps those that are not below the last one kept, in the order of the input |
| IndependentIds.AncestorSortsFirst | packages/adapter-utils/src/utils.ts:1171-1173 | an ancestor sorts strictly before what is below it |
| IndependentIds.NeverDropsIndependent | packages/adapter-utils/src/utils.ts:1170-1188 | an id without an ancestor in the list is always kept |
| IndependentIds.GetIndependentIsExact | packages/adapter-utils/src/utils.ts:1167-1188 | the ids kept are exactly those without an ancestor in the list if and only if no id is separated from its ancestors by an independent id in the sort |
| IndependentIds.PlainIdsAreExact | packages/adapter-utils/src/utils.ts:1167-1188 | with names of characters above the comma the ids kept are exactly those without an ancestor in the list |
| IndependentIds.NotAlwaysExact | packages/adapter-utils/src/utils.ts:1173-1188 | three ids for which the filter keeps an id below another |
| IndependentChanges.KeptAreOutermostIff | packages/adapter-utils/src/compare.ts:333-341 | with order changes present, what is kept are exactly the outermost changes if and only if the sort separates no id from its ancestor |
| IndependentChanges.OutermostIsCollapse | packages/adapter-utils/src/compare.ts:327-341 | the outermost changes of a difference are those of the difference that does not look into moved items |
| IndependentChanges.NothingMoved | packages/adapter-utils/src/compare.ts:334-337 | a difference without order changes has no moved item with changes inside |
| Diff.GetFieldsChanges | packages/adapter-utils/src/compare.ts:126-144 | the changes of two objects, every key of either once, in any order |
| Diff.GetItemsChanges | packages/adapter-utils/src/compare.ts:51-91 | the changes of two lists along a mapping: position in the item's own id, indexes in the other two, and one change more for a moved item without one |
| Diff.GetValuesChanges | packages/adapter-utils/src/compare.ts:97-172 | the changes are those of a delta that fits the two values and goes as deep as the source does: a value is replaced as a whole only if objects or lists cannot be compared part by part |
| Diff.MapIndexes | packages/adapter-utils/src/compare.ts:146-163 | lists are compared along the index mapping, or index by index if items are not compared and there are as many before as after |
| Diff.ReverseDescribes | packages/adapter-utils/src/change.ts:26-47 | the reversed delta fits the two values the other way round |
| Diff.FlattenReverse | packages/adapter-utils/src/change.ts:26-47 | reversing every change gives the changes of the reversed delta |
| Diff.ReversedDiff | packages/adapter-utils/src/change.ts:26-47 | the reversed changes are a difference from the value after to the value before |
| Spots.ChangesAtSpot | packages/adapter-utils/src/compare.ts:51-91 | the changes whose ids continue with a path are exactly those of the part found there |
| Spots.ChangesDistinct | packages/adapter-utils/src/compare.ts:97-172 | no change is reported twice |
| Progress.PutThen | packages/adapter-utils/src/utils.ts:633-649 | putting something below a part, or removing it, is putting the part with that done to it |
| Progress.PutInList | packages/adapter-utils/src/utils.ts:633-649 | putting something in or below an item, or removing it, changes no other item and no property of the list, and makes it longer only by putting past its end, where it leaves holes before the new item |
| Progress.PutAtSpot | packages/adapter-utils/src/utils.ts:633-649 | putting what a part can be now at its place gives what the whole can be now, and changes nothing else |
| Progress.GetAtSpot | packages/adapter-utils/src/utils.ts:651-656 | the place of an object or list leads to what it is now, whatever has been applied elsewhere |
| Progress.LastReached | packages/adapter-utils/src/compare.ts:351-391 | when every change is applied and no list got items its changes do not know of, this is the value after |
| Progress.BrokenIsWrong | packages/adapter-utils/src/compare.ts:351-391 | when the changes of a list with such items are applied, this is not the value after, whatever else is |
| ListProgress.ListReachesAfter | packages/adapter-utils/src/list_comparison.ts:401-426 | all the item changes of a list, applied to what it is now, make its items what they are after, whatever was applied inside the items that stay and put into those that move; a list with items too many keeps them |
| Patch.GroupsByParent | packages/adapter-utils/src/compare.ts:369-371 | the groups are all the changes of one parent each, and every change is in one |
| Patch.InnerListsFirst | packages/adapter-utils/src/compare.ts:386-387 | no list is applied twice, and none after a list that contains it |
| Patch.Element.SetOneByOne | packages/adapter-utils/src/compare.ts:377-384 | sets the changes one after the other |
| Patch.Element.ApplyByList | packages/adapter-utils/src/compare.ts:387-390 | applies the groups of item changes one after the other |
| Patch.Element.ApplyDetailedChanges | packages/adapter-utils/src/compare.ts:351-391 | the element's value becomes the patched value, about which the round trips are proved |
| PathChanges.PutThenGet | packages/adapter-utils/src/utils.ts:633-656 | what is set at a path is found there, whether or not anything was on the way, and what is removed is not |
| PathChanges.PutElsewhere | packages/adapter-utils/src/utils.ts:633-656 | paths neither above nor below keep what they lead to |
| PathChanges.PutMakes | packages/adapter-utils/src/utils.ts:633-649 | objects and lists on the way are kept, and what is missing is made: a list for a part that names an item, else an object |
| PathChanges.OneChangeSet | packages/adapter-utils/src/list_comparison.ts:57-58 | a change without the id it needs that is no item change of a list is set, or removed, at its own id, and nothing else changes |
| PathChanges.UnrelatedChangesSet | packages/adapter-utils/src/compare.ts:369-384 | the same for any number of such changes of which none is above another |
| PathChanges.LaterChangeWins | packages/adapter-utils/src/compare.ts:377-384 | such changes are set in the order given, so of two at one id, or one above the other, the later has its way |
| PathChanges.OneChangeOfWhole | packages/adapter-utils/src/compare.ts:356-362 | a single modification of the whole element replaces it, and any other single change at the element itself does nothing |
| PathChanges.AllKeptUnlessMoved | packages/adapter-utils/src/compare.ts:333-337 | nested changes are only filtered if some change moves an item from one index to another |
| Strays.BelowIsInsideMoved | packages/adapter-utils/src/compare.ts:65-90 | what is reported below the change of a part is inside a moved item, and is set below that item's place before if it is a removal and else below its place after |
| Replay.SetStep | packages/adapter-utils/src/compare.ts:380-384 | one change of the difference that is set takes the value from what it can be without it to what it can be with it |
| Replay.ListStep | packages/adapter-utils/src/list_comparison.ts:411-425 | one group of item changes takes the value from what it can be without it to what it can be with it |
| Replay.PutIntoMoved | packages/adapter-utils/src/compare.ts:380-384 | whatever is put into an item that is still to be moved, or removed there, does not matter, but for an item put past the end of the list |
| Replay.ListIntoMoved | packages/adapter-utils/src/list_comparison.ts:411-425 | item changes of a list inside such an item do not matter at all |
| RoundTrip.RealListGroup | packages/adapter-utils/src/compare.ts:373-375 | a group of the difference's own changes is taken for a list's exactly if they are item changes of a list |
| RoundTrip.OneByOneSound | packages/adapter-utils/src/compare.ts:377-384 | what is set one by one are changes at keys of objects, each to its value after, and changes inside moved items |
| RoundTrip.ByListSound | packages/adapter-utils/src/compare.ts:373-390 | what is applied by list are all the item changes of a list each, no list twice and none after one around it, and changes inside moved items |
| RoundTrip.MarkDone | packages/adapter-utils/src/compare.ts:364-390 | every change of the difference is applied |
| Strays.FlattenSound | packages/adapter-utils/src/compare.ts:97-172 | what is reported sets proper values only, and whatever looks like an item change reads as one |
| RoundTrip.DiffThenPatchIff | packages/adapter-utils/src/compare.ts:97-391 | for all objects, the changes from before to after give after if and only if no change set one by one puts something into a moved item past the end of its list before and every group of item changes comes upon a list, which it does unless one is inside a moved item |
| RoundTrip.ReverseThenPatchIff | packages/adapter-utils/src/change.ts:32-47 | undo: the same for the reversed changes applied to after |
| RoundTrip.DiffThenPatch | packages/adapter-utils/src/compare.ts:97-391 | for all objects, if the filter of nested changes is right, the changes from before to after apply and give after, nested lists and moved items included |
| RoundTrip.ReverseThenPatch | packages/adapter-utils/src/change.ts:32-47 | undo: if the filter is right, the reversed changes apply to after and give before back |
| RoundTrip.PlainRoundTrip | packages/adapter-utils/src/compare.ts:333-391 | for objects whose keys have only characters above the comma both round trips hold, moved items or not |
| RoundTripLimit.RoundTripFails | packages/adapter-utils/src/compare.ts:338-340 | two objects, the index mapping of their lists and what comparing them reports along it, whose application ends with a list item too many |
| RoundTripThrows.ApplyingThrows | packages/adapter-utils/src/list_comparison.ts:418-425 | two objects and what comparing them item by item reports, whose application comes upon a list that is gone |
| NaclCase.NaclCase | packages/adapter-utils/src/nacl_case_utils.ts:116-135 | the loop computes the identifier of the name; no name gives the empty text |
| NaclIdentifiers.CharacterOf | packages/adapter-utils/src/nacl_case_utils.ts:127-133 | digits and unaccented letters stay, and every other character is replaced by an underscore |
| NaclIdentifiers.SuffixOfEncoded | packages/adapter-utils/src/nacl_case_utils.ts:83-95 | what follows is the separator alone for a number, nothing if all replaced characters are underscores, and else the separator with one code if they are all equal or with one code each |
| NaclIdentifiers.OwnIdentifierIff | packages/adapter-utils/src/nacl_case_utils.ts:116-135 | a name is its own identifier if and only if it has letters, digits and underscores only and is no number |
| NaclIdentifiers.OneLetterCode | packages/adapter-utils/src/nacl_case_utils.ts:48-73 | the characters of the table with a code of one letter, in order, are written as a to y |
| NaclIdentifiers.TwoLetterCode | packages/adapter-utils/src/nacl_case_utils.ts:74-78 | those with two letters are written as z with a to e |
| NaclIdentifiers.OtherCode | packages/adapter-utils/src/nacl_case_utils.ts:128-130 | every other character is written as an underscore and its number in five digits |
| NaclIdentifiers.CodeCharacters | packages/adapter-utils/src/nacl_case_utils.ts:48-81 | codes are made of lower-case letters, digits and underscores |
| NaclCase.InvertNaclCase | packages/adapter-utils/src/nacl_case_utils.ts:137-149 | the loop restores the prefix from the list, never using up the last entry, malformed suffixes included |
| NaclIdentifiers.DecodedAsIs | packages/adapter-utils/src/nacl_case_utils.ts:137-144 | a text without the separator is a name as it is |
| NaclIdentifiers.DecodedUpToSeparator | packages/adapter-utils/src/nacl_case_utils.ts:141-148 | without underscores before the separator whatever follows it is ignored |
| NaclCase.CodeSpells | packages/adapter-utils/src/nacl_case_utils.ts:48-81 | every code unit has a code that is read back as it, and whose first character tells its length |
| NaclCase.ReadCodes | packages/adapter-utils/src/nacl_case_utils.ts:97-114 | reading joined codes gives back the characters, one by one |
| NaclCase.SuffixRestored | packages/adapter-utils/src/nacl_case_utils.ts:83-95 | the two collapses of the suffix lose nothing |
| NaclCase.DecodeEncode | packages/adapter-utils/src/nacl_case_utils.ts:116-149 | decoding undoes encoding for every sequence of code units |
| NaclCase.EncodedInjective | packages/adapter-utils/src/nacl_case_utils.ts:116-135 | no two names have the same identifier |
| NaclCase.EncodedIsNoNumber | packages/adapter-utils/src/nacl_case_utils.ts:122-125 | an identifier is never made of digits alone |
| EditorQueue.EditorWorkspace.SetNaclFiles | packages/lang-server/src/workspace.ts:352-355 | one step of the queue; the promise is that of the drain in the field, or of a new one |
| EditorQueue.EditorWorkspace.RemoveNaclFiles | packages/lang-server/src/workspace.ts:357-360 | one step of the queue; the promise is that of the drain in the field, or of a new one |
| EditorQueue.EditorWorkspace.TriggerAggregatedSetOperation | packages/lang-server/src/workspace.ts:306-311 | starts a drain if the field is empty and assigns the field after the call |
| EditorQueue.EditorWorkspace.RunAggregatedSetOperation | packages/lang-server/src/workspace.ts:260-304 | takes what is pending and goes on to its next wait, or ends and clears the field |
| EditorQueue.EditorWorkspace.RunOperationWithWorkspace | packages/lang-server/src/workspace.ts:411-419 | starts the operation if none is under way, else lets it wait |
| EditorQueue.EditorWorkspace.LookAgain | packages/lang-server/src/workspace.ts:412-415 | a waiting operation starts when it finds the field empty, and only then |
| EditorQueue.EditorWorkspace.ValidateFiles | packages/lang-server/src/workspace.ts:393-395 | another operation queues up for the workspace the same way |
| EditorQueue.EditorWorkspace.WorkspaceReturned | packages/lang-server/src/workspace.ts:267-300 | deletes first, then sets, then whatever has become pending since |
| EditorQueue.EditorWorkspace.WaitForOperation | packages/lang-server/src/workspace.ts:406-409 | takes the settled operation off the field |
| EditorHistory.OtherQueues | packages/lang-server/src/workspace.ts:411-419 | an operation asked for is under way at once, with the field for it, if nothing else is, and waits otherwise |
| EditorHistory.OtherLives | packages/lang-server/src/workspace.ts:406-419 | a waiting operation is under way once it finds the field empty, and settles when the workspace returns to it; no other event does anything to it |
| EditorHistory.DrainLives | packages/lang-server/src/workspace.ts:260-304 | a drain takes all that is pending when it starts and after each batch, sets after it deleted, and settles only when nothing is pending |
| EditorHistory.SettledMeansRun | packages/lang-server/src/workspace.ts:411-419 | in every run an operation whose promise is settled was under way before |
| EditorHistory.PendingAsked | packages/lang-server/src/workspace.ts:352-360 | in every run a set of a file is pending if and only if a request that was not taken yet asks for it, with the content of the last such request, and a delete likewise |
| EditorQueue.NextKeepsHealthy | packages/lang-server/src/workspace.ts:260-311 | every step but an empty call to an idle queue keeps the invariant: one operation, one drain, none of them finished, and every request accounted for |
| EditorQueue.NeverTwoOperations | packages/lang-server/src/workspace.ts:411-419 | two operations are never under way at once |
| EditorQueue.PendingHasDrain | packages/lang-server/src/workspace.ts:297-311 | pending updates imply a live drain |
| EditorQueue.SettledMeansHanded | packages/lang-server/src/workspace.ts:297-311 | a caller's promise is settled only after its files were handed to the workspace |
| EditorQueue.HandedMeansArrived | packages/lang-server/src/workspace.ts:267-275 | when a request is handed over, the workspace has each file set with the content the updates of its batch have for it, and each file deleted is gone unless these updates set it again |
| EditorQueue.HealthyUnlessEmptyCall | packages/lang-server/src/workspace.ts:302-311 | a run stays healthy if and only if no call without files comes while nothing goes on, and ends wedged otherwise |
| EditorQueue.WedgedForever | packages/lang-server/src/workspace.ts:306-311 | once wedged, no update reaches the workspace and every later one stays pending |
| EditorQueue.DeleteDestines | packages/lang-server/src/workspace.ts:267-275 | a deleted file is destined to be gone if and only if no set of it is pending |
| EditorQueue.DestinedIsAsked | packages/lang-server/src/workspace.ts:120-130 | what a file is destined to be is what the calls asked for, in every run |
| EditorQueue.QuietMeansDone | packages/lang-server/src/workspace.ts:297-311 | when all is quiet nothing is pending, all was handed over, and the workspace holds what was asked for |
| EditorQueue.LastSetWins | packages/lang-server/src/workspace.ts:124-126 | a file that is only ever set ends with its last content |
| EditorQueue.StepsRunOut | packages/lang-server/src/workspace.ts:297-311 | without new calls every step brings the queue nearer its end |
| EditorQueue.NeverStuck | packages/lang-server/src/workspace.ts:406-419 | as long as the queue is not quiet there is a step that does something |

## Left out

Graphs and grouping

- DagWalk.SetError: leaves out the branch for fatal errors.
- `walkSync` and fatal errors: the synchronous walk can revisit a node it has deleted, and a fatal error leaves started jobs running; both need another end state.
- Node ids that differ but have the same string form: `WalkErrors` keeps its visited set by string.
- Order of iteration of maps and sets: every order is allowed, so the order in which groups are tried or nodes are listed is not captured.
- `_.uniqueId`: fresh keys are made by a serial number that is not in use; that a caller's key could look like a fresh one is not captured.
- Nodes without data: `getData` throws for them, so the source graph is required to have data for all its nodes.
- Logging, error texts, `toString`, `clear`, `setDataFrom`.

Diff and patch

- Types, fields, annotations, references, static files, templates and line-ending-insensitive strings: leaf values are opaque and compared by equality.
- The two key functions of the list heuristic: parameters, so that the results hold for any that make no name of an inherited property.
- Diff.GetFieldsChanges: a key that is missing is absent, while the source reads the inherited property of that name, if there is one.
- IndexMapping.GetArrayIndexMapping: does not model list keys that name an inherited property, on which the source throws.
- RoundTrip.PlainRoundTrip: does not model keys that name inherited properties, nor names that the library refuses to set.
- RoundTrip.DiffThenPatchIff: does not model differences of a renamed element, as the two ids of the element are the same.
- Values compared that have undefined items, properties of lists or undefined keys: they are required to be plain; only the patched value can have holes and named properties.
- Element ids as strings: ids are sequences of name parts below the element; parts that contain the separator of full names, or are special to some id types, are not captured.
- Progress.PutInList: does not model the bound on the length of an array; every number in its usual spelling is an index.
- ListPatch.UpdateList: item changes whose ids name no index are no list changes here; in the source they become changes at a number that is none.
- Patch.Element.ApplyDetailedChanges: says nothing of the value when applying throws; the filter function, and with it `updateListWithFilteredChanges`, whose results are documented as ambiguous, is not captured.
- Sharing: the value set into an element is the change's own object in the source; here values are copied.

Names

- `Number` on text that is not made of digits, as a malformed escape can contain: a parameter of the decoder.
- File names, path truncation and `prettifyName`.

Editor queue

- Operations that throw, validation and its errors, and reads of the workspace, which do not wait for the queue.
- `awaitAllUpdates`, which waits for the promise in the field and changes nothing.
- File name translation between editor and workspace.
