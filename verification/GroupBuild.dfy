/** `buildAcyclicGroupedGraph`: split groups until no cycle of groups is left, and drop
    nodes only when no split can help. */
module GroupBuild {
  import opened Graphs
  import opened NodeMaps
  import opened Cycles
  import opened EvaluationOrder
  import opened GroupGraph
  import opened GroupSplit
  import opened GroupCycles
  import opened Wrappers

  // ----- cycles that cross groups -----

  ghost predicate Crosses<K(!new)>(g: Graph<K>, key: KeyFunc<K>, w: seq<K>) {
    ClosedWalk(g, w) && exists i :: 0 <= i < |w| && key(w[i]) != key(w[0])
  }

  /** The source has a cycle through nodes of different groups. */
  ghost predicate HasCrossingCycle<K(!new)>(g: Graph<K>, key: KeyFunc<K>) {
    exists w :: Crosses(g, key, w)
  }

  /** A closed walk inside one group is wholly inside a part closed under dependencies, or
      wholly outside it. */
  lemma ClosedWalkInOnePart<K(!new)>(g: Graph<K>, members: set<K>, part: set<K>, w: seq<K>, i: nat)
    requires ClosedUnder(Inner(g, members), part) && ClosedWalk(g, w) && i < |w|
    requires forall j :: 0 <= j < |w| ==> w[j] in members
    ensures w[i] in part <==> w[0] in part
  {
    var h := Inner(g, members);
    forall j | 0 <= j < |w| - 1
      ensures Edge(h, w[j], w[j + 1])
    {
      assert Edge(g, w[j], w[j + 1]);
    }
    SliceWalk(h, w, 0, i);
    SliceWalk(h, w, i, |w| - 1);
    if w[0] in part {
      ClosedUnderReaches(h, part, w[0], w[i]);
    }
    if w[i] in part {
      ClosedUnderReaches(h, part, w[i], w[|w| - 1]);
    }
  }

  // ----- one split -----

  /** No key in use was made by a serial that is still to come. */
  ghost predicate SerialsBelow<K(!new)>(g: Graph<K>, key: KeyFunc<K>, serial: nat) {
    forall n {:trigger key(n)} :: n in g && key(n).Unique? ==> key(n).serial < serial
  }

  ghost predicate IsSplit<K(!new)>(g: Graph<K>, key: KeyFunc<K>, key': KeyFunc<K>, group: GroupKey, part: set<K>,
                                   serial: nat) {
    && SplitsOff(g, key, group, part)
    && forall n {:trigger key'(n)} :: key'(n) == if n in part then Unique(group, serial) else key(n)
  }

  lemma SplitRefines<K(!new)>(g: Graph<K>, key: KeyFunc<K>, key': KeyFunc<K>, group: GroupKey, part: set<K>,
                              serial: nat)
    requires IsSplit(g, key, key', group, part, serial) && SerialsBelow(g, key, serial)
    ensures Refines(g, key', key) && SerialsBelow(g, key', serial + 1)
    ensures forall n :: n in g ==> Root(key'(n)) == Root(key(n))
  {
    forall a, b | a in g && b in g && key'(a) == key'(b)
      ensures key(a) == key(b)
    {
      assert a in part ==> a in Members(g.Keys, key, group);
      assert b in part ==> b in Members(g.Keys, key, group);
    }
  }

  /** A split makes one more group out of the same nodes. */
  lemma SplitAddsGroup<K(!new)>(g: Graph<K>, key: KeyFunc<K>, key': KeyFunc<K>, group: GroupKey, part: set<K>,
                                serial: nat)
    requires IsSplit(g, key, key', group, part, serial) && SerialsBelow(g, key, serial)
    ensures |Groups(g.Keys, key')| == |Groups(g.Keys, key)| + 1
  {
    var added := Unique(group, serial);
    var p :| p in part;
    var q :| q in Members(g.Keys, key, group) && q !in part;
    assert key'(p) == added && key'(q) == group;
    forall k
      ensures k in Groups(g.Keys, key') <==> k in Groups(g.Keys, key) + {added}
    {
      if k in Groups(g.Keys, key) {
        var n :| n in g && key(n) == k;
        assert key'(if k == group then q else n) == k;
      }
    }
    assert Groups(g.Keys, key') == Groups(g.Keys, key) + {added};
    assert added !in Groups(g.Keys, key);
  }

  /** Splitting never tears a cycle that was inside one group. */
  lemma SplitCrossing<K(!new)>(g: Graph<K>, key: KeyFunc<K>, key': KeyFunc<K>, group: GroupKey, part: set<K>,
                               serial: nat, w: seq<K>)
    requires IsSplit(g, key, key', group, part, serial) && Crosses(g, key', w)
    ensures Crosses(g, key, w)
  {
    if !Crosses(g, key, w) {
      forall j | 0 <= j < |w|
        ensures w[j] in g && key(w[j]) == key(w[0])
      {
        assert Edge(g, w[if j < |w| - 1 then j else 0], w[if j < |w| - 1 then j + 1 else 1]);
      }
      var i :| 0 <= i < |w| && key'(w[i]) != key'(w[0]);
      if key(w[0]) == group {
        ClosedWalkInOnePart(g, Members(g.Keys, key, group), part, w, i);
      }
    }
  }

  lemma {:induction false} FewerGroupsThanNodes<K(!new)>(nodes: set<K>, key: KeyFunc<K>)
    ensures |Groups(nodes, key)| <= |nodes|
  {
    if nodes != {} {
      var n :| n in nodes;
      FewerGroupsThanNodes(nodes - {n}, key);
      assert Groups(nodes, key) == Groups(nodes - {n}, key) + {key(n)};
    }
  }

  // ----- modifyGroupKeyToRemoveCycle -----

  datatype KeyUpdate<!K> = Updated(groupKey: KeyFunc<K>) | CircularDependency(causingNodeIds: set<K>)

  method ModifyGroupKeyToRemoveCycle<K(==, !new), T>(groups: map<GroupKey, Group<K, T>>, groupKey: KeyFunc<K>,
                                                     source: NodeMap<K, T>, knownCycle: seq<(GroupKey, GroupKey)>,
                                                     serial: nat)
    returns (update: KeyUpdate<K>, ghost group: GroupKey, ghost part: set<K>)
    requires source.Valid() && CycleOfGroups(source.nodes, groupKey, knownCycle)
    requires forall k :: k in Groups(source.nodes.Keys, groupKey) ==>
      k in groups && groups[k].items.Keys == Members(source.nodes.Keys, groupKey, k)
    modifies source`nodes
    ensures source.Valid() && source.nodes == old(source.nodes)
    ensures update.Updated? ==>
      && IsSplit(source.nodes, groupKey, update.groupKey, group, part, serial)
      && CutsCycle(source.nodes, groupKey, group, part, knownCycle)
    ensures update.CircularDependency? ==>
      && update.causingNodeIds == NodesOnCycle(source.nodes, groupKey, knownCycle)
      && Stuck(source.nodes, groupKey, knownCycle)
  {
    ghost var g := source.nodes;
    group, part := Given(""), {};
    var index := 0;
    while index < |knownCycle|
      invariant 0 <= index <= |knownCycle|
      invariant source.Valid() && source.nodes == g
      invariant forall j :: 0 <= j < index ==>
        CannotSplit(g, groupKey, knownCycle[j], knownCycle[if j + 1 < |knownCycle| then j + 1 else 0])
    {
      var inEdge := knownCycle[index];
      var next := if index + 1 < |knownCycle| then index + 1 else 0;
      var outEdge := knownCycle[next];
      assert inEdge == InEdge(knownCycle, next);
      assert InEdge(knownCycle, next).1 == outEdge.0;
      assert CrossEdge(g, groupKey, outEdge.0, outEdge.1);
      assert outEdge.0 in Groups(g.Keys, groupKey);
      var nodesID := GetNewGroupToCreate(groups, source, groupKey, inEdge, outEdge);
      if nodesID.Some? {
        var newGroupId := Unique(inEdge.1, serial);
        group, part := inEdge.1, nodesID.value;
        var ids := nodesID.value;
        assert CutsCycle(g, groupKey, group, part, knownCycle);
        return Updated(id => if id in ids then newGroupId else groupKey(id)), group, part;
      }
      index := index + 1;
    }
    forall k | 0 <= k < |knownCycle|
      ensures CannotSplit(g, groupKey, InEdge(knownCycle, k), knownCycle[k])
    {
      var j := if k == 0 then |knownCycle| - 1 else k - 1;
      assert CannotSplit(g, groupKey, knownCycle[j], knownCycle[if j + 1 < |knownCycle| then j + 1 else 0]);
    }
    var cycleGroups := set k | 0 <= k < |knownCycle| :: knownCycle[k].0;
    var origCycle := set n | n in source.nodes && groupKey(n) in cycleGroups;
    return CircularDependency(origCycle), group, part;
  }

  lemma SourceCycleCrosses<K(!new)>(g: Graph<K>, key: KeyFunc<K>, c: seq<(GroupKey, GroupKey)>, w: seq<K>)
    requires CycleOfGroups(g, key, c) && SourceCycle(g, key, c, w)
    ensures Crosses(g, key, w)
    ensures forall i :: 0 <= i < |w| ==> w[i] in NodesOnCycle(g, key, c)
  {
    forall i | 0 <= i < |w|
      ensures w[i] in g && OnGroupCycle(c, key(w[i]))
    {
      assert Edge(g, w[if i < |w| - 1 then i else 0], w[if i < |w| - 1 then i + 1 else 1]);
    }
    assert CrossEdge(g, key, c[0].0, c[0].1);
    var next := if 1 < |c| then 1 else 0;
    assert InEdge(c, next).1 == c[next].0;
    assert VisitsGroup(key, w, c[0].0) && VisitsGroup(key, w, c[next].0);
  }

  // ----- the result -----

  /** What one attempt did: a part of a group got a key of its own, or a batch was dropped. */
  datatype Step<!K> = Split(groupKey: KeyFunc<K>, group: GroupKey, part: set<K>) | Drop(batch: set<K>)

  /** Every split takes a part off a group on a cycle of groups, the one the search for a part
      finds; every batch is the nodes of a cycle of groups that no split helps against, at that
      point. */
  ghost predicate ValidSteps<K(!new)>(g: Graph<K>, key: KeyFunc<K>, serial: nat, steps: seq<Step<K>>)
    decreases |steps|
  {
    steps == [] ||
    match steps[0]
    case Split(key', group, part) =>
      && IsSplit(g, key, key', group, part, serial) && CutsSomeCycle(g, key, group, part)
      && ValidSteps(g, key', serial + 1, steps[1..])
    case Drop(batch) => IsStuckBatch(g, key, batch) && ValidSteps(Without(g, batch), key, serial, steps[1..])
  }

  ghost function Batches<K>(steps: seq<Step<K>>): seq<set<K>> {
    if steps == [] then [] else (if steps[0].Drop? then [steps[0].batch] else []) + Batches(steps[1..])
  }

  ghost function FinalKey<K>(key: KeyFunc<K>, steps: seq<Step<K>>): KeyFunc<K>
    decreases |steps|
  {
    if steps == [] then key else FinalKey(if steps[0].Split? then steps[0].groupKey else key, steps[1..])
  }

  /** The graph is the acyclic quotient the steps lead to. */
  ghost predicate Built<K(!new), T(!new)>(h: Graph<GroupKey>, groups: map<GroupKey, Group<K, T>>, g: Graph<K>,
                                          data: map<K, T>, key: KeyFunc<K>, origKey: KeyFunc<K>, serial: nat,
                                          steps: seq<Step<K>>) {
    && Acyclic(h) && ValidSteps(g, key, serial, steps)
    && IsQuotient(h, groups, Without(g, Union(Batches(steps))), data, FinalKey(key, steps), origKey)
  }

  // ----- what the steps lead to -----

  /** Each batch is taken from what is left and holds a cycle that crosses groups. */
  ghost predicate Justified<K(!new)>(g: Graph<K>, key: KeyFunc<K>, batches: seq<set<K>>) {
    forall k {:trigger JustifiedBatch(g, key, batches[..k], batches[k])} ::
      0 <= k < |batches| ==> JustifiedBatch(g, key, batches[..k], batches[k])
  }

  ghost predicate JustifiedBatch<K(!new)>(g: Graph<K>, key: KeyFunc<K>, earlier: seq<set<K>>, batch: set<K>) {
    batch <= g.Keys - Union(earlier) && HoldsCrossingCycle(g, key, batch)
  }

  ghost predicate HoldsCrossingCycle<K(!new)>(g: Graph<K>, key: KeyFunc<K>, batch: set<K>) {
    exists w :: Crosses(g, key, w) && forall i :: 0 <= i < |w| ==> w[i] in batch
  }

  /** `marked` are the groups that may be split even if they are on no cycle. */
  ghost predicate Outcome<K(!new)>(g: Graph<K>, key: KeyFunc<K>, marked: set<GroupKey>, batches: seq<set<K>>,
                                   finalKey: KeyFunc<K>) {
    && Narrows(Without(g, Union(batches)), finalKey, key)
    && SplitsOnlyCycles(g, key, marked, Without(g, Union(batches)), finalKey)
    && Justified(g, key, batches)
  }

  ghost predicate GroupedResult<K(!new), T(!new)>(h: Graph<GroupKey>, groups: map<GroupKey, Group<K, T>>, g: Graph<K>,
                                                  data: map<K, T>, key: KeyFunc<K>, origKey: KeyFunc<K>,
                                                  marked: set<GroupKey>, batches: seq<set<K>>, finalKey: KeyFunc<K>) {
    && Acyclic(h)
    && IsQuotient(h, groups, Without(g, Union(batches)), data, finalKey, origKey)
    && Outcome(g, key, marked, batches, finalKey)
  }

  ghost predicate KeepsCrossing<K(!new)>(g: Graph<K>, fine: KeyFunc<K>, coarse: KeyFunc<K>) {
    forall w {:trigger Crosses(g, fine, w)} :: Crosses(g, fine, w) ==> Crosses(g, coarse, w)
  }

  /** What holds of the outcome for finer keys holds of it for the keys that were split. */
  lemma OutcomeForCoarser<K(!new)>(g: Graph<K>, key: KeyFunc<K>, marked: set<GroupKey>, batches: seq<set<K>>,
                                   finalKey: KeyFunc<K>, key': KeyFunc<K>)
    requires Closed(g) && Narrows(g, key', key) && KeepsCrossing(g, key', key)
    requires forall n {:trigger key'(n)} ::
      n in g && key'(n) != key(n) ==> key(n) in marked || OnCycle(Quotient(g, key), key(n))
    requires Outcome(g, key', {}, batches, finalKey)
    ensures Outcome(g, key, marked, batches, finalKey)
  {
    var left := Without(g, Union(batches));
    NarrowsTwice(left, finalKey, key', key);
    SplitsCoarser(g, key, key', marked, left, finalKey);
    forall k | 0 <= k < |batches|
      ensures JustifiedBatch(g, key, batches[..k], batches[k])
    {
      assert JustifiedBatch(g, key', batches[..k], batches[k]);
      var w :| Crosses(g, key', w) && forall i :: 0 <= i < |w| ==> w[i] in batches[k];
      assert Crosses(g, key, w);
    }
  }

  lemma OutcomeAfterSplit<K(!new)>(g: Graph<K>, key: KeyFunc<K>, batches: seq<set<K>>, finalKey: KeyFunc<K>,
                                   key': KeyFunc<K>, group: GroupKey, part: set<K>, serial: nat)
    requires Closed(g) && IsSplit(g, key, key', group, part, serial) && SerialsBelow(g, key, serial)
    requires OnCycle(Quotient(g, key), group) && Outcome(g, key', {}, batches, finalKey)
    ensures Outcome(g, key, {}, batches, finalKey)
  {
    SplitRefines(g, key, key', group, part, serial);
    forall w | Crosses(g, key', w)
      ensures Crosses(g, key, w)
    {
      SplitCrossing(g, key, key', group, part, serial, w);
    }
    OutcomeForCoarser(g, key, {}, batches, finalKey, key');
  }

  lemma UnionPrepend<K>(first: set<K>, rest: seq<set<K>>)
    ensures Union([first] + rest) == first + Union(rest)
  {
    var all := [first] + rest;
    assert all[0] == first && forall k :: 0 < k < |all| ==> all[k] == rest[k - 1];
    assert forall k :: 0 <= k < |rest| ==> all[k + 1] == rest[k];
  }

  lemma AppendBatch<K>(earlier: seq<set<K>>, batch: set<K>, later: seq<set<K>>)
    ensures earlier + [batch] + later == earlier + ([batch] + later)
  {}

  lemma FirstBatch<K(!new)>(g: Graph<K>, key: KeyFunc<K>, first: set<K>)
    requires first <= g.Keys && HoldsCrossingCycle(g, key, first)
    ensures JustifiedBatch(g, key, [], first)
  {
    assert Union<K>([]) == {};
  }

  lemma LaterBatch<K(!new)>(g: Graph<K>, key: KeyFunc<K>, first: set<K>, earlier: seq<set<K>>, batch: set<K>)
    requires JustifiedBatch(Without(g, first), key, earlier, batch)
    ensures JustifiedBatch(g, key, [first] + earlier, batch)
  {
    UnionPrepend(first, earlier);
    var w :| Crosses(Without(g, first), key, w) && forall i :: 0 <= i < |w| ==> w[i] in batch;
    SubGraphWalk(Without(g, first), g, w);
    assert Crosses(g, key, w);
  }

  lemma JustifiedPrepend<K(!new)>(g: Graph<K>, key: KeyFunc<K>, first: set<K>, rest: seq<set<K>>)
    requires first <= g.Keys && HoldsCrossingCycle(g, key, first)
    requires Justified(Without(g, first), key, rest)
    ensures Justified(g, key, [first] + rest)
  {
    var all := [first] + rest;
    FirstBatch(g, key, first);
    forall k | 0 <= k < |all|
      ensures JustifiedBatch(g, key, all[..k], all[k])
    {
      if k == 0 {
        assert all[..0] == [];
      } else {
        assert all[k] == rest[k - 1] && all[..k] == [first] + rest[..k - 1];
        LaterBatch(g, key, first, rest[..k - 1], rest[k - 1]);
      }
    }
  }

  lemma OutcomeAfterDrop<K(!new)>(g: Graph<K>, key: KeyFunc<K>, batches: seq<set<K>>, finalKey: KeyFunc<K>,
                                  batch: set<K>)
    requires batch <= g.Keys && HoldsCrossingCycle(g, key, batch)
    requires Outcome(Without(g, batch), key, {}, batches, finalKey)
    ensures Outcome(g, key, {}, [batch] + batches, finalKey)
  {
    UnionPrepend(batch, batches);
    WithoutTwice(g, batch, Union(batches));
    JustifiedPrepend(g, key, batch, batches);
    SplitsAmongMore(Without(g, batch), g, key, Without(g, Union([batch] + batches)), finalKey);
  }

  lemma ClosedWithout<K(!new)>(g: Graph<K>, batch: set<K>)
    requires Closed(g)
    ensures Closed(Without(g, batch))
  {}

  lemma FirstStep<K>(key: KeyFunc<K>, first: Step<K>, rest: seq<Step<K>>)
    ensures ([first] + rest)[1..] == rest
    ensures Batches([first] + rest) == if first.Drop? then [first.batch] + Batches(rest) else Batches(rest)
    ensures FinalKey(key, [first] + rest) == FinalKey(if first.Split? then first.groupKey else key, rest)
  {
    assert ([first] + rest)[1..] == rest;
    assert [] + Batches(rest) == Batches(rest);
  }

  /** Whatever the steps are: keys only get finer, only nodes of groups on a cycle of groups get
      another key, and each batch holds a cycle that crosses groups. */
  lemma {:induction false} StepsOutcome<K(!new)>(g: Graph<K>, key: KeyFunc<K>, serial: nat, steps: seq<Step<K>>)
    requires Closed(g) && SerialsBelow(g, key, serial) && ValidSteps(g, key, serial, steps)
    ensures Outcome(g, key, {}, Batches(steps), FinalKey(key, steps))
    decreases |steps|
  {
    if steps == [] {
      assert Union<K>([]) == {};
    } else {
      var rest := steps[1..];
      assert steps == [steps[0]] + rest;
      FirstStep(key, steps[0], rest);
      if steps[0].Split? {
        var key', group, part := steps[0].groupKey, steps[0].group, steps[0].part;
        CutIsOnCycle(g, key, group, part);
        SplitRefines(g, key, key', group, part, serial);
        StepsOutcome(g, key', serial + 1, rest);
        OutcomeAfterSplit(g, key, Batches(rest), FinalKey(key', rest), key', group, part, serial);
      } else {
        var batch := steps[0].batch;
        StuckBatchHoldsCycle(g, key, batch);
        ClosedWithout(g, batch);
        StepsOutcome(Without(g, batch), key, serial, rest);
        OutcomeAfterDrop(g, key, Batches(rest), FinalKey(key, rest), batch);
      }
    }
  }

  lemma BuiltIsGrouped<K(!new), T(!new)>(h: Graph<GroupKey>, groups: map<GroupKey, Group<K, T>>, g: Graph<K>,
                                         data: map<K, T>, key: KeyFunc<K>, origKey: KeyFunc<K>, serial: nat,
                                         steps: seq<Step<K>>)
    requires Closed(g) && SerialsBelow(g, key, serial) && Built(h, groups, g, data, key, origKey, serial, steps)
    ensures GroupedResult(h, groups, g, data, key, origKey, {}, Batches(steps), FinalKey(key, steps))
  {
    StepsOutcome(g, key, serial, steps);
  }

  lemma BuiltAfterSplit<K(!new), T(!new)>(h: Graph<GroupKey>, groups: map<GroupKey, Group<K, T>>, g: Graph<K>,
                                          data: map<K, T>, key: KeyFunc<K>, origKey: KeyFunc<K>, serial: nat,
                                          steps: seq<Step<K>>, key': KeyFunc<K>, group: GroupKey, part: set<K>)
    requires IsSplit(g, key, key', group, part, serial) && CutsSomeCycle(g, key, group, part)
    requires Built(h, groups, g, data, key', origKey, serial + 1, steps)
    ensures Built(h, groups, g, data, key, origKey, serial, [Split(key', group, part)] + steps)
    ensures Batches([Split(key', group, part)] + steps) == Batches(steps)
  {
    FirstStep(key, Split(key', group, part), steps);
  }

  lemma BuiltAfterDrop<K(!new), T(!new)>(h: Graph<GroupKey>, groups: map<GroupKey, Group<K, T>>, g: Graph<K>,
                                         data: map<K, T>, key: KeyFunc<K>, origKey: KeyFunc<K>, serial: nat,
                                         steps: seq<Step<K>>, batch: set<K>)
    requires IsStuckBatch(g, key, batch)
    requires Built(h, groups, Without(g, batch), data - batch, key, origKey, serial, steps)
    ensures Built(h, groups, g, data, key, origKey, serial, [Drop(batch)] + steps)
    ensures Batches([Drop(batch)] + steps) == [batch] + Batches(steps)
  {
    FirstStep(key, Drop(batch), steps);
    UnionPrepend(batch, Batches(steps));
    WithoutTwice(g, batch, Union(Batches(steps)));
    DataBeyondNodes(groups, g.Keys - Union([batch] + Batches(steps)), data, FinalKey(key, steps), origKey, batch);
  }

  lemma DataBeyondNodes<K(!new), T(!new)>(groups: map<GroupKey, Group<K, T>>, seen: set<K>, data: map<K, T>,
                                          key: KeyFunc<K>, origKey: KeyFunc<K>, removed: set<K>)
    requires Partitions(groups, seen, data - removed, key, origKey)
    ensures Partitions(groups, seen, data, key, origKey)
  {}

  /** Splitting a group leaves fewer groups to be made, and what was required of the keys. */
  lemma SplitShrinks<K(!new)>(g: Graph<K>, key: KeyFunc<K>, key': KeyFunc<K>, origKey: KeyFunc<K>, group: GroupKey,
                              part: set<K>, serial: nat)
    requires IsSplit(g, key, key', group, part, serial)
    requires Refines(g, key, origKey) && SerialsBelow(g, key, serial)
    ensures |Groups(g.Keys, key)| < |Groups(g.Keys, key')| <= |g.Keys|
    ensures Refines(g, key', origKey) && SerialsBelow(g, key', serial + 1)
  {
    SplitRefines(g, key, key', group, part, serial);
    SplitAddsGroup(g, key, key', group, part, serial);
    FewerGroupsThanNodes(g.Keys, key');
  }

  /** Removing a batch leaves fewer nodes, and what was required of all of them. */
  lemma RemovalShrinks<K(!new)>(g: Graph<K>, key: KeyFunc<K>, origKey: KeyFunc<K>, serial: nat, removed: set<K>)
    requires removed <= g.Keys && HoldsCrossingCycle(g, key, removed)
    requires Refines(g, key, origKey) && SerialsBelow(g, key, serial)
    ensures |Without(g, removed).Keys| < |g.Keys|
    ensures Refines(Without(g, removed), key, origKey) && SerialsBelow(Without(g, removed), key, serial)
  {
    var w :| Crosses(g, key, w) && forall i :: 0 <= i < |w| ==> w[i] in removed;
    assert w[0] in removed;
    assert Without(g, removed).Keys == g.Keys - removed;
  }

  lemma GroupItems<K(!new), T(!new)>(h: Graph<GroupKey>, groups: map<GroupKey, Group<K, T>>, g: Graph<K>,
                                     data: map<K, T>, key: KeyFunc<K>, origKey: KeyFunc<K>)
    requires IsQuotient(h, groups, g, data, key, origKey)
    ensures forall k :: k in Groups(g.Keys, key) ==> k in groups && groups[k].items.Keys == Members(g.Keys, key, k)
  {
    forall k | k in Groups(g.Keys, key)
      ensures groups[k].items.Keys == Members(g.Keys, key, k)
    {
      assert forall n :: n in groups[k].items <==> n in Members(g.Keys, key, k);
    }
  }

  lemma NothingRemoved<K(!new), T(!new)>(h: Graph<GroupKey>, groups: map<GroupKey, Group<K, T>>, g: Graph<K>,
                                         data: map<K, T>, key: KeyFunc<K>, origKey: KeyFunc<K>, serial: nat)
    requires Acyclic(h) && IsQuotient(h, groups, g, data, key, origKey)
    ensures Built(h, groups, g, data, key, origKey, serial, [])
  {
    assert Union<K>([]) == {};
    WithoutNone(g);
  }

  lemma GroupCycleCrosses<K(!new)>(h: Graph<GroupKey>, g: Graph<K>, key: KeyFunc<K>, c: seq<(GroupKey, GroupKey)>)
    requires SimpleCycle(h, c) && forall a, b :: Edge(h, a, b) <==> CrossEdge(g, key, a, b)
    ensures CycleOfGroups(g, key, c)
  {
    forall k | 0 <= k < |c|
      ensures InEdge(c, k).1 == c[k].0 && CrossEdge(g, key, c[k].0, c[k].1)
    {
      assert Edge(h, c[k].0, c[k].1);
    }
  }

  lemma StuckBatchHoldsCycle<K(!new)>(g: Graph<K>, key: KeyFunc<K>, batch: set<K>)
    requires Closed(g) && IsStuckBatch(g, key, batch)
    ensures batch <= g.Keys && HoldsCrossingCycle(g, key, batch)
  {
    var c :| StuckNodes(g, key, c, batch);
    var w := StuckMeansSourceCycle(g, key, c);
    SourceCycleCrosses(g, key, c, w);
  }

  /** What is to be done about a cycle of groups: a proper split of a group on it, or dropping
      its nodes because no group on it can be split. */
  ghost predicate Remedy<K(!new)>(g: Graph<K>, key: KeyFunc<K>, update: KeyUpdate<K>, group: GroupKey, part: set<K>,
                                  serial: nat) {
    match update
    case Updated(key') => IsSplit(g, key, key', group, part, serial) && CutsSomeCycle(g, key, group, part)
    case CircularDependency(nodes) => IsStuckBatch(g, key, nodes)
  }

  method RemoveCycle<K(==, !new), T(!new)>(groups: map<GroupKey, Group<K, T>>, source: NodeMap<K, T>,
                                           groupKey: KeyFunc<K>, knownCycle: seq<(GroupKey, GroupKey)>, serial: nat)
    returns (update: KeyUpdate<K>, ghost group: GroupKey, ghost part: set<K>)
    requires source.Valid() && CycleOfGroups(source.nodes, groupKey, knownCycle)
    requires forall k :: k in Groups(source.nodes.Keys, groupKey) ==>
      k in groups && groups[k].items.Keys == Members(source.nodes.Keys, groupKey, k)
    modifies source`nodes
    ensures source.Valid() && source.nodes == old(source.nodes)
    ensures Remedy(source.nodes, groupKey, update, group, part, serial)
  {
    ghost var g := source.nodes;
    update, group, part := ModifyGroupKeyToRemoveCycle(groups, groupKey, source, knownCycle, serial);
    assert update.CircularDependency? ==> StuckNodes(g, groupKey, knownCycle, update.causingNodeIds);
  }

  /** One attempt with one key function: the graph, if it has no cycle, or what to do next. */
  method Attempt<K(==, !new), T(!new)>(source: NodeMap<K, T>, groupKey: KeyFunc<K>, origGroupKey: KeyFunc<K>,
                                       serial: nat)
    returns (graph: NodeMap<GroupKey, Group<K, T>>, next: Option<KeyUpdate<K>>, ghost group: GroupKey,
             ghost part: set<K>)
    requires source.Valid() && source.nodes.Keys <= source.nodeData.Keys
    requires Refines(source.nodes, groupKey, origGroupKey)
    modifies source`nodes
    ensures source.Valid() && source.nodes == old(source.nodes) && fresh(graph) && graph.Valid()
    ensures next.None? ==>
      Built(graph.nodes, graph.nodeData, source.nodes, source.nodeData, groupKey, origGroupKey, serial, [])
    ensures next.Some? ==> Remedy(source.nodes, groupKey, next.value, group, part, serial)
  {
    ghost var g := source.nodes;
    group, part := Given(""), {};
    graph := BuildPossiblyCyclicGroupGraph(source, groupKey, origGroupKey);
    var possibleCycle := GetCycle(graph);
    if possibleCycle.None? {
      NothingRemoved(graph.nodes, graph.nodeData, g, source.nodeData, groupKey, origGroupKey, serial);
      next := None;
    } else {
      GroupCycleCrosses(graph.nodes, g, groupKey, possibleCycle.value);
      GroupItems(graph.nodes, graph.nodeData, g, source.nodeData, groupKey, origGroupKey);
      var update;
      update, group, part := RemoveCycle(graph.nodeData, source, groupKey, possibleCycle.value, serial);
      next := Some(update);
    }
  }

  /** Ends because each call has fewer nodes or, for the same nodes, more groups. */
  method BuildAcyclicGroupedGraphImpl<K(==, !new), T(!new)>(source: NodeMap<K, T>, groupKey: KeyFunc<K>,
                                                            origGroupKey: KeyFunc<K>, removedCycles: seq<set<K>>,
                                                            serial: nat)
    returns (graph: NodeMap<GroupKey, Group<K, T>>, removedCycles': seq<set<K>>, ghost steps: seq<Step<K>>)
    requires source.Valid() && source.nodes.Keys <= source.nodeData.Keys
    requires Refines(source.nodes, groupKey, origGroupKey) && SerialsBelow(source.nodes, groupKey, serial)
    modifies source`nodes
    ensures source.Valid() && source.nodes == old(source.nodes)
    ensures fresh(graph) && graph.Valid() && removedCycles' == removedCycles + Batches(steps)
    ensures Built(graph.nodes, graph.nodeData, source.nodes, source.nodeData, groupKey, origGroupKey, serial, steps)
    decreases |source.nodes.Keys|, |source.nodes.Keys| - |Groups(source.nodes.Keys, groupKey)|, 1
  {
    var next; ghost var group, part;
    graph, next, group, part := Attempt(source, groupKey, origGroupKey, serial);
    if next.None? {
      return graph, removedCycles, [];
    }
    if next.value.Updated? {
      graph, removedCycles', steps :=
        BuildWithSplit(source, groupKey, origGroupKey, removedCycles, serial, next.value.groupKey, group, part);
    } else {
      graph, removedCycles', steps :=
        BuildWithout(source, groupKey, origGroupKey, removedCycles, serial, next.value.causingNodeIds);
    }
  }

  /** Starts over with the updated key function. */
  method BuildWithSplit<K(==, !new), T(!new)>(source: NodeMap<K, T>, groupKey: KeyFunc<K>, origGroupKey: KeyFunc<K>,
                                              removedCycles: seq<set<K>>, serial: nat, updatedGroupKey: KeyFunc<K>,
                                              ghost group: GroupKey, ghost part: set<K>)
    returns (graph: NodeMap<GroupKey, Group<K, T>>, removedCycles': seq<set<K>>, ghost steps: seq<Step<K>>)
    requires source.Valid() && source.nodes.Keys <= source.nodeData.Keys
    requires Refines(source.nodes, groupKey, origGroupKey) && SerialsBelow(source.nodes, groupKey, serial)
    requires IsSplit(source.nodes, groupKey, updatedGroupKey, group, part, serial)
    requires CutsSomeCycle(source.nodes, groupKey, group, part)
    modifies source`nodes
    ensures source.Valid() && source.nodes == old(source.nodes)
    ensures fresh(graph) && graph.Valid() && removedCycles' == removedCycles + Batches(steps)
    ensures Built(graph.nodes, graph.nodeData, source.nodes, source.nodeData, groupKey, origGroupKey, serial, steps)
    decreases |source.nodes.Keys|, |source.nodes.Keys| - |Groups(source.nodes.Keys, groupKey)|, 0
  {
    ghost var g := source.nodes;
    SplitShrinks(g, groupKey, updatedGroupKey, origGroupKey, group, part, serial);
    ghost var later;
    graph, removedCycles', later :=
      BuildAcyclicGroupedGraphImpl(source, updatedGroupKey, origGroupKey, removedCycles, serial + 1);
    steps := [Split(updatedGroupKey, group, part)] + later;
    BuiltAfterSplit(graph.nodes, graph.nodeData, g, source.nodeData, groupKey, origGroupKey, serial, later,
                    updatedGroupKey, group, part);
  }

  /** Starts over without the nodes of a cycle that cannot be split. */
  method BuildWithout<K(==, !new), T(!new)>(source: NodeMap<K, T>, groupKey: KeyFunc<K>, origGroupKey: KeyFunc<K>,
                                            removedCycles: seq<set<K>>, serial: nat, causingNodeIds: set<K>)
    returns (graph: NodeMap<GroupKey, Group<K, T>>, removedCycles': seq<set<K>>, ghost steps: seq<Step<K>>)
    requires source.Valid() && source.nodes.Keys <= source.nodeData.Keys
    requires Refines(source.nodes, groupKey, origGroupKey) && SerialsBelow(source.nodes, groupKey, serial)
    requires IsStuckBatch(source.nodes, groupKey, causingNodeIds)
    ensures fresh(graph) && graph.Valid() && removedCycles' == removedCycles + Batches(steps)
    ensures Built(graph.nodes, graph.nodeData, source.nodes, source.nodeData, groupKey, origGroupKey, serial, steps)
    decreases |source.nodes.Keys|, |source.nodes.Keys| - |Groups(source.nodes.Keys, groupKey)|, 0
  {
    ghost var g, data := source.nodes, source.nodeData;
    StuckBatchHoldsCycle(g, groupKey, causingNodeIds);
    RemovalShrinks(g, groupKey, origGroupKey, serial, causingNodeIds);
    var rest := source.CloneWithout(causingNodeIds);
    assert rest.nodes == Without(g, causingNodeIds) && rest.nodeData == data - causingNodeIds;
    ghost var later;
    graph, removedCycles', later :=
      BuildAcyclicGroupedGraphImpl(rest, groupKey, origGroupKey, removedCycles + [causingNodeIds], serial);
    steps := [Drop(causingNodeIds)] + later;
    BuiltAfterDrop(graph.nodes, graph.nodeData, g, data, groupKey, origGroupKey, serial, later, causingNodeIds);
    AppendBatch(removedCycles, causingNodeIds, Batches(later));
  }

  // ----- what the result means for the caller -----

  lemma {:induction false} ProjectWalk<K(!new)>(h: Graph<GroupKey>, g: Graph<K>, key: KeyFunc<K>, w: seq<K>)
    requires forall a, b :: Edge(h, a, b) <==> CrossEdge(g, key, a, b)
    requires IsWalk(g, w)
    ensures Reaches(h, key(w[0]), key(w[|w| - 1]))
  {
    if |w| == 1 {
      ReachesSelf(h, key(w[0]));
    } else {
      SliceWalk(g, w, 1, |w| - 1);
      assert w[1..|w|] == w[1..];
      ProjectWalk(h, g, key, w[1..]);
      assert Edge(g, w[0], w[1]);
      if key(w[0]) != key(w[1]) {
        assert CrossEdge(g, key, key(w[0]), key(w[1]));
        ReachesStep(h, key(w[0]), key(w[1]), key(w[|w| - 1]));
      }
    }
  }

  /** An acyclic quotient leaves no cycle across groups. */
  lemma AcyclicQuotientNothingCrosses<K(!new)>(h: Graph<GroupKey>, g: Graph<K>, key: KeyFunc<K>)
    requires Acyclic(h) && forall a, b :: Edge(h, a, b) <==> CrossEdge(g, key, a, b)
    ensures !HasCrossingCycle(g, key)
  {
    if w :| Crosses(g, key, w) {
      var i :| 0 <= i < |w| && key(w[i]) != key(w[0]);
      SliceWalk(g, w, 0, i);
      SliceWalk(g, w, i, |w| - 1);
      ProjectWalk(h, g, key, w[0..i + 1]);
      ProjectWalk(h, g, key, w[i..|w|]);
      var a, b := key(w[0]), key(w[i]);
      var x := ReachesUnfold(h, a, b);
      ReachesTrans(h, x, b, a);
      OnCycleFold(h, a, x);
      AcyclicMeansNoCycle(h);
    }
  }

  lemma CoarserCrossing<K(!new)>(g: Graph<K>, fine: KeyFunc<K>, coarse: KeyFunc<K>)
    requires Refines(g, fine, coarse) && HasCrossingCycle(g, coarse)
    ensures HasCrossingCycle(g, fine)
  {
    var w :| Crosses(g, coarse, w);
    var i :| 0 <= i < |w| && coarse(w[i]) != coarse(w[0]);
    assert Edge(g, w[0], w[1]);
    assert Edge(g, w[if i < |w| - 1 then i else 0], w[if i < |w| - 1 then i + 1 else 1]);
    assert fine(w[i]) != fine(w[0]);
    assert Crosses(g, fine, w);
  }

  /** Nodes are dropped exactly when the source has a cycle that crosses groups; what is
      kept has none. */
  lemma RemovesIffCrossing<K(!new), T(!new)>(h: Graph<GroupKey>, groups: map<GroupKey, Group<K, T>>, g: Graph<K>,
                                             data: map<K, T>, key: KeyFunc<K>, origKey: KeyFunc<K>,
                                             marked: set<GroupKey>, batches: seq<set<K>>, finalKey: KeyFunc<K>)
    requires GroupedResult(h, groups, g, data, key, origKey, marked, batches, finalKey)
    ensures batches != [] <==> HasCrossingCycle(g, key)
    ensures !HasCrossingCycle(Without(g, Union(batches)), key)
    ensures Acyclic(g) ==> batches == []
  {
    var left := Without(g, Union(batches));
    AcyclicQuotientNothingCrosses(h, left, finalKey);
    if HasCrossingCycle(left, key) {
      CoarserCrossing(left, finalKey, key);
    }
    if batches == [] {
      assert Union(batches) == {};
      WithoutNone(g);
    } else {
      assert JustifiedBatch(g, key, batches[..0], batches[0]);
    }
  }

  /** Nothing is dropped and no group is split, except marked ones, exactly when the groups have
      no cycle to begin with. */
  lemma LeftAloneIffAcyclic<K(!new), T(!new)>(h: Graph<GroupKey>, groups: map<GroupKey, Group<K, T>>, g: Graph<K>,
                                              data: map<K, T>, key: KeyFunc<K>, origKey: KeyFunc<K>,
                                              marked: set<GroupKey>, batches: seq<set<K>>, finalKey: KeyFunc<K>)
    requires GroupedResult(h, groups, g, data, key, origKey, marked, batches, finalKey)
    ensures Acyclic(Quotient(g, key)) ==>
      batches == [] && forall n {:trigger finalKey(n)} :: n in g && key(n) !in marked ==> finalKey(n) == key(n)
    ensures Closed(g) && batches == [] && (forall n {:trigger finalKey(n)} :: n in g ==> finalKey(n) == key(n)) ==>
      Acyclic(Quotient(g, key))
  {
    RemovesIffCrossing(h, groups, g, data, key, origKey, marked, batches, finalKey);
    var q := Quotient(g, key);
    WithoutNone(g);
    assert Union<K>([]) == {};
    if Acyclic(q) {
      AcyclicQuotientNothingCrosses(q, g, key);
      AcyclicMeansNoCycle(q);
    }
    if Closed(g) && batches == [] && forall n {:trigger finalKey(n)} :: n in g ==> finalKey(n) == key(n) {
      SameKeysSameCycles(h, g, key, finalKey);
    }
  }

  lemma SameKeysSameCycles<K(!new)>(h: Graph<GroupKey>, g: Graph<K>, key: KeyFunc<K>, key': KeyFunc<K>)
    requires Closed(g) && forall n {:trigger key'(n)} :: n in g ==> key'(n) == key(n)
    requires Acyclic(h) && forall a, b :: Edge(h, a, b) <==> CrossEdge(g, key', a, b)
    ensures Acyclic(Quotient(g, key))
  {
    var q := Quotient(g, key);
    forall a, b | Edge(q, a, b)
      ensures Edge(h, a, b)
    {
      var x, y :| Edge(g, x, y) && key(x) == a && key(y) == b;
      assert key'(x) == a && key'(y) == b;
    }
    forall p
      ensures !ClosedWalk(q, p)
    {
      if ClosedWalk(q, p) {
        SubGraphWalk(q, h, p);
        assert ClosedWalk(h, p);
      }
    }
  }

  /** Evaluating the groups level by level meets every dependency between groups first. */
  lemma EvaluationRespectsSource<K(!new), T(!new)>(h: Graph<GroupKey>, groups: map<GroupKey, Group<K, T>>, g: Graph<K>,
                                                   data: map<K, T>, key: KeyFunc<K>, origKey: KeyFunc<K>,
                                                   marked: set<GroupKey>, batches: seq<set<K>>, finalKey: KeyFunc<K>,
                                                   levels: seq<set<GroupKey>>, circular: set<GroupKey>, a: K, b: K)
    requires GroupedResult(h, groups, g, data, key, origKey, marked, batches, finalKey)
    requires Evaluation(h, levels, circular)
    requires Edge(g, a, b) && a in g && b in g && a !in Union(batches) && b !in Union(batches)
    requires finalKey(a) != finalKey(b)
    ensures circular == {}
    ensures exists i, j :: 0 <= j < i < |levels| && finalKey(a) in levels[i] && finalKey(b) in levels[j]
  {
    AcyclicMeansNoCycle(h);
    assert forall c :: c in circular ==> ReachesCycle(h, c);
    var left := Without(g, Union(batches));
    assert Edge(left, a, b);
    assert CrossEdge(left, finalKey, finalKey(a), finalKey(b));
    assert Edge(h, finalKey(a), finalKey(b));
    assert a in left.Keys && b in left.Keys;
    assert finalKey(a) in h && finalKey(b) in h;
    var i :| 0 <= i < |levels| && finalKey(a) in levels[i];
    var j :| 0 <= j < |levels| && finalKey(b) in levels[j];
    EdgeGoesToEarlierGroup(h, levels, finalKey(a), finalKey(b), i, j);
  }
}
