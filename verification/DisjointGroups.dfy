/** `buildAcyclicGroupedGraph`: groups marked disjoint are first broken into levels. */
module DisjointGroups {
  import opened Graphs
  import opened NodeMaps
  import opened EvaluationOrder
  import opened GroupGraph
  import opened GroupSplit
  import opened GroupCycles
  import opened Wrappers
  import opened GroupBuild

  /** The longest chains that start at the two nodes are equally long. */
  ghost predicate SameLevel<K(!new)>(g: Graph<K>, a: K, b: K) {
    exists k :: LongestChain(g, a, k) && LongestChain(g, b, k)
  }

  ghost predicate NothingInside<K(!new)>(g: Graph<K>, members: set<K>) {
    forall a, b :: a in members && b in members ==> !Edge(g, a, b)
  }

  /** Exactly the members on one level have one key. */
  ghost predicate KeyedByLevel<K(!new)>(g: Graph<K>, key': KeyFunc<K>, members: set<K>) {
    forall a, b {:trigger key'(a), key'(b)} ::
      a in members && b in members ==> (key'(a) == key'(b) <==> SameLevel(Inner(g, members), a, b))
  }

  /** What splitting one group into dependency-free levels does to the key function. The group
      keeps its key if it is one level. */
  ghost predicate LevelsSplit<K(!new)>(g: Graph<K>, key: KeyFunc<K>, key': KeyFunc<K>, group: GroupKey,
                                       members: set<K>, serial: nat, serial': nat) {
    && serial <= serial'
    && (forall n {:trigger key'(n)} :: n !in members ==> key'(n) == key(n))
    && (forall n {:trigger key'(n)} :: n in members ==>
          key'(n) == key(n) || (key'(n).Unique? && key'(n).base == group && serial <= key'(n).serial < serial'))
    && (forall n {:trigger key'(n)} :: n in members ==> (key'(n) == key(n) <==> NothingInside(g, members)))
    && KeyedByLevel(g, key', members)
    && (forall a, b :: a in members && b in members && Edge(g, a, b) ==> key'(a) != key'(b))
    && Acyclic(Inner(g, members))
  }

  /** Builds the graph of the group's own edges. */
  method OwnEdges<K(==, !new), T>(source: NodeMap<K, T>, groupNodeIds: set<K>) returns (own: NodeMap<K, K>)
    requires source.Valid() && groupNodeIds <= source.nodes.Keys
    ensures fresh(own) && own.Valid() && own.nodes == Inner(source.nodes, groupNodeIds)
  {
    own := new NodeMap<K, K>(map[], map[]);
    var nodes := source.nodes;
    var todo := groupNodeIds;
    while todo != {}
      invariant todo <= groupNodeIds && own.Valid()
      invariant groupNodeIds - todo <= own.nodes.Keys <= groupNodeIds
      invariant forall a, b ::
        Edge(own.nodes, a, b) <==> Edge(nodes, a, b) && a in groupNodeIds - todo && b in groupNodeIds
    {
      var nodeId :| nodeId in todo;
      own.AddNode(nodeId, nodes[nodeId] * groupNodeIds, nodeId);
      todo := todo - {nodeId};
    }
    SameNodesSameGraph(Inner(nodes, groupNodeIds), own.nodes);
  }

  /** Each level has its own fresh key. */
  ghost predicate LevelKeyed<K(!new)>(keys: map<K, GroupKey>, levels: seq<set<K>>, group: GroupKey, serial: nat) {
    && keys.Keys == Union(levels)
    && forall i, n :: 0 <= i < |levels| && n in levels[i] ==> n in keys && keys[n] == Unique(group, serial + i)
  }

  method AssignLevels<K(==, !new)>(levels: seq<set<K>>, group: GroupKey, serial: nat)
    returns (nodeIdToNewGroup: map<K, GroupKey>)
    requires forall i, j :: 0 <= i < j < |levels| ==> levels[i] !! levels[j]
    ensures LevelKeyed(nodeIdToNewGroup, levels, group, serial)
  {
    nodeIdToNewGroup := map[];
    var k := 0;
    assert Union(levels[..0]) == {};
    while k < |levels|
      invariant k <= |levels| && LevelKeyed(nodeIdToNewGroup, levels[..k], group, serial)
    {
      var nodeIds, newGroupId := levels[k], Unique(group, serial + k);
      UnionAppend(levels[..k], nodeIds);
      assert levels[..k] + [nodeIds] == levels[..k + 1];
      nodeIdToNewGroup := nodeIdToNewGroup + map n | n in nodeIds :: newGroupId;
      k := k + 1;
    }
    assert levels[..k] == levels;
  }

  lemma LevelsDisjoint<K(!new)>(g: Graph<K>, levels: seq<set<K>>)
    requires Levelled(g, levels)
    ensures forall i, j :: 0 <= i < j < |levels| ==> levels[i] !! levels[j]
  {
    forall i, j, n | 0 <= i < j < |levels| && n in levels[i] && n in levels[j]
      ensures false
    {
      assert LongestChain(g, n, i) && LongestChain(g, n, j);
      OneLongest(g, n, i, j);
    }
  }

  lemma OnOneLevel<K(!new)>(h: Graph<K>, levels: seq<set<K>>, a: K, b: K, i: nat, j: nat)
    requires Levelled(h, levels) && i < |levels| && j < |levels| && a in levels[i] && b in levels[j]
    ensures SameLevel(h, a, b) <==> i == j
  {
    assert LongestChain(h, a, i) && LongestChain(h, b, j);
    if k :| LongestChain(h, a, k) && LongestChain(h, b, k) {
      OneLongest(h, a, i, k);
      OneLongest(h, a, k, i);
      OneLongest(h, b, j, k);
      OneLongest(h, b, k, j);
    }
  }

  lemma OneLevelNothingInside<K(!new)>(g: Graph<K>, members: set<K>, levels: seq<set<K>>)
    requires Levelled(Inner(g, members), levels) && |levels| == 1 && levels[0] == members
    ensures NothingInside(g, members)
  {
    forall a, b | a in members && b in members
      ensures !Edge(g, a, b)
    {
      if Edge(g, a, b) {
        assert Edge(Inner(g, members), a, b);
        EdgeGoesToEarlierGroup(Inner(g, members), levels, a, b, 0, 0);
      }
    }
  }

  lemma MoreLevelsSomethingInside<K(!new)>(g: Graph<K>, members: set<K>, levels: seq<set<K>>, n: K)
    requires Levelled(Inner(g, members), levels) && |levels| > 1 && n in levels[1]
    ensures !NothingInside(g, members)
  {
    var h := Inner(g, members);
    assert LongestChain(h, n, 1);
    var p :| IsWalk(h, p) && p[0] == n && |p| == 2;
    assert Edge(h, p[0], p[1]);
    assert Edge(g, p[0], p[1]) && p[0] in members && p[1] in members;
  }

  /** There is one level exactly if nothing in the group depends on anything in it. */
  lemma OneLevelIff<K(!new)>(g: Graph<K>, members: set<K>, levels: seq<set<K>>)
    requires members <= g.Keys && members != {} && Evaluation(Inner(g, members), levels, {})
    ensures |levels| == 1 <==> NothingInside(g, members)
  {
    assert Union(levels) == members;
    if |levels| == 1 {
      assert levels[0] == members;
      OneLevelNothingInside(g, members, levels);
    } else {
      var m :| m in members;
      assert m in Union(levels);
      assert |levels| > 1 && levels[1] != {};
      var n :| n in levels[1];
      MoreLevelsSomethingInside(g, members, levels, n);
    }
  }

  lemma LevelOf<K(!new)>(levels: seq<set<K>>, n: K) returns (i: nat)
    requires n in Union(levels)
    ensures i < |levels| && n in levels[i]
  {
    i :| 0 <= i < |levels| && n in levels[i];
  }

  lemma LevelKeysAre<K(!new)>(keys: map<K, GroupKey>, levels: seq<set<K>>, group: GroupKey, serial: nat, n: K, i: nat)
    requires LevelKeyed(keys, levels, group, serial) && i < |levels| && n in levels[i]
    ensures n in keys && keys[n] == Unique(group, serial + i)
  {}

  /** The keys made of the levels are those of the levels. */
  lemma KeysOfLevels<K(!new)>(g: Graph<K>, key': KeyFunc<K>, group: GroupKey, members: set<K>, serial: nat,
                              levels: seq<set<K>>, keys: map<K, GroupKey>)
    requires Levelled(Inner(g, members), levels) && Union(levels) == members
    requires LevelKeyed(keys, levels, group, serial)
    requires |levels| == 1 ==> forall n {:trigger key'(n)} :: n in members ==> key'(n) == group
    requires |levels| != 1 ==> forall n {:trigger key'(n)} :: n in keys ==> key'(n) == keys[n]
    ensures KeyedByLevel(g, key', members)
  {
    forall a, b | a in members && b in members
      ensures key'(a) == key'(b) <==> SameLevel(Inner(g, members), a, b)
    {
      var i := LevelOf(levels, a);
      var j := LevelOf(levels, b);
      OnOneLevel(Inner(g, members), levels, a, b, i, j);
      LevelKeysAre(keys, levels, group, serial, a, i);
      LevelKeysAre(keys, levels, group, serial, b, j);
    }
  }

  ghost function Depth(key: GroupKey): nat {
    match key
    case Given(_) => 0
    case Unique(base, _) => Depth(base) + 1
  }

  lemma FreshKeyDiffers(group: GroupKey, serial: nat)
    ensures Unique(group, serial) != group
  {
    assert Depth(Unique(group, serial)) == Depth(group) + 1;
  }

  lemma KeyStaysIff<K(!new)>(key': KeyFunc<K>, group: GroupKey, serial: nat, levels: seq<set<K>>,
                             keys: map<K, GroupKey>, n: K)
    requires LevelKeyed(keys, levels, group, serial) && n in Union(levels)
    requires if |levels| == 1 then key'(n) == group else n in keys && key'(n) == keys[n]
    ensures key'(n) == group <==> |levels| == 1
  {
    var i := LevelOf(levels, n);
    LevelKeysAre(keys, levels, group, serial, n, i);
    FreshKeyDiffers(group, serial + i);
  }

  /** With all its nodes on levels, the group has no cycle, and an edge joins two levels. */
  lemma LevelsSplitGroup<K(!new)>(g: Graph<K>, key: KeyFunc<K>, key': KeyFunc<K>, group: GroupKey, members: set<K>,
                                  serial: nat, levels: seq<set<K>>, keys: map<K, GroupKey>)
    requires members <= g.Keys && Evaluation(Inner(g, members), levels, {})
    requires LevelKeyed(keys, levels, group, serial) && forall n {:trigger key(n)} :: n in members ==> key(n) == group
    requires |levels| == 1 ==> forall n {:trigger key'(n)} :: key'(n) == key(n)
    requires |levels| != 1 ==> forall n {:trigger key'(n)} :: key'(n) == if n in keys then keys[n] else key(n)
    ensures LevelsSplit(g, key, key', group, members, serial, serial + |levels|)
  {
    var h := Inner(g, members);
    assert Union(levels) == members;
    KeysOfLevels(g, key', group, members, serial, levels, keys);
    forall n | n in members
      ensures key'(n) == key(n) <==> NothingInside(g, members)
    {
      OneLevelIff(g, members, levels);
      KeyStaysIff(key', group, serial, levels, keys, n);
    }
    forall a, b | a in members && b in members && Edge(g, a, b)
      ensures key'(a) != key'(b)
    {
      assert Edge(h, a, b);
      var i :| 0 <= i < |levels| && a in levels[i];
      var j :| 0 <= j < |levels| && b in levels[j];
      EdgeGoesToEarlierGroup(h, levels, a, b, i, j);
    }
    forall n
      ensures !OnCycle(h, n)
    {
      if OnCycle(h, n) {
        ReachesSelf(h, n);
        var _ := OnCycleUnfold(h, n);
        assert ReachesCycle(h, n);
      }
    }
    AcyclicMeansNoCycle(h);
  }

  method BreakToDisjointGroup<K(==, !new), T>(groupId: GroupKey, groupNodeIds: set<K>, source: NodeMap<K, T>,
                                              groupKey: KeyFunc<K>, serial: nat)
    returns (update: KeyUpdate<K>, serial': nat)
    requires source.Valid() && groupNodeIds <= source.nodes.Keys
    requires forall n {:trigger groupKey(n)} :: n in groupNodeIds ==> groupKey(n) == groupId
    ensures update.Updated? ==>
      LevelsSplit(source.nodes, groupKey, update.groupKey, groupId, groupNodeIds, serial, serial')
    ensures update.CircularDependency? ==>
      && update.causingNodeIds != {}
      && forall n :: n in update.causingNodeIds <==>
           n in groupNodeIds && ReachesCycle(Inner(source.nodes, groupNodeIds), n)
  {
    var groupGraph := OwnEdges(source, groupNodeIds);
    ghost var own := groupGraph.nodes;
    var levels, circular := EvaluationOrderGroupsDestructive(groupGraph);
    if circular != {} {
      return CircularDependency(circular), serial;
    }
    LevelsDisjoint(own, levels);
    var nodeIdToNewGroup := AssignLevels(levels, groupId, serial);
    var key' := groupKey;
    if |levels| != 1 {
      key' := id => if id in nodeIdToNewGroup then nodeIdToNewGroup[id] else groupKey(id);
    }
    LevelsSplitGroup(source.nodes, groupKey, key', groupId, groupNodeIds, serial, levels, nodeIdToNewGroup);
    return Updated(key'), serial + |levels|;
  }

  // ----- all the marked groups -----

  /** What is true once the groups in `broken` were split: keys only got finer, only there,
      and no edge is left inside them. */
  ghost predicate BrokenUp<K(!new)>(g: Graph<K>, key: KeyFunc<K>, key': KeyFunc<K>, broken: set<GroupKey>) {
    && Narrows(g, key', key)
    && (forall n {:trigger key'(n)} :: n in g && key(n) !in broken ==> key'(n) == key(n))
    && NoEdgeInside(g, key, key', broken)
    && BrokenByLevel(g, key, key', broken)
    && forall group {:trigger Members(g.Keys, key, group)} ::
         group in broken ==> Acyclic(Inner(g, Members(g.Keys, key, group)))
  }

  /** In each broken group exactly the nodes on one level of it have one key, and a group of one
      level has the key it had. */
  ghost predicate BrokenByLevel<K(!new)>(g: Graph<K>, key: KeyFunc<K>, key': KeyFunc<K>, broken: set<GroupKey>) {
    forall group {:trigger Members(g.Keys, key, group)} :: group in broken ==>
      var members := Members(g.Keys, key, group);
      && KeyedByLevel(g, key', members)
      && forall n {:trigger key'(n)} :: n in members ==> (key'(n) == key(n) <==> NothingInside(g, members))
  }

  ghost predicate NoEdgeInside<K(!new)>(g: Graph<K>, key: KeyFunc<K>, key': KeyFunc<K>, broken: set<GroupKey>) {
    forall a, b :: Edge(g, a, b) && a in g && b in g && key(a) == key(b) && key(a) in broken ==> key'(a) != key'(b)
  }

  lemma BreakOneMore<K(!new)>(g: Graph<K>, key: KeyFunc<K>, key': KeyFunc<K>, broken: set<GroupKey>, group: GroupKey,
                              key'': KeyFunc<K>, serial: nat, serial': nat)
    requires BrokenUp(g, key, key', broken) && group !in broken && SerialsBelow(g, key', serial)
    requires LevelsSplit(g, key', key'', group, Members(g.Keys, key, group), serial, serial')
    ensures BrokenUp(g, key, key'', broken + {group}) && SerialsBelow(g, key'', serial')
  {
    var members := Members(g.Keys, key, group);
    forall n | n in members
      ensures key'(n) == key(n) == group
    {}
    forall a, b | a in g && b in g && key''(a) == key''(b)
      ensures key(a) == key(b)
    {
      if a !in members && b !in members {
        assert key'(a) == key'(b);
      }
    }
    forall a, b | Edge(g, a, b) && a in g && b in g && key(a) == key(b) && key(a) in broken + {group}
      ensures key''(a) != key''(b)
    {
      if key(a) == group {
        assert a in members && b in members;
      }
    }
  }

  /** A marked group that depends on itself in a cycle cannot be broken up. */
  ghost predicate CyclicInside<K(!new)>(g: Graph<K>, key: KeyFunc<K>, group: GroupKey) {
    !Acyclic(Inner(g, Members(g.Keys, key, group)))
  }

  /** The nodes of the group that reach a cycle inside it. */
  ghost predicate IsCircular<K(!new)>(g: Graph<K>, key: KeyFunc<K>, group: GroupKey, nodes: set<K>) {
    var members := Members(g.Keys, key, group);
    nodes != {} && forall n {:trigger n in nodes} :: n in nodes <==> n in members && ReachesCycle(Inner(g, members), n)
  }

  method BreakToDisjointGroups<K(==, !new), T>(source: NodeMap<K, T>, groupKey: KeyFunc<K>,
                                               disjointGroups: set<GroupKey>)
    returns (update: KeyUpdate<K>, serial: nat)
    requires source.Valid()
    requires forall n {:trigger groupKey(n)} :: groupKey(n).Given?
    ensures update.CircularDependency? <==>
      exists group :: group in disjointGroups && CyclicInside(source.nodes, groupKey, group)
    ensures update.CircularDependency? ==>
      exists group :: group in disjointGroups && IsCircular(source.nodes, groupKey, group, update.causingNodeIds)
    ensures update.Updated? ==>
      && BrokenUp(source.nodes, groupKey, update.groupKey, disjointGroups)
      && SerialsBelow(source.nodes, update.groupKey, serial)
  {
    ghost var g := source.nodes;
    var key' := groupKey;
    serial := 0;
    var todo := Groups(source.nodes.Keys, groupKey) * disjointGroups;
    ghost var broken: set<GroupKey> := {};
    while todo != {}
      invariant todo !! broken && todo + broken == Groups(g.Keys, groupKey) * disjointGroups
      invariant BrokenUp(g, groupKey, key', broken) && SerialsBelow(g, key', serial)
    {
      var groupId :| groupId in todo;
      var groupNodeIds := Members(source.nodes.Keys, groupKey, groupId);
      ghost var before, serial0 := key', serial;
      update, serial := BreakToDisjointGroup(groupId, groupNodeIds, source, key', serial);
      if update.CircularDependency? {
        assert IsCircular(g, groupKey, groupId, update.causingNodeIds);
        CircularIsCyclic(g, groupKey, groupId, update.causingNodeIds);
        return;
      }
      key' := update.groupKey;
      BreakOneMore(g, groupKey, before, broken, groupId, key', serial0, serial);
      todo, broken := todo - {groupId}, broken + {groupId};
    }
    AbsentGroupsAreBroken(g, groupKey, key', broken, disjointGroups);
    update := Updated(key');
  }

  lemma CircularIsCyclic<K(!new)>(g: Graph<K>, key: KeyFunc<K>, group: GroupKey, circular: set<K>)
    requires circular != {}
    requires forall n :: n in circular ==> ReachesCycle(Inner(g, Members(g.Keys, key, group)), n)
    ensures CyclicInside(g, key, group)
  {
    AcyclicMeansNoCycle(Inner(g, Members(g.Keys, key, group)));
    var n :| n in circular;
    assert ReachesCycle(Inner(g, Members(g.Keys, key, group)), n);
  }

  /** A marked key that no node has needs no breaking. */
  lemma AbsentGroupsAreBroken<K(!new)>(g: Graph<K>, key: KeyFunc<K>, key': KeyFunc<K>, broken: set<GroupKey>,
                                       marked: set<GroupKey>)
    requires BrokenUp(g, key, key', broken) && broken == Groups(g.Keys, key) * marked
    ensures BrokenUp(g, key, key', marked)
    ensures forall group :: group in marked ==> !CyclicInside(g, key, group)
  {
    forall n | n in g && key(n) !in marked
      ensures key'(n) == key(n)
    {
      assert key(n) !in broken;
    }
    forall a, b | Edge(g, a, b) && a in g && b in g && key(a) == key(b) && key(a) in marked
      ensures key'(a) != key'(b)
    {
      assert key(a) in Groups(g.Keys, key);
    }
    forall group | group in marked
      ensures Acyclic(Inner(g, Members(g.Keys, key, group)))
    {
      if group !in broken {
        assert Members(g.Keys, key, group) == {};
        var h := Inner(g, {});
        forall p
          ensures !ClosedWalk(h, p)
        {
          assert |p| > 1 ==> !Edge(h, p[0], p[1]);
        }
      } else {
        assert Members(g.Keys, key, group) == Members(g.Keys, key, group);
      }
    }
  }

  /** Breaking up tears no cycle that was inside one group. */
  lemma BrokenUpCrossing<K(!new)>(g: Graph<K>, key: KeyFunc<K>, key': KeyFunc<K>, broken: set<GroupKey>, w: seq<K>)
    requires BrokenUp(g, key, key', broken) && Crosses(g, key', w)
    ensures Crosses(g, key, w)
  {
    if !Crosses(g, key, w) {
      forall j | 0 <= j < |w|
        ensures w[j] in g && key(w[j]) == key(w[0])
      {
        assert Edge(g, w[if j < |w| - 1 then j else 0], w[if j < |w| - 1 then j + 1 else 1]);
      }
      if key(w[0]) in broken {
        var members := Members(g.Keys, key, key(w[0]));
        var h := Inner(g, members);
        forall j | 0 <= j < |w| - 1
          ensures Edge(h, w[j], w[j + 1])
        {
          assert Edge(g, w[j], w[j + 1]);
        }
        assert ClosedWalk(h, w);
      }
    }
  }

  /** The whole result for the caller's own key function. */
  lemma ResultAfterBreaking<K(!new), T(!new)>(h: Graph<GroupKey>, groups: map<GroupKey, Group<K, T>>, g: Graph<K>,
                                              data: map<K, T>, key: KeyFunc<K>, key': KeyFunc<K>,
                                              broken: set<GroupKey>, batches: seq<set<K>>, finalKey: KeyFunc<K>)
    requires BrokenUp(g, key, key', broken)
    requires Closed(g) && GroupedResult(h, groups, g, data, key', key, {}, batches, finalKey)
    ensures GroupedResult(h, groups, g, data, key, key, broken, batches, finalKey)
    ensures NoEdgeInside(Without(g, Union(batches)), key, finalKey, broken)
  {
    var left := Without(g, Union(batches));
    forall w | Crosses(g, key', w)
      ensures Crosses(g, key, w)
    {
      BrokenUpCrossing(g, key, key', broken, w);
    }
    OutcomeForCoarser(g, key, broken, batches, finalKey, key');
    forall a, b | a in left && b in left && finalKey(a) == finalKey(b)
      ensures key'(a) == key'(b)
    {}
    assert forall a, b :: Edge(left, a, b) ==> Edge(g, a, b);
  }

  /** Fails exactly when a marked group has a cycle inside. Otherwise the graph is the acyclic
      quotient of what is kept; `RemovesIffCrossing` says when anything was dropped. */
  method BuildAcyclicGroupedGraph<K(==, !new), T(!new)>(source: NodeMap<K, T>, groupKey: KeyFunc<K>,
                                                        disjointGroups: set<GroupKey>)
    returns (graph: Option<NodeMap<GroupKey, Group<K, T>>>, removedCycles: seq<set<K>>, ghost finalKey: KeyFunc<K>,
             ghost brokenKey: KeyFunc<K>, ghost serial: nat, ghost steps: seq<Step<K>>)
    requires source.Valid() && source.nodes.Keys <= source.nodeData.Keys
    requires forall n {:trigger groupKey(n)} :: groupKey(n).Given?
    modifies source`nodes
    ensures source.Valid() && source.nodes == old(source.nodes)
    ensures graph.None? <==> exists group :: group in disjointGroups && CyclicInside(source.nodes, groupKey, group)
    ensures graph.Some? ==>
      && graph.value.Valid()
      && BrokenUp(source.nodes, groupKey, brokenKey, disjointGroups) && SerialsBelow(source.nodes, brokenKey, serial)
      && Built(graph.value.nodes, graph.value.nodeData, source.nodes, source.nodeData, brokenKey, groupKey, serial,
               steps)
      && removedCycles == Batches(steps) && finalKey == FinalKey(brokenKey, steps)
    ensures graph.Some? ==>
      && GroupedResult(graph.value.nodes, graph.value.nodeData, source.nodes, source.nodeData, groupKey, groupKey,
                       disjointGroups, removedCycles, finalKey)
      && NoEdgeInside(Without(source.nodes, Union(removedCycles)), groupKey, finalKey, disjointGroups)
  {
    finalKey, brokenKey, steps := groupKey, groupKey, [];
    var update, serial' := BreakToDisjointGroups(source, groupKey, disjointGroups);
    serial := serial';
    if update.CircularDependency? {
      return None, [], finalKey, brokenKey, serial, steps;
    }
    var built;
    built, removedCycles, steps := BuildAcyclicGroupedGraphImpl(source, update.groupKey, groupKey, [], serial');
    brokenKey, finalKey := update.groupKey, FinalKey(update.groupKey, steps);
    assert removedCycles == Batches(steps);
    BuiltIsGrouped(built.nodes, built.nodeData, source.nodes, source.nodeData, brokenKey, groupKey, serial, steps);
    ResultAfterBreaking(built.nodes, built.nodeData, source.nodes, source.nodeData, groupKey, brokenKey, disjointGroups,
                        removedCycles, finalKey);
    graph := Some(built);
  }
}
