/** The group graph of packages/dag: what a key function induces on a source graph. */
module GroupGraph {
  import opened Graphs
  import opened NodeMaps

  /** A key handed in by the caller, or one made by appending a fresh serial to a key. */
  datatype GroupKey = Given(name: string) | Unique(base: GroupKey, serial: nat)

  type KeyFunc<!K> = K -> GroupKey

  datatype Group<K, T> = Group(groupKey: GroupKey, items: map<K, T>)

  function Root(key: GroupKey): string {
    match key
    case Given(name) => name
    case Unique(base, _) => Root(base)
  }

  function Members<K(==)>(nodes: set<K>, key: KeyFunc<K>, group: GroupKey): set<K> {
    set n | n in nodes && key(n) == group
  }

  function Groups<K>(nodes: set<K>, key: KeyFunc<K>): set<GroupKey> {
    set n | n in nodes :: key(n)
  }

  ghost predicate CrossEdge<K(!new)>(g: Graph<K>, key: KeyFunc<K>, a: GroupKey, b: GroupKey) {
    a != b && exists x, y :: Edge(g, x, y) && key(x) == a && key(y) == b
  }

  /** Nodes that share a key under `fine` share one under `coarse`. */
  ghost predicate Refines<K(!new)>(g: Graph<K>, fine: KeyFunc<K>, coarse: KeyFunc<K>) {
    forall a, b {:trigger fine(a), fine(b)} :: a in g && b in g && fine(a) == fine(b) ==> coarse(a) == coarse(b)
  }

  /** Every node of `seen` is in the group its key names, under its original key and with
      its data, and nothing else is in any group. */
  ghost predicate Partitions<K(!new), T(!new)>(groups: map<GroupKey, Group<K, T>>, seen: set<K>, data: map<K, T>,
                                               key: KeyFunc<K>, origKey: KeyFunc<K>) {
    && groups.Keys == Groups(seen, key) && seen <= data.Keys
    && (forall k, n {:trigger n in groups[k].items} :: k in groups ==>
          (n in groups[k].items <==> n in seen && key(n) == k))
    && (forall k, n {:trigger groups[k].items[n]} :: k in groups && n in groups[k].items ==>
          groups[k].items[n] == data[n] && groups[k].groupKey == origKey(n))
  }

  /** `h` is the quotient of `g`: its nodes are the keys in use, its edges exactly the pairs
      of different groups with an edge between members, its data the partition of the nodes. */
  ghost predicate IsQuotient<K(!new), T(!new)>(h: Graph<GroupKey>, groups: map<GroupKey, Group<K, T>>, g: Graph<K>,
                                               data: map<K, T>, key: KeyFunc<K>, origKey: KeyFunc<K>) {
    && h.Keys == groups.Keys
    && (forall a, b :: Edge(h, a, b) <==> CrossEdge(g, key, a, b))
    && Partitions(groups, g.Keys, data, key, origKey)
  }

  method BuildPossiblyCyclicGroupGraph<K(==, !new), T(!new)>(source: NodeMap<K, T>, groupKey: KeyFunc<K>,
                                                             origGroupKey: KeyFunc<K>)
    returns (graph: NodeMap<GroupKey, Group<K, T>>)
    requires source.Valid() && source.nodes.Keys <= source.nodeData.Keys
    requires Refines(source.nodes, groupKey, origGroupKey)
    ensures fresh(graph) && graph.Valid()
    ensures IsQuotient(graph.nodes, graph.nodeData, source.nodes, source.nodeData, groupKey, origGroupKey)
  {
    graph := new NodeMap<GroupKey, Group<K, T>>(map[], map[]);
    AddGroups(source.nodes, source.nodeData, groupKey, origGroupKey, graph);
    AddGroupEdges(source.nodes, groupKey, graph);
  }

  /** Puts a node in its group, creating the group if it is the first. */
  method AddToGroup<K(==, !new), T>(graph: NodeMap<GroupKey, Group<K, T>>, groupId: GroupKey, origKey: GroupKey,
                                    nodeId: K, value: T)
    requires graph.Valid() && graph.nodes.Keys == graph.nodeData.Keys
    modifies graph
    ensures graph.Valid() && graph.nodes.Keys == graph.nodeData.Keys
    ensures forall a, b :: Edge(graph.nodes, a, b) <==> Edge(old(graph.nodes), a, b)
    ensures graph.nodeData
      == old(graph.nodeData)[groupId := Joined(old(graph.nodeData), groupId, origKey, nodeId, value)]
  {
    if groupId !in graph.nodes {
      graph.AddNode(groupId, {}, Group(origKey, map[]));
    }
    var group := graph.nodeData[groupId];
    graph.nodeData := graph.nodeData[groupId := group.(items := group.items[nodeId := value])];
  }

  method AddGroups<K(==, !new), T(!new)>(nodes: Graph<K>, data: map<K, T>, groupKey: KeyFunc<K>,
                                         origGroupKey: KeyFunc<K>, graph: NodeMap<GroupKey, Group<K, T>>)
    requires nodes.Keys <= data.Keys && Refines(nodes, groupKey, origGroupKey)
    requires graph.Valid() && graph.nodes == map[] && graph.nodeData == map[]
    modifies graph
    ensures graph.Valid() && forall a, b :: !Edge(graph.nodes, a, b)
    ensures graph.nodes.Keys == graph.nodeData.Keys
    ensures Partitions(graph.nodeData, nodes.Keys, data, groupKey, origGroupKey)
  {
    var todo := nodes.Keys;
    ghost var seen: set<K> := {};
    while todo != {}
      invariant seen !! todo && seen + todo == nodes.Keys
      invariant graph.Valid() && forall a, b :: !Edge(graph.nodes, a, b)
      invariant graph.nodes.Keys == graph.nodeData.Keys
      invariant Partitions(graph.nodeData, seen, data, groupKey, origGroupKey)
    {
      var nodeId :| nodeId in todo;
      var groupId := groupKey(nodeId);
      ghost var before := graph.nodeData;
      if groupId in before {
        FirstMemberNamesGroup(nodes, before, seen, data, groupKey, origGroupKey, nodeId);
      }
      PartitionsOneMore(before, seen, data, groupKey, origGroupKey, nodeId);
      AddToGroup(graph, groupId, origGroupKey(nodeId), nodeId, data[nodeId]);
      todo, seen := todo - {nodeId}, seen + {nodeId};
    }
  }

  /** The group as `AddGroups` leaves it once `n` is in it. */
  function Joined<K, T>(groups: map<GroupKey, Group<K, T>>, key: GroupKey, origKey: GroupKey, n: K, value: T):
    (group: Group<K, T>)
  {
    var group := if key in groups then groups[key] else Group(origKey, map[]);
    group.(items := group.items[n := value])
  }

  lemma FirstMemberNamesGroup<K(!new), T(!new)>(g: Graph<K>, groups: map<GroupKey, Group<K, T>>, seen: set<K>,
                                                data: map<K, T>, key: KeyFunc<K>, origKey: KeyFunc<K>, n: K)
    requires Partitions(groups, seen, data, key, origKey) && Refines(g, key, origKey)
    requires seen <= g.Keys && n in g && key(n) in groups
    ensures groups[key(n)].groupKey == origKey(n)
  {
    var m :| m in seen && key(m) == key(n);
    assert m in groups[key(n)].items;
  }

  lemma PartitionsOneMore<K(!new), T(!new)>(groups: map<GroupKey, Group<K, T>>, seen: set<K>, data: map<K, T>,
                                            key: KeyFunc<K>, origKey: KeyFunc<K>, n: K)
    requires Partitions(groups, seen, data, key, origKey)
    requires n in data && n !in seen
    requires key(n) in groups ==> groups[key(n)].groupKey == origKey(n)
    ensures Partitions(groups[key(n) := Joined(groups, key(n), origKey(n), n, data[n])], seen + {n}, data, key, origKey)
  {
    assert Groups(seen + {n}, key) == Groups(seen, key) + {key(n)};
    assert forall m :: m in seen ==> key(m) in groups;
  }

  method AddGroupEdges<K(==, !new), T>(nodes: Graph<K>, groupKey: KeyFunc<K>, graph: NodeMap<GroupKey, Group<K, T>>)
    requires graph.Valid() && Closed(nodes)
    requires forall a, b :: !Edge(graph.nodes, a, b)
    requires forall n :: n in nodes ==> groupKey(n) in graph.nodes
    modifies graph
    ensures graph.Valid() && graph.nodes.Keys == old(graph.nodes).Keys && graph.nodeData == old(graph.nodeData)
    ensures forall a, b :: Edge(graph.nodes, a, b) <==> CrossEdge(nodes, groupKey, a, b)
  {
    var edges := set from, to | from in nodes && to in nodes[from] :: (from, to);
    var todo := set e | e in edges && groupKey(e.0) != groupKey(e.1);
    assert forall x, y :: Edge(nodes, x, y) ==> (x, y) in edges;
    while todo != {}
      invariant forall e :: e in todo ==> Edge(nodes, e.0, e.1) && groupKey(e.0) != groupKey(e.1)
      invariant graph.Valid() && graph.nodes.Keys == old(graph.nodes).Keys && graph.nodeData == old(graph.nodeData)
      invariant forall a, b :: Edge(graph.nodes, a, b) ==> CrossEdge(nodes, groupKey, a, b)
      invariant forall x, y :: Edge(nodes, x, y) && groupKey(x) != groupKey(y) && (x, y) !in todo ==>
        Edge(graph.nodes, groupKey(x), groupKey(y))
    {
      var e :| e in todo;
      assert CrossEdge(nodes, groupKey, groupKey(e.0), groupKey(e.1));
      graph.AddEdge(groupKey(e.0), groupKey(e.1));
      todo := todo - {e};
    }
  }
}
