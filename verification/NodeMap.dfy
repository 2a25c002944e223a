/** The dependency map of packages/dag: a mutable graph that keeps its own reverse index. */
module NodeMaps {
  import opened Graphs

  // What each edit leaves behind, on the forward map alone.

  function WithNode<K(==, !new)>(g: Graph<K>, id: K): (h: Graph<K>)
    ensures forall a, b :: Edge(h, a, b) <==> Edge(g, a, b)
  {
    if id in g then g else g[id := {}]
  }

  function WithEdge<K(==, !new)>(g: Graph<K>, from: K, to: K): (h: Graph<K>)
    ensures h.Keys == g.Keys + {from, to}
    ensures forall a, b :: Edge(h, a, b) <==> Edge(g, a, b) || (a == from && b == to)
  {
    var g' := WithNode(g, from);
    WithNode(g'[from := g'[from] + {to}], to)
  }

  function WithoutEdge<K(==, !new)>(g: Graph<K>, from: K, to: K): (h: Graph<K>)
    ensures h.Keys == g.Keys
    ensures forall a, b :: Edge(h, a, b) <==> Edge(g, a, b) && !(a == from && b == to)
  {
    if from in g then g[from := g[from] - {to}] else g
  }

  function Without<K(==, !new)>(g: Graph<K>, ids: set<K>): (h: Graph<K>)
    ensures h.Keys == g.Keys - ids
    ensures forall a, b :: Edge(h, a, b) <==> Edge(g, a, b) && a !in ids && b !in ids
  {
    map n | n in g && n !in ids :: g[n] - ids
  }

  lemma WithoutNone<K(!new)>(g: Graph<K>)
    ensures Without(g, {}) == g
  {
    assert forall n :: n in g ==> g[n] - {} == g[n];
  }

  lemma WithoutTwice<K(!new)>(g: Graph<K>, ids: set<K>, more: set<K>)
    ensures Without(Without(g, ids), more) == Without(g, ids + more)
  {
    assert forall n :: n in g ==> g[n] - ids - more == g[n] - (ids + more);
  }

  function Dependents<K(==)>(g: Graph<K>, id: K): set<K> {
    set n | n in g && Edge(g, n, id)
  }

  lemma DetachedIsWithout<K(!new)>(g: Graph<K>, id: K, dependents: set<K>, h: Graph<K>)
    requires forall n :: n in dependents <==> Edge(g, n, id)
    requires h.Keys == g.Keys - {id}
    requires forall n :: n in h ==> h[n] == if n in dependents then g[n] - {id} else g[n]
    ensures h == Without(g, {id})
  {
    forall n | n in h
      ensures h[n] == g[n] - {id}
    {
      assert id in g[n] <==> Edge(g, n, id);
    }
  }

  lemma OnlyDependentsChange<K(!new)>(g: Graph<K>, id: K)
    ensures forall m :: m in g && m != id && m !in Dependents(g, id) ==> Without(g, {id})[m] == g[m]
  {
    forall m | m in g && m != id && m !in Dependents(g, id)
      ensures Without(g, {id})[m] == g[m]
    {
      assert !Edge(g, m, id);
    }
  }

  /** `h` is `g` with, at most, some new nodes that have no dependencies. */
  ghost predicate OnlyAddsNodes<K(!new)>(g: Graph<K>, h: Graph<K>) {
    && g.Keys <= h.Keys
    && forall a, b :: Edge(g, a, b) <==> Edge(h, a, b)
  }

  lemma SameNodesSameGraph<K(!new)>(g: Graph<K>, h: Graph<K>)
    requires OnlyAddsNodes(g, h) && h.Keys <= g.Keys
    ensures g == h
  {
    forall a | a in g
      ensures g[a] == h[a]
    {
      assert forall b :: b in g[a] <==> Edge(g, a, b);
      assert forall b :: b in h[a] <==> Edge(h, a, b);
    }
  }

  class NodeMap<K(==, !new), T> {
    var nodes: Graph<K>
    var reverseNeighbors: Graph<K>
    var nodeData: map<K, T>

    /** The reverse index is the exact transpose, and every dependency is a node. */
    ghost predicate Valid()
      reads this
    {
      Closed(nodes) && Transposed(nodes, reverseNeighbors)
    }

    static method CreateReverseNeighbors(entries: Graph<K>) returns (result: Graph<K>)
      ensures Transposed(entries, result)
    {
      result := map[];
      var ids := entries.Keys;
      while ids != {}
        invariant ids <= entries.Keys
        invariant forall a, b :: Edge(result, b, a) <==> a !in ids && Edge(entries, a, b)
      {
        var id :| id in ids;
        ghost var before := result;
        var deps := entries[id];
        while deps != {}
          invariant deps <= entries[id]
          invariant forall a, b :: Edge(result, b, a) <==>
            Edge(before, b, a) || (a == id && b in entries[id] && b !in deps)
        {
          var dep :| dep in deps;
          result := WithEdge(result, dep, id);
          deps := deps - {dep};
        }
        ids := ids - {id};
      }
    }

    constructor (entries: Graph<K>, data: map<K, T>)
      requires Closed(entries)
      ensures Valid() && nodes == entries && nodeData == data
    {
      nodes := entries;
      nodeData := data;
      new;
      reverseNeighbors := CreateReverseNeighbors(entries);
    }

    /** Reading a missing node creates it. */
    method Get(id: K) returns (deps: set<K>)
      modifies this`nodes
      ensures nodes == WithNode(old(nodes), id) && deps == nodes[id]
    {
      if id !in nodes {
        nodes := nodes[id := {}];
      }
      deps := nodes[id];
    }

    function GetReverse(id: K): (dependents: set<K>)
      reads this
      ensures forall n :: n in dependents <==> Edge(reverseNeighbors, id, n)
    {
      if id in reverseNeighbors then reverseNeighbors[id] else {}
    }

    method AddEdge(from: K, to: K)
      requires Valid()
      modifies this
      ensures Valid() && nodes == WithEdge(old(nodes), from, to)
      ensures nodeData == old(nodeData)
    {
      var deps := Get(from);
      nodes := nodes[from := deps + {to}];
      reverseNeighbors := reverseNeighbors[to := GetReverse(to) + {from}];
      var _ := Get(to);
      assert nodes == WithEdge(old(nodes), from, to);
      assert forall a, b :: Edge(reverseNeighbors, b, a) <==>
        Edge(old(reverseNeighbors), b, a) || (a == from && b == to);
    }

    method RemoveEdge(id: K, dependsOn: K)
      requires Valid()
      modifies this
      ensures Valid() && nodes == WithoutEdge(old(nodes), id, dependsOn)
      ensures nodeData == old(nodeData)
    {
      if id !in nodes {
        // avoid creating a node as a side effect
        assert !Edge(nodes, id, dependsOn);
        return;
      }
      nodes := nodes[id := nodes[id] - {dependsOn}];
      reverseNeighbors := reverseNeighbors[dependsOn := GetReverse(dependsOn) - {id}];
      assert nodes == WithoutEdge(old(nodes), id, dependsOn);
      assert forall a, b :: Edge(reverseNeighbors, b, a) <==>
        Edge(old(reverseNeighbors), b, a) && !(a == id && b == dependsOn);
    }

    /** Deletes `id` from the forward set of each of its dependents. */
    method DetachDependents(id: K, dependents: set<K>)
      requires dependents <= nodes.Keys
      modifies this`nodes
      ensures nodes == map n | n in old(nodes) ::
        if n in dependents then old(nodes)[n] - {id} else old(nodes)[n]
    {
      var todo := dependents;
      while todo != {}
        invariant todo <= dependents
        invariant nodes.Keys == old(nodes).Keys
        invariant forall n :: n in nodes ==>
          nodes[n] == if n in dependents - todo then old(nodes)[n] - {id} else old(nodes)[n]
      {
        var n :| n in todo;
        nodes := nodes[n := nodes[n] - {id}];
        todo := todo - {n};
      }
    }

    /** Deletes `id` from the reverse set of each of its dependencies. */
    method DetachDependencies(id: K, dependencies: set<K>)
      modifies this`reverseNeighbors
      ensures forall a, b :: Edge(reverseNeighbors, b, a) <==>
        Edge(old(reverseNeighbors), b, a) && !(a == id && b in dependencies)
    {
      var todo := dependencies;
      while todo != {}
        invariant todo <= dependencies
        invariant forall a, b :: Edge(reverseNeighbors, b, a) <==>
          Edge(old(reverseNeighbors), b, a) && !(a == id && b in dependencies - todo)
      {
        var n :| n in todo;
        var rest := GetReverse(n) - {id};
        reverseNeighbors := reverseNeighbors[n := rest];
        todo := todo - {n};
      }
    }

    /** The forward set the source holds is the stored one, so detaching a self-loop also
        shortens the second loop; the set it returns is the stored reverse set, which the
        second loop therefore leaves alone: a node with a self-loop is among its affected. */
    method DeleteNode(id: K) returns (affected: set<K>)
      requires Valid()
      modifies this
      ensures Valid() && nodes == Without(old(nodes), {id})
      ensures nodeData == old(nodeData) - {id}
      ensures affected == Dependents(old(nodes), id)
    {
      nodeData := nodeData - {id};
      var _ := Get(id);
      affected := GetReverse(id);
      assert forall n :: n in affected <==> Edge(old(nodes), n, id);
      DetachDependents(id, affected);
      DetachDependencies(id, nodes[id]);
      nodes := nodes - {id};
      DetachedIsWithout(old(nodes), id, affected, nodes);
      ghost var detached := reverseNeighbors;
      reverseNeighbors := reverseNeighbors - {id};
      assert forall a, b :: Edge(reverseNeighbors, b, a) <==> b != id && Edge(detached, b, a);
    }

    method ClearEdges()
      requires Valid()
      modifies this
      ensures Valid() && nodes == map n | n in old(nodes) :: {}
      ensures nodeData == old(nodeData)
    {
      nodes := map n | n in nodes :: {};
      reverseNeighbors := map[];
    }

    method Clone() returns (copy: NodeMap<K, T>)
      requires Valid()
      ensures fresh(copy) && copy.Valid()
      ensures copy.nodes == nodes && copy.nodeData == nodeData
    {
      copy := new NodeMap(nodes, nodeData);
    }

    method CloneWithout(ids: set<K>) returns (copy: NodeMap<K, T>)
      requires Valid()
      ensures fresh(copy) && copy.Valid()
      ensures copy.nodes == Without(nodes, ids) && copy.nodeData == nodeData - ids
    {
      copy := new NodeMap(Without(nodes, ids), nodeData - ids);
    }

    method AddNode(id: K, dependsOn: set<K>, data: T)
      requires Valid()
      modifies this
      ensures Valid() && nodeData == old(nodeData)[id := data]
      ensures nodes.Keys == old(nodes).Keys + dependsOn + {id}
      ensures forall a, b :: Edge(nodes, a, b) <==> Edge(old(nodes), a, b) || (a == id && b in dependsOn)
    {
      var todo := dependsOn;
      while todo != {}
        invariant todo <= dependsOn
        invariant Valid() && nodeData == old(nodeData)
        invariant old(nodes).Keys + (dependsOn - todo) <= nodes.Keys <= old(nodes).Keys + dependsOn + {id}
        invariant forall a, b :: Edge(nodes, a, b) <==>
          Edge(old(nodes), a, b) || (a == id && b in dependsOn - todo)
      {
        var dep :| dep in todo;
        AddEdge(id, dep);
        todo := todo - {dep};
      }
      var _ := Get(id);
      nodeData := nodeData[id := data];
    }
  }
}
