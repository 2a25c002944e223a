/** The depth-first searches of `AbstractNodeMap`: cycles and components. */
module Cycles {
  import opened Graphs
  import opened NodeMaps
  import opened Wrappers

  // ----- hasCycle and doesCreateCycle -----

  /** From `from` one can reach a node already visited, or a cycle. */
  ghost predicate ClosesCycle<K(!new)>(g: Graph<K>, from: K, visited: set<K>) {
    exists n :: Reaches(g, from, n) && (n in visited || OnCycle(g, n))
  }

  lemma ClosesCycleInto<K(!new)>(g: Graph<K>, from: K, visited: set<K>) returns (d: K)
    requires from !in visited && ClosesCycle(g, from, visited)
    ensures Edge(g, from, d) && ClosesCycle(g, d, visited + {from})
  {
    var n :| Reaches(g, from, n) && (n in visited || OnCycle(g, n));
    if n == from {
      d := OnCycleUnfold(g, from);
    } else {
      d := ReachesUnfold(g, from, n);
    }
  }

  lemma ClosesCycleFrom<K(!new)>(g: Graph<K>, from: K, d: K, visited: set<K>)
    requires Edge(g, from, d) && ClosesCycle(g, d, visited + {from})
    ensures ClosesCycle(g, from, visited)
  {
    var n :| Reaches(g, d, n) && (n in visited + {from} || OnCycle(g, n));
    ReachesStep(g, from, d, n);
    if n == from {
      OnCycleFold(g, from, d);
    }
  }

  lemma SameEdgesClosesCycle<K(!new)>(g: Graph<K>, h: Graph<K>, from: K, visited: set<K>)
    requires SubGraph(g, h) && SubGraph(h, g)
    ensures ClosesCycle(g, from, visited) <==> ClosesCycle(h, from, visited)
  {
    if ClosesCycle(g, from, visited) {
      SubGraphClosesCycle(g, h, from, visited);
    }
    if ClosesCycle(h, from, visited) {
      SubGraphClosesCycle(h, g, from, visited);
    }
  }

  lemma SubGraphClosesCycle<K(!new)>(g: Graph<K>, h: Graph<K>, from: K, visited: set<K>)
    requires SubGraph(g, h) && ClosesCycle(g, from, visited)
    ensures ClosesCycle(h, from, visited)
  {
    var n :| Reaches(g, from, n) && (n in visited || OnCycle(g, n));
    SubGraphReaches(g, h, from, n);
    if n !in visited {
      var p :| ClosedWalk(g, p) && p[0] == n;
      SubGraphWalk(g, h, p);
    }
  }

  /** The nodes a search can meet: the keys and every dependency, created or not. */
  ghost function Universe<K>(g: Graph<K>): set<K> {
    g.Keys + set a, b | a in g && b in g[a] :: b
  }

  method HasCycle<K(==, !new), T>(graph: NodeMap<K, T>, from: K, visited: set<K>) returns (found: bool)
    modifies graph`nodes
    ensures OnlyAddsNodes(old(graph.nodes), graph.nodes)
    ensures Universe(graph.nodes) == Universe(old(graph.nodes)) + if from in visited then {} else {from}
    ensures found <==> ClosesCycle(old(graph.nodes), from, visited)
    decreases Universe(graph.nodes) + {from} - visited
  {
    if from in visited {
      ReachesSelf(graph.nodes, from);
      return true;
    }
    ghost var g := graph.nodes;
    var deps := graph.Get(from);
    var todo := deps;
    while todo != {}
      invariant todo <= deps
      invariant OnlyAddsNodes(g, graph.nodes)
      invariant Universe(graph.nodes) == Universe(g) + {from}
      invariant forall d :: d in deps - todo ==> !ClosesCycle(g, d, visited + {from})
    {
      var d :| d in todo;
      assert Edge(graph.nodes, from, d);
      assert Universe(graph.nodes) + {d} - (visited + {from}) < Universe(g) + {from} - visited;
      SameEdgesClosesCycle(g, graph.nodes, d, visited + {from});
      var closes := HasCycle(graph, d, visited + {from});
      if closes {
        ClosesCycleFrom(g, from, d, visited);
        return true;
      }
      todo := todo - {d};
    }
    if ClosesCycle(g, from, visited) {
      var d := ClosesCycleInto(g, from, visited);
    }
    return false;
  }

  /** The replacement is undone afterwards, so only empty nodes can remain of the search. */
  method DoesCreateCycle<K(==, !new), T>(graph: NodeMap<K, T>, changes: Graph<K>, findCycleFrom: K)
    returns (createsCycle: bool)
    requires graph.Valid()
    modifies graph`nodes
    ensures graph.Valid() && OnlyAddsNodes(old(graph.nodes), graph.nodes)
    ensures createsCycle <==> ReachesCycle(old(graph.nodes) + changes, findCycleFrom)
  {
    ghost var g := graph.nodes;
    var origEdges: Graph<K> := map[];
    var ids := changes.Keys;
    while ids != {}
      invariant ids <= changes.Keys
      invariant OnlyAddsNodes(g, graph.nodes)
      invariant origEdges.Keys == changes.Keys - ids <= graph.nodes.Keys
      invariant forall id :: id in origEdges ==> origEdges[id] == graph.nodes[id]
    {
      var id :| id in ids;
      var deps := graph.Get(id);
      origEdges := origEdges[id := deps];
      ids := ids - {id};
    }
    ghost var widened := graph.nodes;
    graph.nodes := graph.nodes + changes;
    ghost var replaced := graph.nodes;
    createsCycle := HasCycle(graph, findCycleFrom, {});
    graph.nodes := graph.nodes + origEdges;
    forall a, b
      ensures Edge(g + changes, a, b) <==> Edge(replaced, a, b)
    {
      assert a !in changes ==> (Edge(g, a, b) <==> Edge(widened, a, b));
    }
    SameEdgesClosesCycle(g + changes, replaced, findCycleFrom, {});
    forall a, b
      ensures Edge(graph.nodes, a, b) <==> Edge(g, a, b)
    {
      assert Edge(widened, a, b) <==> Edge(g, a, b);
      assert a !in changes ==> (Edge(replaced, a, b) <==> Edge(widened, a, b));
    }
  }

  // ----- getCycle -----

  datatype Status = InProgress | Done

  /** Consecutive edges that come back to where they started, no source met twice. */
  ghost predicate SimpleCycle<K>(g: Graph<K>, c: seq<(K, K)>) {
    && EdgePath(g, c)
    && |c| > 0 && c[|c| - 1].1 == c[0].0
  }

  ghost predicate EdgePath<K>(g: Graph<K>, path: seq<(K, K)>) {
    && (forall i :: 0 <= i < |path| ==> Edge(g, path[i].0, path[i].1))
    && (forall i :: 0 < i < |path| ==> path[i - 1].1 == path[i].0)
    && (forall i, j :: 0 <= i < j < |path| ==> path[i].0 != path[j].0)
  }

  ghost function Coloured<K>(colors: map<K, Status>, status: Status): set<K> {
    set n | n in colors && colors[n] == status
  }

  ghost function Sources<K>(path: seq<(K, K)>): set<K> {
    set i | 0 <= i < |path| :: path[i].0
  }

  lemma SourcesAppend<K>(path: seq<(K, K)>, edge: (K, K))
    ensures Sources(path + [edge]) == Sources(path) + {edge.0}
  {
    var path' := path + [edge];
    assert path'[|path|] == edge;
    assert forall i :: 0 <= i < |path| ==> path'[i] == path[i];
  }

  lemma EdgePathAppend<K(!new)>(g: Graph<K>, path: seq<(K, K)>, edge: (K, K))
    requires EdgePath(g, path) && Edge(g, edge.0, edge.1) && edge.0 !in Sources(path)
    requires |path| > 0 ==> path[|path| - 1].1 == edge.0
    ensures EdgePath(g, path + [edge])
  {
    assert forall i :: 0 <= i < |path| ==> path[i].0 in Sources(path);
  }

  /** What the finished nodes are known to be: closed under dependencies and on no cycle. */
  ghost predicate Finished<K(!new)>(g: Graph<K>, done: set<K>) {
    && ClosedUnder(g, done)
    && forall n :: n in done ==> !OnCycle(g, n)
  }

  lemma FinishedGrows<K(!new)>(g: Graph<K>, done: set<K>, id: K)
    requires Finished(g, done) && id !in done
    requires forall b :: Edge(g, id, b) ==> b in done
    ensures Finished(g, done + {id})
  {
    if OnCycle(g, id) {
      var b := OnCycleUnfold(g, id);
      ClosedUnderReaches(g, done, b, id);
    }
  }

  method GetCycleFrom<K(==, !new), T>(graph: NodeMap<K, T>, id: K, colors: map<K, Status>, path: seq<(K, K)>)
    returns (cycle: Option<seq<(K, K)>>, colors': map<K, Status>)
    requires graph.Valid() && id in graph.nodes && colors.Keys <= graph.nodes.Keys
    requires EdgePath(graph.nodes, path) && (|path| > 0 ==> path[|path| - 1].1 == id)
    requires Coloured(colors, InProgress) == Sources(path)
    requires Finished(graph.nodes, Coloured(colors, Done))
    ensures cycle.Some? ==> SimpleCycle(graph.nodes, cycle.value)
    ensures cycle.None? ==>
      && colors.Keys <= colors'.Keys <= graph.nodes.Keys
      && Coloured(colors', InProgress) == Coloured(colors, InProgress)
      && Coloured(colors, Done) + {id} <= Coloured(colors', Done)
      && Finished(graph.nodes, Coloured(colors', Done))
    decreases graph.nodes.Keys - colors.Keys
  {
    colors' := colors;
    if id in colors {
      if colors[id] == InProgress {
        // the cycle closes on this node; drop the edges that lead up to it
        assert id in Sources(path);
        var i := FindIndex(path, id);
        return Some(path[i..]), colors';
      }
      return None, colors';
    }
    colors' := colors'[id := InProgress];
    var todo := graph.nodes[id];
    assert Coloured(colors', Done) == Coloured(colors, Done);
    while todo != {}
      invariant todo <= graph.nodes[id]
      invariant colors.Keys + {id} <= colors'.Keys <= graph.nodes.Keys
      invariant Coloured(colors', InProgress) == Sources(path) + {id}
      invariant Coloured(colors, Done) + (graph.nodes[id] - todo) <= Coloured(colors', Done)
      invariant Finished(graph.nodes, Coloured(colors', Done))
    {
      var child :| child in todo;
      assert Edge(graph.nodes, id, child);
      var path' := path + [(id, child)];
      SourcesAppend(path, (id, child));
      EdgePathAppend(graph.nodes, path, (id, child));
      cycle, colors' := GetCycleFrom(graph, child, colors', path');
      if cycle.Some? {
        colors' := colors'[id := Done];
        return;
      }
      todo := todo - {child};
    }
    FinishedGrows(graph.nodes, Coloured(colors', Done), id);
    var finished := colors'[id := Done];
    assert Coloured(finished, Done) == Coloured(colors', Done) + {id};
    assert Coloured(finished, InProgress) == Coloured(colors', InProgress) - {id};
    return None, finished;
  }

  method FindIndex<K(==)>(path: seq<(K, K)>, id: K) returns (i: nat)
    requires id in Sources(path)
    ensures i < |path| && path[i].0 == id
    ensures forall j :: 0 <= j < i ==> path[j].0 != id
  {
    i := 0;
    while path[i].0 != id
      invariant i < |path|
      invariant forall j :: 0 <= j < i ==> path[j].0 != id
      decreases |path| - i
    {
      i := i + 1;
    }
  }

  /** A cycle is reported exactly when there is one. */
  method GetCycle<K(==, !new), T>(graph: NodeMap<K, T>) returns (cycle: Option<seq<(K, K)>>)
    requires graph.Valid()
    ensures cycle.None? <==> Acyclic(graph.nodes)
    ensures cycle.Some? ==> SimpleCycle(graph.nodes, cycle.value)
  {
    var colors: map<K, Status> := map[];
    var todo := graph.nodes.Keys;
    while todo != {}
      invariant todo <= graph.nodes.Keys
      invariant colors.Keys <= graph.nodes.Keys && Coloured(colors, InProgress) == {}
      invariant graph.nodes.Keys - todo <= Coloured(colors, Done)
      invariant Finished(graph.nodes, Coloured(colors, Done))
    {
      var root :| root in todo;
      cycle, colors := GetCycleFrom(graph, root, colors, []);
      if cycle.Some? {
        SimpleCycleIsClosedWalk(graph.nodes, cycle.value);
        return;
      }
      todo := todo - {root};
    }
    forall n
      ensures !OnCycle(graph.nodes, n)
    {
      if OnCycle(graph.nodes, n) {
        var _ := OnCycleUnfold(graph.nodes, n);
      }
    }
    AcyclicMeansNoCycle(graph.nodes);
    return None;
  }

  ghost function CycleNodes<K>(c: seq<(K, K)>): seq<K>
    requires |c| > 0
  {
    seq(|c|, i requires 0 <= i < |c| => c[i].0) + [c[0].0]
  }

  lemma SimpleCycleIsClosedWalk<K(!new)>(g: Graph<K>, c: seq<(K, K)>)
    requires SimpleCycle(g, c)
    ensures ClosedWalk(g, CycleNodes(c))
    ensures !Acyclic(g)
  {
    var p := CycleNodes(c);
    forall i | 0 <= i < |p| - 1
      ensures Edge(g, p[i], p[i + 1])
    {
      assert Edge(g, c[i].0, c[i].1);
    }
    assert ClosedWalk(g, p);
  }

  // ----- getComponent -----

  /** The edges a search with this filter follows: those into nodes the filter admits. */
  ghost function Filtered<K(!new)>(g: Graph<K>, filter: K -> bool): (h: Graph<K>)
    ensures forall a, b :: Edge(h, a, b) <==> Edge(g, a, b) && filter(b)
  {
    map n | n in g :: set m | m in g[n] && filter(m)
  }

  ghost function Adjacency<K(!new), T>(graph: NodeMap<K, T>, reverse: bool): Graph<K>
    reads graph
  {
    if reverse then graph.reverseNeighbors else graph.nodes
  }

  method GetComponentFrom<K(==, !new), T>(graph: NodeMap<K, T>, id: K, visited: set<K>, filter: K -> bool,
                                          reverse: bool, ghost h: Graph<K>, ghost universe: set<K>)
    returns (component: set<K>, visited': set<K>)
    requires graph.Valid() && SubGraph(h, Filtered(Adjacency(graph, reverse), filter))
    requires SubGraph(Filtered(Adjacency(graph, reverse), filter), h)
    requires id in universe && visited <= universe && ClosedUnder(h, universe)
    modifies graph`nodes
    ensures graph.Valid() && OnlyAddsNodes(old(graph.nodes), graph.nodes)
    ensures graph.nodes.Keys <= old(graph.nodes).Keys + {id}
    ensures visited' == visited + component && component !! visited && visited' <= universe
    ensures id in visited'
    ensures forall n :: n in component ==> Reaches(h, id, n)
    ensures forall a, b :: a in component && Edge(h, a, b) ==> b in visited'
    decreases universe - visited
  {
    if id in visited {
      return {}, visited;
    }
    visited' := visited + {id};
    component := {id};
    ReachesSelf(h, id);
    ghost var g := graph.nodes;
    var directChildren;
    if reverse {
      directChildren := graph.GetReverse(id);
    } else {
      directChildren := graph.Get(id);
    }
    var children := set c | c in directChildren && filter(c);
    assert forall c :: c in children <==> Edge(h, id, c) by {
      assert forall c :: Edge(h, id, c) <==> Edge(Filtered(Adjacency(graph, reverse), filter), id, c);
    }
    var todo := children;
    while todo != {}
      invariant todo <= children
      invariant graph.Valid() && OnlyAddsNodes(g, graph.nodes) && graph.nodes.Keys <= g.Keys + {id}
      invariant graph.reverseNeighbors == old(graph.reverseNeighbors)
      invariant visited' == visited + component && component !! visited && visited' <= universe
      invariant id in component && children - todo <= visited'
      invariant forall n :: n in component ==> Reaches(h, id, n)
      invariant forall a, b :: a in component - {id} && Edge(h, a, b) ==> b in visited'
    {
      var child :| child in todo;
      assert Edge(graph.nodes, if reverse then child else id, if reverse then id else child);
      var inner;
      inner, visited' := GetComponentFrom(graph, child, visited', filter, reverse, h, universe);
      forall n | n in inner
        ensures Reaches(h, id, n)
      {
        ReachesStep(h, id, child, n);
      }
      component := component + inner;
      todo := todo - {child};
    }
  }

  /** The nodes reachable from a root through admitted nodes; the roots are not filtered. */
  method GetComponent<K(==, !new), T>(graph: NodeMap<K, T>, roots: set<K>, filter: K -> bool, reverse: bool)
    returns (component: set<K>)
    requires graph.Valid()
    modifies graph`nodes
    ensures graph.Valid() && OnlyAddsNodes(old(graph.nodes), graph.nodes)
    ensures roots <= old(graph.nodes).Keys ==> graph.nodes == old(graph.nodes)
    ensures forall n :: n in component <==>
      exists r :: r in roots && Reaches(Filtered(old(Adjacency(graph, reverse)), filter), r, n)
  {
    ghost var g := graph.nodes;
    ghost var h := Filtered(Adjacency(graph, reverse), filter);
    ghost var universe := Universe(h) + roots;
    component := {};
    var todo := roots;
    var visited: set<K> := {};
    while todo != {}
      invariant todo <= roots && roots - todo <= component == visited <= universe
      invariant graph.Valid() && OnlyAddsNodes(g, graph.nodes) && graph.nodes.Keys <= g.Keys + roots
      invariant graph.reverseNeighbors == old(graph.reverseNeighbors)
      invariant forall n :: n in component ==> exists r :: r in roots && Reaches(h, r, n)
      invariant ClosedUnder(h, component)
    {
      var root :| root in todo;
      var inner;
      inner, visited := GetComponentFrom(graph, root, visited, filter, reverse, h, universe);
      component := component + inner;
      todo := todo - {root};
    }
    forall r, n | r in roots && Reaches(h, r, n)
      ensures n in component
    {
      ClosedUnderReaches(h, component, r, n);
    }
    if roots <= g.Keys {
      SameNodesSameGraph(g, graph.nodes);
    }
  }
}
