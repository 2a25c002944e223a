/** Kahn-style evaluation groups of `DAG`. */
module EvaluationOrder {
  import opened Graphs
  import opened NodeMaps

  /** The longest dependency chain that starts at `n` has length `k`. */
  ghost predicate LongestChain<K(!new)>(g: Graph<K>, n: K, k: nat) {
    n in g && HasChain(g, n, k) && !HasChain(g, n, k + 1)
  }

  /** Group `k` holds exactly the nodes whose longest chain has length `k`. */
  ghost predicate Levelled<K(!new)>(g: Graph<K>, groups: seq<set<K>>) {
    forall k, n {:trigger LongestChain(g, n, k)} ::
      0 <= k < |groups| ==> (n in groups[k] <==> LongestChain(g, n, k))
  }

  /** The whole result: the non-empty levels in order, and the nodes that reach a cycle. */
  ghost predicate Evaluation<K(!new)>(g: Graph<K>, groups: seq<set<K>>, circular: set<K>) {
    && Levelled(g, groups)
    && (forall k :: 0 <= k < |groups| ==> groups[k] != {})
    && (forall n {:trigger ReachesCycle(g, n)} {:trigger n in circular} ::
          n in circular <==> n in g && ReachesCycle(g, n))
    && Union(groups) + circular == g.Keys && Union(groups) !! circular
  }

  lemma ShorterChain<K(!new)>(g: Graph<K>, n: K, k: nat, m: nat)
    requires HasChain(g, n, k) && m <= k
    ensures HasChain(g, n, m)
  {
    var p :| IsWalk(g, p) && p[0] == n && |p| == k + 1;
    SliceWalk(g, p, 0, m);
    assert IsWalk(g, p[0..m + 1]) && p[0..m + 1][0] == n;
  }

  lemma OneLongest<K(!new)>(g: Graph<K>, n: K, k: nat, m: nat)
    requires LongestChain(g, n, k) && HasChain(g, n, m)
    ensures m <= k
  {
    if m > k {
      ShorterChain(g, n, m, k + 1);
    }
  }

  /** An edge leads to a strictly earlier group. */
  lemma EdgeGoesToEarlierGroup<K(!new)>(g: Graph<K>, groups: seq<set<K>>, a: K, b: K, i: nat, j: nat)
    requires Levelled(g, groups) && Edge(g, a, b)
    requires i < |groups| && j < |groups| && a in groups[i] && b in groups[j]
    ensures j < i
  {
    assert LongestChain(g, b, j);
    ChainStep(g, a, b, j);
    OneLongest(g, a, i, j + 1);
  }

  ghost function Union<K>(groups: seq<set<K>>): set<K> {
    set k, n | 0 <= k < |groups| && n in groups[k] :: n
  }

  lemma UnionAppend<K>(groups: seq<set<K>>, group: set<K>)
    ensures Union(groups + [group]) == Union(groups) + group
  {
    var all := groups + [group];
    assert all[|groups|] == group;
    assert forall k :: 0 <= k < |groups| ==> all[k] == groups[k];
  }

  /** What the loop knows: the deleted nodes are the first levels, the rest have longer
      chains, and every node that is now free is a candidate. */
  ghost predicate LevelsSoFar<K(!new)>(g: Graph<K>, now: Graph<K>, groups: seq<set<K>>, next: set<K>) {
    && now == Without(g, Union(groups))
    && Levelled(g, groups)
    && (forall k :: 0 <= k < |groups| ==> groups[k] != {})
    && next <= now.Keys
    && (forall n {:trigger HasChain(g, n, |groups|)} :: n in now ==> HasChain(g, n, |groups|))
    && (forall n :: n in now && now[n] == {} ==> n in next)
  }

  /** The free nodes are exactly the next level. */
  lemma FreeNodesAreNextLevel<K(!new)>(g: Graph<K>, now: Graph<K>, groups: seq<set<K>>, next: set<K>, n: K)
    requires Closed(g) && LevelsSoFar(g, now, groups, next)
    ensures n in now && now[n] == {} <==> LongestChain(g, n, |groups|)
    ensures n in now && now[n] != {} ==> HasChain(g, n, |groups| + 1)
  {
    var k := |groups|;
    if n in now && now[n] == {} && HasChain(g, n, k + 1) {
      var b := ChainUnfold(g, n, k + 1);
      assert b in Union(groups) by {
        assert !Edge(now, n, b);
      }
      var j :| 0 <= j < k && b in groups[j];
      assert LongestChain(g, b, j);
      OneLongest(g, b, j, k);
    }
    if n in now && now[n] != {} {
      var b :| b in now[n];
      assert Edge(now, n, b) && Edge(g, n, b) && b in now;
      ChainStep(g, n, b, k);
    }
    if LongestChain(g, n, k) && n in Union(groups) {
      var j :| 0 <= j < k && n in groups[j];
      assert LongestChain(g, n, j);
      OneLongest(g, n, j, k);
    }
  }

  /** With no free node left, what is left is what reaches a cycle. */
  lemma LeftoverReachesCycle<K(!new)>(g: Graph<K>, now: Graph<K>, groups: seq<set<K>>, next: set<K>)
    requires Closed(g) && LevelsSoFar(g, now, groups, next)
    requires forall n :: n in next ==> now[n] != {}
    ensures Evaluation(g, groups, now.Keys)
  {
    forall k, n | 0 <= k < |groups| && n in groups[k]
      ensures n in g
    {
      assert LongestChain(g, n, k);
    }
    forall a | a in now.Keys
      ensures HasSuccessorIn(g, now.Keys, a)
    {
      var b :| b in now[a];
      assert Edge(now, a, b) && Edge(g, a, b);
    }
    forall n
      ensures n in now <==> n in g && ReachesCycle(g, n)
    {
      if n in now {
        SuccessorsReachCycle(g, now.Keys, n);
      } else if n in g && ReachesCycle(g, n) {
        var j :| 0 <= j < |groups| && n in groups[j];
        assert LongestChain(g, n, j);
        ReachesCycleChains(g, n, j + 1);
      }
    }
  }

  lemma LevelsSoFarAtStart<K(!new)>(g: Graph<K>)
    ensures LevelsSoFar(g, g, [], g.Keys)
  {
    assert Union<K>([]) == {};
    WithoutNone(g);
    forall n | n in g
      ensures HasChain(g, n, 0)
    {
      assert IsWalk(g, [n]);
    }
  }

  lemma LevelsSoFarStep<K(!new)>(g: Graph<K>, now: Graph<K>, groups: seq<set<K>>, next: set<K>, free: set<K>,
                              now': Graph<K>, next': set<K>)
    requires Closed(g) && LevelsSoFar(g, now, groups, next)
    requires free != {} && forall n :: n in free <==> n in next && now[n] == {}
    requires now' == Without(now, free) && next' <= now'.Keys
    requires forall n :: n in now' && now'[n] != now[n] ==> n in next'
    ensures LevelsSoFar(g, now', groups + [free], next')
  {
    forall n
      ensures n in free <==> LongestChain(g, n, |groups|)
      ensures n in now && now[n] != {} ==> HasChain(g, n, |groups| + 1)
    {
      FreeNodesAreNextLevel(g, now, groups, next, n);
    }
    WithoutTwice(g, Union(groups), free);
    UnionAppend(groups, free);
  }

  /** Deletes one group; the affected nodes are those that depended on it. */
  method DeleteGroup<K(==, !new), T>(dag: NodeMap<K, T>, group: set<K>) returns (affected: set<K>)
    requires dag.Valid()
    requires forall n :: n in group ==> n in dag.nodes && dag.nodes[n] == {}
    modifies dag
    ensures dag.Valid() && dag.nodes == Without(old(dag.nodes), group)
    ensures affected <= dag.nodes.Keys
    ensures forall n :: n in dag.nodes && dag.nodes[n] != old(dag.nodes)[n] ==> n in affected
  {
    affected := {};
    ghost var g, gone := dag.nodes, {};
    var todo := group;
    WithoutNone(g);
    while todo != {}
      invariant gone !! todo && gone + todo == group
      invariant dag.Valid() && dag.nodes == Without(g, gone)
      invariant affected <= dag.nodes.Keys - group
      invariant forall n :: n in dag.nodes && dag.nodes[n] != g[n] ==> n in affected
    {
      var n :| n in todo;
      assert forall m :: m in group ==> !Edge(dag.nodes, m, n);
      OnlyDependentsChange(dag.nodes, n);
      var dependents := dag.DeleteNode(n);
      WithoutTwice(g, gone, {n});
      affected, todo, gone := affected + dependents, todo - {n}, gone + {n};
    }
  }

  /** Deletes level after level until no node is free. */
  method DeleteFreeNodes<K(==, !new), T>(dag: NodeMap<K, T>)
    returns (groups: seq<set<K>>, ghost nextNodes: set<K>)
    requires dag.Valid()
    modifies dag
    ensures dag.Valid() && LevelsSoFar(old(dag.nodes), dag.nodes, groups, nextNodes)
    ensures forall n :: n in nextNodes ==> dag.nodes[n] != {}
  {
    ghost var g := dag.nodes;
    groups := [];
    var candidates := dag.nodes.Keys;
    var freeNodes := set n | n in candidates && dag.nodes[n] == {};
    LevelsSoFarAtStart(g);
    while freeNodes != {}
      invariant dag.Valid() && LevelsSoFar(g, dag.nodes, groups, candidates)
      invariant forall n :: n in freeNodes <==> n in candidates && dag.nodes[n] == {}
      decreases dag.nodes.Keys
    {
      ghost var now, before := dag.nodes, candidates;
      candidates := DeleteGroup(dag, freeNodes);
      LevelsSoFarStep(g, now, groups, before, freeNodes, dag.nodes, candidates);
      groups := groups + [freeNodes];
      freeNodes := set n | n in candidates && dag.nodes[n] == {};
    }
    nextNodes := candidates;
  }

  /** The groups in the order they are yielded, and the nodes named by the circular
      dependency error, if any are left when no node is free. */
  method EvaluationOrderGroupsDestructive<K(==, !new), T>(dag: NodeMap<K, T>)
    returns (groups: seq<set<K>>, circular: set<K>)
    requires dag.Valid()
    modifies dag
    ensures Evaluation(old(dag.nodes), groups, circular)
    ensures dag.Valid() && dag.nodes == Without(old(dag.nodes), Union(groups))
  {
    ghost var nextNodes;
    groups, nextNodes := DeleteFreeNodes(dag);
    circular := dag.nodes.Keys;
    LeftoverReachesCycle(old(dag.nodes), dag.nodes, groups, nextNodes);
  }

  method EvaluationOrderGroups<K(==, !new), T>(dag: NodeMap<K, T>)
    returns (groups: seq<set<K>>, circular: set<K>)
    requires dag.Valid()
    ensures Evaluation(dag.nodes, groups, circular)
  {
    var dependencies := dag.Clone();
    groups, circular := EvaluationOrderGroupsDestructive(dependencies);
  }
}
