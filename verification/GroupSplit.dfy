/** Breaking a cycle of groups by splitting one of them. */
module GroupSplit {
  import opened Graphs
  import opened NodeMaps
  import opened Cycles
  import opened GroupGraph
  import opened Wrappers

  /** The edges that stay inside `members`. */
  ghost function Inner<K(!new)>(g: Graph<K>, members: set<K>): (h: Graph<K>)
    ensures h.Keys == g.Keys * members
    ensures forall a, b :: Edge(h, a, b) <==> Edge(g, a, b) && a in members && b in members
  {
    map n | n in g && n in members :: g[n] * members
  }

  // ----- getComponentWithoutNodesToAvoid -----

  lemma FilteredWalkIsInner<K(!new)>(g: Graph<K>, members: set<K>, a: K, b: K)
    requires a in members
    ensures Reaches(Filtered(g, n => n in members), a, b) <==> Reaches(Inner(g, members), a, b)
  {
    var f, h := Filtered(g, n => n in members), Inner(g, members);
    if Reaches(h, a, b) {
      SubGraphReaches(h, f, a, b);
    }
    if Reaches(f, a, b) {
      var p :| WalkFromTo(f, a, b, p);
      forall i | 0 <= i < |p| - 1
        ensures Edge(h, p[i], p[i + 1])
      {
        assert Edge(f, p[i], p[i + 1]);
        if i > 0 {
          assert Edge(f, p[i - 1], p[i]);
        }
      }
      assert WalkFromTo(h, a, b, p);
    }
  }

  lemma ReversedFilteredWalkIsInner<K(!new)>(g: Graph<K>, reversed: Graph<K>, members: set<K>, a: K, b: K)
    requires Transposed(g, reversed) && a in members
    ensures Reaches(Filtered(reversed, n => n in members), a, b) <==> Reaches(Inner(g, members), b, a)
  {
    FilteredWalkIsInner(reversed, members, a, b);
    TransposedReachesIff(Inner(reversed, members), Inner(g, members), a, b);
  }

  /** The part is a member with everything it depends on in the group. */
  ghost predicate SpreadsFrom<K(!new)>(g: Graph<K>, members: set<K>, s: K, part: set<K>) {
    forall n {:trigger n in part} :: n in part <==> Reaches(Inner(g, members), s, n)
  }

  /** A start node whose in-group dependencies avoid the nodes to avoid, with all of them. */
  ghost predicate Avoids<K(!new)>(g: Graph<K>, members: set<K>, start: set<K>, avoid: set<K>, component: set<K>) {
    && component <= members && component !! avoid && component * start != {}
    && ClosedUnder(Inner(g, members), component)
    && exists s :: s in start && SpreadsFrom(g, members, s, component)
  }

  method GetComponentWithoutNodesToAvoid<K(==, !new), T>(source: NodeMap<K, T>, currentGroupNodes: set<K>,
                                                         possibleStartNodes: set<K>, nodesToAvoid: set<K>)
    returns (component: Option<set<K>>)
    requires source.Valid()
    requires possibleStartNodes + nodesToAvoid <= currentGroupNodes <= source.nodes.Keys
    modifies source`nodes
    ensures source.Valid() && source.nodes == old(source.nodes)
    ensures component.Some? ==>
      Avoids(source.nodes, currentGroupNodes, possibleStartNodes, nodesToAvoid, component.value)
    ensures component.None? ==>
      forall s :: s in possibleStartNodes ==>
        exists a :: a in nodesToAvoid && Reaches(Inner(source.nodes, currentGroupNodes), s, a)
  {
    ghost var g, h := source.nodes, Inner(source.nodes, currentGroupNodes);
    var filter := n => n in currentGroupNodes;
    var componentToAvoid := GetComponent(source, nodesToAvoid, filter, true);
    forall n
      ensures n in componentToAvoid <==> exists a :: a in nodesToAvoid && Reaches(h, n, a)
    {
      forall a | a in nodesToAvoid {
        ReversedFilteredWalkIsInner(g, source.reverseNeighbors, currentGroupNodes, a, n);
      }
    }
    var validStartNodes := possibleStartNodes - componentToAvoid;
    if validStartNodes == {} {
      assert forall s :: s in possibleStartNodes ==> s !in validStartNodes;
      return None;
    }
    var start :| start in validStartNodes;
    var found := GetComponent(source, {start}, filter, false);
    forall n
      ensures n in found <==> Reaches(h, start, n)
    {
      FilteredWalkIsInner(g, currentGroupNodes, start, n);
    }
    ComponentAvoids(g, currentGroupNodes, possibleStartNodes, nodesToAvoid, start, found);
    return Some(found);
  }

  lemma ComponentAvoids<K(!new)>(g: Graph<K>, members: set<K>, starts: set<K>, avoid: set<K>, start: K, found: set<K>)
    requires start in starts && starts <= members
    requires forall n :: n in found <==> Reaches(Inner(g, members), start, n)
    requires forall a :: a in avoid ==> !Reaches(Inner(g, members), start, a)
    ensures Avoids(g, members, starts, avoid, found)
  {
    var h := Inner(g, members);
    ReachesSelf(h, start);
    assert start in found * starts;
    assert SpreadsFrom(g, members, start, found);
    forall a, b | a in found && Edge(h, a, b)
      ensures b in found
    {
      ReachesEdge(h, a, b);
      ReachesTrans(h, start, a, b);
    }
    assert ClosedUnder(h, members);
    forall n | n in found
      ensures n in members
    {
      ClosedUnderReaches(h, members, start, n);
    }
  }

  // ----- modifyGroupKeyToRemoveCycle -----

  /** Members of the edge's target that something in its source depends on. */
  ghost function Entries<K(!new)>(g: Graph<K>, key: KeyFunc<K>, edge: (GroupKey, GroupKey)): set<K> {
    set y | y in g && key(y) == edge.1 && exists x :: Edge(g, x, y) && key(x) == edge.0
  }

  /** Members of the edge's source that depend on something in its target. */
  ghost function Exits<K(!new)>(g: Graph<K>, key: KeyFunc<K>, edge: (GroupKey, GroupKey)): set<K> {
    set x | x in g && key(x) == edge.0 && exists y :: Edge(g, x, y) && key(y) == edge.1
  }

  ghost predicate CannotSplit<K(!new)>(g: Graph<K>, key: KeyFunc<K>, inEdge: (GroupKey, GroupKey),
                                       outEdge: (GroupKey, GroupKey)) {
    forall s {:trigger ReachesExit(g, key, inEdge.1, outEdge, s)} ::
      s in Entries(g, key, inEdge) ==> ReachesExit(g, key, inEdge.1, outEdge, s)
  }

  ghost predicate ReachesExit<K(!new)>(g: Graph<K>, key: KeyFunc<K>, group: GroupKey, outEdge: (GroupKey, GroupKey),
                                       s: K) {
    exists a :: a in Exits(g, key, outEdge) && Reaches(Inner(g, Members(g.Keys, key, group)), s, a)
  }

  /** `part` can leave `group`: it is non-empty, not all of it, and nothing in it depends on
      a member left behind. */
  ghost predicate SplitsOff<K(!new)>(g: Graph<K>, key: KeyFunc<K>, group: GroupKey, part: set<K>) {
    var members := Members(g.Keys, key, group);
    part != {} && part < members && ClosedUnder(Inner(g, members), part)
  }

  /** The part is an entry of the group with all it depends on there, and has no edge out. */
  ghost predicate Leaves<K(!new)>(g: Graph<K>, key: KeyFunc<K>, inEdge: (GroupKey, GroupKey),
                                  outEdge: (GroupKey, GroupKey), part: set<K>) {
    && part !! Exits(g, key, outEdge)
    && exists s :: s in Entries(g, key, inEdge) && SpreadsFrom(g, Members(g.Keys, key, inEdge.1), s, part)
  }

  method GetNewGroupToCreate<K(==, !new), T>(groups: map<GroupKey, Group<K, T>>, source: NodeMap<K, T>,
                                             groupKey: KeyFunc<K>, inEdge: (GroupKey, GroupKey),
                                             outEdge: (GroupKey, GroupKey))
    returns (nodesID: Option<set<K>>)
    requires source.Valid() && inEdge.1 == outEdge.0 && inEdge.1 in groups
    requires groups[inEdge.1].items.Keys == Members(source.nodes.Keys, groupKey, inEdge.1)
    requires CrossEdge(source.nodes, groupKey, outEdge.0, outEdge.1)
    modifies source`nodes
    ensures source.Valid() && source.nodes == old(source.nodes)
    ensures nodesID.Some? ==> SplitsOff(source.nodes, groupKey, inEdge.1, nodesID.value)
    ensures nodesID.Some? ==> Leaves(source.nodes, groupKey, inEdge, outEdge, nodesID.value)
    ensures nodesID.None? ==> CannotSplit(source.nodes, groupKey, inEdge, outEdge)
  {
    var nodes := source.nodes;
    var current := groups[inEdge.1].items.Keys;
    var withBackRef := set id | id in current && exists s :: s in source.GetReverse(id) && groupKey(s) == inEdge.0;
    var withForwardRef := set id | id in current && exists d :: d in nodes[id] && groupKey(d) == outEdge.1;
    assert withBackRef == Entries(nodes, groupKey, inEdge) by {
      assert forall s, id :: s in source.GetReverse(id) <==> Edge(nodes, s, id);
    }
    assert withForwardRef == Exits(nodes, groupKey, outEdge) by {
      assert forall id, d :: id in nodes && d in nodes[id] <==> Edge(nodes, id, d);
    }
    nodesID := GetComponentWithoutNodesToAvoid(source, current, withBackRef, withForwardRef);
    var x, y :| Edge(nodes, x, y) && groupKey(x) == outEdge.0 && groupKey(y) == outEdge.1;
    assert x in withForwardRef;
  }

  // ----- why a cycle that cannot be split is a cycle of the source -----

  /** The cycle edge that enters the group `c[k].0`; the edge `c[k]` leaves it. */
  ghost function InEdge(c: seq<(GroupKey, GroupKey)>, k: nat): (GroupKey, GroupKey)
    requires k <= |c| && |c| > 0
  {
    if k == 0 then c[|c| - 1] else c[k - 1]
  }

  /** Each edge starts where the one before it ends, and the first where the last ends. */
  ghost predicate Consecutive(c: seq<(GroupKey, GroupKey)>) {
    |c| > 0 && forall k {:trigger InEdge(c, k)} :: 0 <= k < |c| ==> InEdge(c, k).1 == c[k].0
  }

  ghost predicate Stuck<K(!new)>(g: Graph<K>, key: KeyFunc<K>, c: seq<(GroupKey, GroupKey)>) {
    forall k {:trigger CannotSplit(g, key, InEdge(c, k), c[k])} ::
      0 <= k < |c| ==> CannotSplit(g, key, InEdge(c, k), c[k])
  }

  ghost predicate OnGroupCycle(c: seq<(GroupKey, GroupKey)>, group: GroupKey) {
    exists k :: 0 <= k < |c| && c[k].0 == group
  }

  ghost predicate VisitsGroup<K>(key: KeyFunc<K>, w: seq<K>, group: GroupKey) {
    exists i :: 0 <= i < |w| && key(w[i]) == group
  }

  ghost predicate Confined<K>(key: KeyFunc<K>, c: seq<(GroupKey, GroupKey)>, w: seq<K>) {
    forall i {:trigger OnGroupCycle(c, key(w[i]))} :: 0 <= i < |w| ==> OnGroupCycle(c, key(w[i]))
  }

  /** A walk through the first `k` groups of the cycle that leaves the cycle's groups never. */
  ghost predicate Tours<K(!new)>(g: Graph<K>, key: KeyFunc<K>, c: seq<(GroupKey, GroupKey)>, k: nat, w: seq<K>)
    requires k <= |c|
  {
    && IsWalk(g, w)
    && (forall j {:trigger VisitsGroup(key, w, c[j].0)} :: 0 <= j < k ==> VisitsGroup(key, w, c[j].0))
    && Confined(key, c, w)
  }

  /** A closed walk of the source through every group of the cycle, and only through those. */
  ghost predicate SourceCycle<K(!new)>(g: Graph<K>, key: KeyFunc<K>, c: seq<(GroupKey, GroupKey)>, w: seq<K>) {
    ClosedWalk(g, w) && Tours(g, key, c, |c|, w)
  }

  lemma ToursConcat<K(!new)>(g: Graph<K>, key: KeyFunc<K>, c: seq<(GroupKey, GroupKey)>, k: nat, w: seq<K>, v: seq<K>)
    requires k <= |c| && Tours(g, key, c, k, w)
    requires IsWalk(g, v) && v[0] == w[|w| - 1] && Confined(key, c, v)
    ensures Tours(g, key, c, k, w + v[1..])
    ensures WalkFromTo(g, w[0], v[|v| - 1], w + v[1..])
  {
    var u := w + v[1..];
    ConcatWalks(g, w[0], v[0], v[|v| - 1], w, v);
    forall j | 0 <= j < k
      ensures VisitsGroup(key, u, c[j].0)
    {
      assert VisitsGroup(key, w, c[j].0);
      var i :| 0 <= i < |w| && key(w[i]) == c[j].0;
      assert u[i] == w[i];
    }
    forall i | 0 <= i < |u|
      ensures OnGroupCycle(c, key(u[i]))
    {
      assert u[i] == if i < |w| then w[i] else v[i - |w| + 1];
      assert i < |w| ==> OnGroupCycle(c, key(w[i]));
      assert i >= |w| ==> OnGroupCycle(c, key(v[i - |w| + 1]));
    }
  }

  /** From an entry of a group that cannot be split, on to an entry of the next. */
  lemma CrossGroup<K(!new)>(g: Graph<K>, key: KeyFunc<K>, c: seq<(GroupKey, GroupKey)>, k: nat, s: K)
    returns (w: seq<K>)
    requires Consecutive(c) && k < |c| && Stuck(g, key, c) && Closed(g)
    requires s in Entries(g, key, InEdge(c, k))
    ensures IsWalk(g, w) && |w| > 1 && w[0] == s && w[|w| - 1] in Entries(g, key, c[k])
    ensures key(s) == c[k].0
    ensures Confined(key, c, w)
  {
    assert OnGroupCycle(c, c[k].0);
    assert OnGroupCycle(c, c[k].1) by {
      var next := if k + 1 < |c| then k + 1 else 0;
      assert InEdge(c, next).1 == c[next].0;
    }
    var h := Inner(g, Members(g.Keys, key, c[k].0));
    assert CannotSplit(g, key, InEdge(c, k), c[k]);
    assert ReachesExit(g, key, InEdge(c, k).1, c[k], s);
    var a :| a in Exits(g, key, c[k]) && Reaches(h, s, a);
    var p :| WalkFromTo(h, s, a, p);
    var y :| Edge(g, a, y) && key(y) == c[k].1;
    w := p + [y];
    forall i | 0 <= i < |w| - 1
      ensures Edge(g, w[i], w[i + 1])
      ensures OnGroupCycle(c, key(w[i]))
    {
      if i < |p| - 1 {
        assert Edge(h, p[i], p[i + 1]);
      }
    }
    assert y in Entries(g, key, c[k]);
  }

  /** Through the first `k` groups, from the entry `s` of the first to an entry of the next. */
  ghost predicate PartialRound<K(!new)>(g: Graph<K>, key: KeyFunc<K>, c: seq<(GroupKey, GroupKey)>, k: nat, s: K,
                                        w: seq<K>)
    requires k <= |c| && |c| > 0
  {
    && Tours(g, key, c, k, w) && w[0] == s && |w| > k
    && w[|w| - 1] in Entries(g, key, InEdge(c, k))
  }

  lemma NoGroupsYet<K(!new)>(g: Graph<K>, key: KeyFunc<K>, c: seq<(GroupKey, GroupKey)>, s: K)
    requires Consecutive(c) && s in Entries(g, key, InEdge(c, 0))
    ensures PartialRound(g, key, c, 0, s, [s])
  {
    assert InEdge(c, 0).1 == c[0].0;
    assert OnGroupCycle(c, key(s));
  }

  lemma OneMoreGroup<K(!new)>(g: Graph<K>, key: KeyFunc<K>, c: seq<(GroupKey, GroupKey)>, k: nat, s: K, v: seq<K>)
    returns (w: seq<K>)
    requires Consecutive(c) && Stuck(g, key, c) && Closed(g)
    requires k < |c| && PartialRound(g, key, c, k, s, v)
    ensures PartialRound(g, key, c, k + 1, s, w)
  {
    var u := CrossGroup(g, key, c, k, v[|v| - 1]);
    ToursNext(g, key, c, k, v, u);
    w := v + u[1..];
  }

  lemma {:induction false} CrossGroups<K(!new)>(g: Graph<K>, key: KeyFunc<K>, c: seq<(GroupKey, GroupKey)>, k: nat,
                                                s: K)
    returns (w: seq<K>)
    requires Consecutive(c) && Stuck(g, key, c) && Closed(g)
    requires k <= |c| && s in Entries(g, key, InEdge(c, 0))
    ensures PartialRound(g, key, c, k, s, w)
  {
    if k == 0 {
      NoGroupsYet(g, key, c, s);
      w := [s];
    } else {
      var v := CrossGroups(g, key, c, k - 1, s);
      w := OneMoreGroup(g, key, c, k - 1, s, v);
    }
  }

  lemma ToursNext<K(!new)>(g: Graph<K>, key: KeyFunc<K>, c: seq<(GroupKey, GroupKey)>, k: nat, v: seq<K>, u: seq<K>)
    requires k < |c| && Tours(g, key, c, k, v)
    requires IsWalk(g, u) && u[0] == v[|v| - 1] && Confined(key, c, u)
    requires |u| > 1 && key(u[0]) == c[k].0
    ensures Tours(g, key, c, k + 1, v + u[1..])
    ensures var w := v + u[1..]; w[0] == v[0] && w[|w| - 1] == u[|u| - 1] && |w| > |v|
  {
    ToursConcat(g, key, c, k, v, u);
    var w := v + u[1..];
    assert w[|v| - 1] == u[0];
    assert VisitsGroup(key, w, c[k].0);
  }

  /** One round leads from an entry of the first group to another of its entries. */
  ghost predicate Round<K(!new)>(g: Graph<K>, key: KeyFunc<K>, c: seq<(GroupKey, GroupKey)>, a: K, b: K) {
    exists w :: Tours(g, key, c, |c|, w) && |w| > 1 && w[0] == a && w[|w| - 1] == b
  }

  ghost function Rounds<K(!new)>(g: Graph<K>, key: KeyFunc<K>, c: seq<(GroupKey, GroupKey)>): (h: Graph<K>)
    requires |c| > 0
    ensures h.Keys == Entries(g, key, InEdge(c, 0)) && Closed(h)
    ensures forall a, b :: Edge(h, a, b) ==> Round(g, key, c, a, b)
  {
    var entries := Entries(g, key, InEdge(c, 0));
    map a | a in entries :: set b | b in entries && Round(g, key, c, a, b)
  }

  lemma {:induction false} JoinRounds<K(!new)>(g: Graph<K>, key: KeyFunc<K>, c: seq<(GroupKey, GroupKey)>, q: seq<K>)
    returns (w: seq<K>)
    requires |c| > 0 && |q| > 1 && IsWalk(Rounds(g, key, c), q)
    ensures Tours(g, key, c, |c|, w) && |w| > 1 && w[0] == q[0] && w[|w| - 1] == q[|q| - 1]
  {
    var h := Rounds(g, key, c);
    assert Edge(h, q[0], q[1]);
    assert Round(g, key, c, q[0], q[1]);
    w :| Tours(g, key, c, |c|, w) && |w| > 1 && w[0] == q[0] && w[|w| - 1] == q[1];
    if |q| > 2 {
      SliceWalk(h, q, 1, |q| - 1);
      assert q[1..|q|] == q[1..];
      var v := JoinRounds(g, key, c, q[1..]);
      ToursConcat(g, key, c, |c|, w, v);
      w := w + v[1..];
    }
  }

  /** If no group on a cycle of groups can be split, the source has a cycle through every
      one of these groups. */
  lemma StuckMeansSourceCycle<K(!new)>(g: Graph<K>, key: KeyFunc<K>, c: seq<(GroupKey, GroupKey)>) returns (w: seq<K>)
    requires Closed(g) && Consecutive(c) && Stuck(g, key, c)
    requires CrossEdge(g, key, c[|c| - 1].0, c[|c| - 1].1)
    ensures SourceCycle(g, key, c, w)
  {
    var h := Rounds(g, key, c);
    forall a | a in h.Keys
      ensures HasSuccessorIn(h, h.Keys, a)
    {
      var v := CrossGroups(g, key, c, |c|, a);
      assert Round(g, key, c, a, v[|v| - 1]);
      assert Edge(h, a, v[|v| - 1]);
    }
    var x, y :| Edge(g, x, y) && key(x) == c[|c| - 1].0 && key(y) == c[|c| - 1].1;
    assert y in h;
    SuccessorsReachCycle(h, h.Keys, y);
    var z :| Reaches(h, y, z) && OnCycle(h, z);
    var q :| ClosedWalk(h, q) && q[0] == z;
    w := JoinRounds(g, key, c, q);
  }
}
