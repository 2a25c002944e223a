/** Cycles of groups: which groups are on one, and what splitting other groups does to that. */
module GroupCycles {
  import opened Graphs
  import opened GroupGraph
  import opened GroupSplit

  // ----- the graph of groups -----

  ghost function Quotient<K(!new)>(g: Graph<K>, key: KeyFunc<K>): (h: Graph<GroupKey>)
    ensures h.Keys == Groups(g.Keys, key)
    ensures forall a, b :: Edge(h, a, b) <==> CrossEdge(g, key, a, b)
  {
    var h := map k | k in Groups(g.Keys, key) :: set x, y | x in g && y in g[x] && key(x) == k && key(y) != k :: key(y);
    forall a, b
      ensures Edge(h, a, b) <==> CrossEdge(g, key, a, b)
    {
      if CrossEdge(g, key, a, b) {
        var x, y :| Edge(g, x, y) && key(x) == a && key(y) == b;
        assert a in h;
      }
    }
    h
  }

  ghost predicate CycleOfGroups<K(!new)>(g: Graph<K>, key: KeyFunc<K>, c: seq<(GroupKey, GroupKey)>) {
    Consecutive(c) && forall k {:trigger CrossEdge(g, key, c[k].0, c[k].1)} ::
      0 <= k < |c| ==> CrossEdge(g, key, c[k].0, c[k].1)
  }

  ghost function NodesOnCycle<K>(g: Graph<K>, key: KeyFunc<K>, c: seq<(GroupKey, GroupKey)>): set<K> {
    set n | n in g && OnGroupCycle(c, key(n))
  }

  lemma {:induction false} AroundCycle<K(!new)>(g: Graph<K>, key: KeyFunc<K>, c: seq<(GroupKey, GroupKey)>, i: nat,
                                                j: nat)
    requires CycleOfGroups(g, key, c) && i <= j < |c|
    ensures Reaches(Quotient(g, key), c[i].0, c[j].1)
    decreases j - i
  {
    var h := Quotient(g, key);
    assert CrossEdge(g, key, c[j].0, c[j].1);
    assert InEdge(c, j).1 == c[j].0;
    ReachesEdge(h, c[j].0, c[j].1);
    if i < j {
      AroundCycle(g, key, c, i, j - 1);
      ReachesTrans(h, c[i].0, c[j].0, c[j].1);
    }
  }

  lemma GroupOnCycle<K(!new)>(g: Graph<K>, key: KeyFunc<K>, c: seq<(GroupKey, GroupKey)>, group: GroupKey)
    requires CycleOfGroups(g, key, c) && OnGroupCycle(c, group)
    ensures OnCycle(Quotient(g, key), group)
  {
    var h := Quotient(g, key);
    var k :| 0 <= k < |c| && c[k].0 == group;
    var next := c[k].1;
    assert CrossEdge(g, key, group, next);
    assert InEdge(c, 0).1 == c[0].0 && InEdge(c, k).1 == group;
    if k < |c| - 1 {
      assert InEdge(c, k + 1).1 == c[k + 1].0;
      AroundCycle(g, key, c, k + 1, |c| - 1);
    } else {
      ReachesSelf(h, next);
    }
    if k > 0 {
      AroundCycle(g, key, c, 0, k - 1);
    } else {
      ReachesSelf(h, group);
    }
    ReachesTrans(h, next, c[0].0, group);
    OnCycleFold(h, group, next);
  }

  // ----- finer keys -----

  /** The fine keys only tell apart more nodes than the coarse ones, never fewer. */
  ghost predicate Narrows<K(!new)>(g: Graph<K>, fine: KeyFunc<K>, coarse: KeyFunc<K>) {
    Refines(g, fine, coarse) && forall n {:trigger fine(n)} :: n in g ==> Root(fine(n)) == Root(coarse(n))
  }

  lemma NarrowsTwice<K(!new)>(g: Graph<K>, finest: KeyFunc<K>, fine: KeyFunc<K>, coarse: KeyFunc<K>)
    requires Narrows(g, finest, fine) && Narrows(g, fine, coarse)
    ensures Narrows(g, finest, coarse)
  {
    forall a, b | a in g && b in g && finest(a) == finest(b)
      ensures coarse(a) == coarse(b)
    {
      assert fine(a) == fine(b);
    }
    forall n | n in g
      ensures Root(finest(n)) == Root(coarse(n))
    {
      assert Root(fine(n)) == Root(coarse(n));
    }
  }

  /** The group that a finer group is a piece of. */
  ghost predicate PieceOf<K(!new)>(g: Graph<K>, fine: KeyFunc<K>, coarse: KeyFunc<K>, piece: GroupKey,
                                   group: GroupKey) {
    exists n :: n in g && fine(n) == piece && coarse(n) == group
  }

  lemma {:induction false} WalkOfPieces<K(!new)>(g: Graph<K>, fine: KeyFunc<K>, coarse: KeyFunc<K>, w: seq<GroupKey>,
                                                 a: GroupKey, b: GroupKey)
    requires Closed(g) && Refines(g, fine, coarse) && IsWalk(Quotient(g, fine), w)
    requires PieceOf(g, fine, coarse, w[0], a) && PieceOf(g, fine, coarse, w[|w| - 1], b)
    ensures Reaches(Quotient(g, coarse), a, b)
  {
    var h := Quotient(g, coarse);
    if |w| == 1 {
      var n :| n in g && fine(n) == w[0] && coarse(n) == a;
      var m :| m in g && fine(m) == w[0] && coarse(m) == b;
      ReachesSelf(h, a);
    } else {
      assert Edge(Quotient(g, fine), w[0], w[1]);
      var x, y :| Edge(g, x, y) && fine(x) == w[0] && fine(y) == w[1];
      var n :| n in g && fine(n) == w[0] && coarse(n) == a;
      assert coarse(x) == a && PieceOf(g, fine, coarse, w[1], coarse(y));
      SliceWalk(Quotient(g, fine), w, 1, |w| - 1);
      assert w[1..|w|] == w[1..];
      WalkOfPieces(g, fine, coarse, w[1..], coarse(y), b);
      if coarse(y) != a {
        assert CrossEdge(g, coarse, a, coarse(y));
        ReachesStep(h, a, coarse(y), b);
      }
    }
  }

  /** A group that was not split and is on a cycle of the pieces is on a cycle of the groups. */
  lemma CycleOfPieces<K(!new)>(g: Graph<K>, fine: KeyFunc<K>, coarse: KeyFunc<K>, n: K)
    requires Closed(g) && Refines(g, fine, coarse) && n in g
    requires forall m {:trigger fine(m)} :: m in g && coarse(m) == coarse(n) ==> fine(m) == fine(n)
    requires OnCycle(Quotient(g, fine), fine(n))
    ensures OnCycle(Quotient(g, coarse), coarse(n))
  {
    var piece, group := fine(n), coarse(n);
    var next := OnCycleUnfold(Quotient(g, fine), piece);
    var x, y :| Edge(g, x, y) && fine(x) == piece && fine(y) == next;
    assert coarse(x) == group;
    assert fine(y) != piece && coarse(y) != group;
    assert CrossEdge(g, coarse, group, coarse(y));
    var w :| WalkFromTo(Quotient(g, fine), next, piece, w);
    assert PieceOf(g, fine, coarse, next, coarse(y)) && PieceOf(g, fine, coarse, piece, group);
    WalkOfPieces(g, fine, coarse, w, coarse(y), group);
    OnCycleFold(Quotient(g, coarse), group, coarse(y));
  }

  lemma CycleOfFewer<K(!new)>(g: Graph<K>, all: Graph<K>, key: KeyFunc<K>, group: GroupKey)
    requires SubGraph(g, all) && OnCycle(Quotient(g, key), group)
    ensures OnCycle(Quotient(all, key), group)
  {
    var h, h' := Quotient(g, key), Quotient(all, key);
    forall a, b | Edge(h, a, b)
      ensures Edge(h', a, b)
    {
      var x, y :| Edge(g, x, y) && key(x) == a && key(y) == b;
      assert Edge(all, x, y);
    }
    var p :| ClosedWalk(h, p) && p[0] == group;
    SubGraphWalk(h, h', p);
    assert ClosedWalk(h', p);
  }

  // ----- what may be done about cycles of groups -----

  /** The nodes are those of a cycle of groups of which none can be split. */
  ghost predicate StuckNodes<K(!new)>(g: Graph<K>, key: KeyFunc<K>, c: seq<(GroupKey, GroupKey)>, batch: set<K>) {
    CycleOfGroups(g, key, c) && Stuck(g, key, c) && batch == NodesOnCycle(g, key, c)
  }

  ghost predicate IsStuckBatch<K(!new)>(g: Graph<K>, key: KeyFunc<K>, batch: set<K>) {
    exists c :: StuckNodes(g, key, c, batch)
  }

  /** The part leaves a group of the cycle so that the cycle no longer goes through it. */
  ghost predicate CutsCycle<K(!new)>(g: Graph<K>, key: KeyFunc<K>, group: GroupKey, part: set<K>,
                                     c: seq<(GroupKey, GroupKey)>) {
    CycleOfGroups(g, key, c)
    && exists k :: 0 <= k < |c| && c[k].0 == group && Leaves(g, key, InEdge(c, k), c[k], part)
  }

  ghost predicate CutsSomeCycle<K(!new)>(g: Graph<K>, key: KeyFunc<K>, group: GroupKey, part: set<K>) {
    exists c :: CutsCycle(g, key, group, part, c)
  }

  lemma CutIsOnCycle<K(!new)>(g: Graph<K>, key: KeyFunc<K>, group: GroupKey, part: set<K>)
    requires CutsSomeCycle(g, key, group, part)
    ensures OnCycle(Quotient(g, key), group)
  {
    var c :| CutsCycle(g, key, group, part, c);
    GroupOnCycle(g, key, c, group);
  }

  /** Of the nodes left, only those of a group on a cycle of groups get another key, or those of
      a marked group. */
  ghost predicate SplitsOnlyCycles<K(!new)>(g: Graph<K>, key: KeyFunc<K>, marked: set<GroupKey>, left: Graph<K>,
                                            finalKey: KeyFunc<K>) {
    forall n {:trigger finalKey(n)} ::
      n in left && finalKey(n) != key(n) ==> key(n) in marked || OnCycle(Quotient(g, key), key(n))
  }

  /** It stays so if before that other groups of those kinds were split. */
  lemma SplitsCoarser<K(!new)>(g: Graph<K>, key: KeyFunc<K>, key': KeyFunc<K>, marked: set<GroupKey>, left: Graph<K>,
                               finalKey: KeyFunc<K>)
    requires Closed(g) && Refines(g, key', key) && left.Keys <= g.Keys
    requires forall n {:trigger key'(n)} ::
      n in g && key'(n) != key(n) ==> key(n) in marked || OnCycle(Quotient(g, key), key(n))
    requires SplitsOnlyCycles(g, key', {}, left, finalKey)
    ensures SplitsOnlyCycles(g, key, marked, left, finalKey)
  {
    forall n | n in left && finalKey(n) != key(n)
      ensures key(n) in marked || OnCycle(Quotient(g, key), key(n))
    {
      if key(n) !in marked && !OnCycle(Quotient(g, key), key(n)) {
        forall m | m in g && key(m) == key(n)
          ensures key'(m) == key'(n)
        {
          assert key'(m) == key(m) && key'(n) == key(n);
        }
        CycleOfPieces(g, key', key, n);
      }
    }
  }

  lemma SplitsAmongMore<K(!new)>(g: Graph<K>, all: Graph<K>, key: KeyFunc<K>, left: Graph<K>, finalKey: KeyFunc<K>)
    requires SubGraph(g, all) && SplitsOnlyCycles(g, key, {}, left, finalKey)
    ensures SplitsOnlyCycles(all, key, {}, left, finalKey)
  {
    forall n | n in left && finalKey(n) != key(n)
      ensures OnCycle(Quotient(all, key), key(n))
    {
      CycleOfFewer(g, all, key, key(n));
    }
  }
}
