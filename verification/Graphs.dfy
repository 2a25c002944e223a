/** Directed graphs as adjacency maps, and the walks every graph theorem here is stated with.

    A graph maps a node to the nodes it depends on, as `AbstractNodeMap` does. */
module Graphs {
  type Graph<K> = map<K, set<K>>

  predicate Edge<K(==)>(g: Graph<K>, a: K, b: K) {
    a in g && b in g[a]
  }

  /** Every dependency is itself a node. */
  ghost predicate Closed<K(!new)>(g: Graph<K>) {
    forall a, b :: Edge(g, a, b) ==> b in g
  }

  ghost predicate IsWalk<K>(g: Graph<K>, p: seq<K>) {
    |p| > 0 && forall i :: 0 <= i < |p| - 1 ==> Edge(g, p[i], p[i + 1])
  }

  ghost predicate WalkFromTo<K>(g: Graph<K>, a: K, b: K, p: seq<K>) {
    IsWalk(g, p) && p[0] == a && p[|p| - 1] == b
  }

  ghost predicate Reaches<K(!new)>(g: Graph<K>, a: K, b: K) {
    exists p :: WalkFromTo(g, a, b, p)
  }

  ghost predicate ClosedWalk<K>(g: Graph<K>, p: seq<K>) {
    |p| > 1 && IsWalk(g, p) && p[0] == p[|p| - 1]
  }

  ghost predicate OnCycle<K(!new)>(g: Graph<K>, n: K) {
    exists p :: ClosedWalk(g, p) && p[0] == n
  }

  ghost predicate Acyclic<K(!new)>(g: Graph<K>) {
    forall p :: !ClosedWalk(g, p)
  }

  ghost predicate ReachesCycle<K(!new)>(g: Graph<K>, n: K) {
    exists c :: Reaches(g, n, c) && OnCycle(g, c)
  }

  /** `s` contains every dependency of its members. */
  ghost predicate ClosedUnder<K(!new)>(g: Graph<K>, s: set<K>) {
    forall a, b :: a in s && Edge(g, a, b) ==> b in s
  }

  ghost predicate SubGraph<K(!new)>(g: Graph<K>, h: Graph<K>) {
    forall a, b :: Edge(g, a, b) ==> Edge(h, a, b)
  }

  /** `h` is `g` with every edge turned around. */
  ghost predicate Transposed<K(!new)>(g: Graph<K>, h: Graph<K>) {
    forall a, b :: Edge(g, a, b) <==> Edge(h, b, a)
  }

  // ----- walks -----

  lemma ConcatWalks<K(!new)>(g: Graph<K>, a: K, b: K, c: K, p: seq<K>, q: seq<K>)
    requires WalkFromTo(g, a, b, p) && WalkFromTo(g, b, c, q)
    ensures WalkFromTo(g, a, c, p + q[1..])
    ensures Reaches(g, a, c)
  {
    var r := p + q[1..];
    forall i | 0 <= i < |r| - 1
      ensures Edge(g, r[i], r[i + 1])
    {
      if i >= |p| - 1 {
        assert r[i] == q[i - |p| + 1] && r[i + 1] == q[i - |p| + 2];
      }
    }
    assert WalkFromTo(g, a, c, r);
  }

  lemma SliceWalk<K(!new)>(g: Graph<K>, p: seq<K>, i: nat, j: nat)
    requires IsWalk(g, p) && i <= j < |p|
    ensures WalkFromTo(g, p[i], p[j], p[i..j + 1])
    ensures Reaches(g, p[i], p[j])
  {
    assert WalkFromTo(g, p[i], p[j], p[i..j + 1]);
  }

  lemma ReachesSelf<K(!new)>(g: Graph<K>, a: K)
    ensures Reaches(g, a, a)
  {
    assert WalkFromTo(g, a, a, [a]);
  }

  lemma ReachesTrans<K(!new)>(g: Graph<K>, a: K, b: K, c: K)
    requires Reaches(g, a, b) && Reaches(g, b, c)
    ensures Reaches(g, a, c)
  {
    var p :| WalkFromTo(g, a, b, p);
    var q :| WalkFromTo(g, b, c, q);
    ConcatWalks(g, a, b, c, p, q);
  }

  lemma ReachesEdge<K(!new)>(g: Graph<K>, a: K, b: K)
    requires Edge(g, a, b)
    ensures Reaches(g, a, b)
  {
    assert WalkFromTo(g, a, b, [a, b]);
  }

  lemma ReachesStep<K(!new)>(g: Graph<K>, a: K, b: K, c: K)
    requires Edge(g, a, b) && Reaches(g, b, c)
    ensures Reaches(g, a, c)
  {
    ReachesEdge(g, a, b);
    ReachesTrans(g, a, b, c);
  }

  /** The first step of a walk between different nodes. */
  lemma ReachesUnfold<K(!new)>(g: Graph<K>, a: K, c: K) returns (b: K)
    requires Reaches(g, a, c) && a != c
    ensures Edge(g, a, b) && Reaches(g, b, c)
  {
    var p :| WalkFromTo(g, a, c, p);
    b := p[1];
    assert Edge(g, p[0], p[1]);
    SliceWalk(g, p, 1, |p| - 1);
  }

  lemma OnCycleUnfold<K(!new)>(g: Graph<K>, a: K) returns (b: K)
    requires OnCycle(g, a)
    ensures Edge(g, a, b) && Reaches(g, b, a)
  {
    var p :| ClosedWalk(g, p) && p[0] == a;
    b := p[1];
    assert Edge(g, p[0], p[1]);
    SliceWalk(g, p, 1, |p| - 1);
  }

  lemma OnCycleFold<K(!new)>(g: Graph<K>, a: K, b: K)
    requires Edge(g, a, b) && Reaches(g, b, a)
    ensures OnCycle(g, a)
  {
    var p :| WalkFromTo(g, b, a, p);
    var q := [a] + p;
    forall i | 0 <= i < |q| - 1
      ensures Edge(g, q[i], q[i + 1])
    {
      if i > 0 {
        assert Edge(g, p[i - 1], p[i]);
      }
    }
    assert ClosedWalk(g, q);
  }

  lemma AcyclicMeansNoCycle<K(!new)>(g: Graph<K>)
    ensures Acyclic(g) <==> forall n :: !OnCycle(g, n)
  {
    if !Acyclic(g) {
      var p :| ClosedWalk(g, p);
      assert OnCycle(g, p[0]);
    }
  }

  lemma WalkStaysIn<K(!new)>(g: Graph<K>, s: set<K>, p: seq<K>, i: nat)
    requires ClosedUnder(g, s) && IsWalk(g, p) && p[0] in s && i < |p|
    ensures p[i] in s
  {
    if i > 0 {
      WalkStaysIn(g, s, p, i - 1);
      assert Edge(g, p[i - 1], p[i]);
    }
  }

  lemma ClosedUnderReaches<K(!new)>(g: Graph<K>, s: set<K>, a: K, b: K)
    requires ClosedUnder(g, s) && a in s && Reaches(g, a, b)
    ensures b in s
  {
    var p :| WalkFromTo(g, a, b, p);
    WalkStaysIn(g, s, p, |p| - 1);
  }

  lemma SubGraphWalk<K(!new)>(g: Graph<K>, h: Graph<K>, p: seq<K>)
    requires SubGraph(g, h) && IsWalk(g, p)
    ensures IsWalk(h, p)
  {
    forall i | 0 <= i < |p| - 1
      ensures Edge(h, p[i], p[i + 1])
    {
      assert Edge(g, p[i], p[i + 1]);
    }
  }

  lemma SubGraphReaches<K(!new)>(g: Graph<K>, h: Graph<K>, a: K, b: K)
    requires SubGraph(g, h) && Reaches(g, a, b)
    ensures Reaches(h, a, b)
  {
    var p :| WalkFromTo(g, a, b, p);
    SubGraphWalk(g, h, p);
    assert WalkFromTo(h, a, b, p);
  }

  lemma {:induction false} TransposedReaches<K(!new)>(g: Graph<K>, h: Graph<K>, p: seq<K>)
    requires Transposed(g, h) && IsWalk(g, p)
    ensures Reaches(h, p[|p| - 1], p[0])
  {
    if |p| == 1 {
      ReachesSelf(h, p[0]);
    } else {
      assert Edge(g, p[0], p[1]);
      TransposedReaches(g, h, p[1..]);
      ReachesEdge(h, p[1], p[0]);
      ReachesTrans(h, p[|p| - 1], p[1], p[0]);
    }
  }

  lemma TransposedReachesIff<K(!new)>(g: Graph<K>, h: Graph<K>, a: K, b: K)
    requires Transposed(g, h)
    ensures Reaches(g, a, b) <==> Reaches(h, b, a)
  {
    if Reaches(g, a, b) {
      var p :| WalkFromTo(g, a, b, p);
      TransposedReaches(g, h, p);
    }
    if Reaches(h, b, a) {
      var p :| WalkFromTo(h, b, a, p);
      TransposedReaches(h, g, p);
    }
  }

  // ----- the pigeonhole principle -----

  lemma {:induction false} Pigeonhole<K>(s: set<K>, p: seq<K>) returns (i: nat, j: nat)
    requires forall x :: 0 <= x < |p| ==> p[x] in s
    requires |p| > |s|
    ensures i < j < |p| && p[i] == p[j]
  {
    var last := p[|p| - 1];
    var rest := p[..|p| - 1];
    if k :| 0 <= k < |rest| && rest[k] == last {
      return k, |p| - 1;
    }
    i, j := Pigeonhole(s - {last}, rest);
  }

  /** A chain of dependencies of length `k` starts at `n`. */
  ghost predicate HasChain<K(!new)>(g: Graph<K>, n: K, k: nat) {
    exists p :: IsWalk(g, p) && p[0] == n && |p| == k + 1
  }

  lemma ChainStep<K(!new)>(g: Graph<K>, a: K, b: K, k: nat)
    requires Edge(g, a, b) && HasChain(g, b, k)
    ensures HasChain(g, a, k + 1)
  {
    var p :| IsWalk(g, p) && p[0] == b && |p| == k + 1;
    var q := [a] + p;
    forall i | 0 <= i < |q| - 1
      ensures Edge(g, q[i], q[i + 1])
    {
      if i > 0 {
        assert Edge(g, p[i - 1], p[i]);
      }
    }
    assert IsWalk(g, q);
  }

  lemma ChainUnfold<K(!new)>(g: Graph<K>, a: K, k: nat) returns (b: K)
    requires k > 0 && HasChain(g, a, k)
    ensures Edge(g, a, b) && HasChain(g, b, k - 1)
  {
    var p :| IsWalk(g, p) && p[0] == a && |p| == k + 1;
    b := p[1];
    assert Edge(g, p[0], p[1]);
    SliceWalk(g, p, 1, |p| - 1);
    assert p[1..|p|][0] == b;
  }

  /** A chain as long as the graph is large must repeat a node. */
  lemma LongChainReachesCycle<K(!new)>(g: Graph<K>, n: K)
    requires Closed(g) && n in g && HasChain(g, n, |g|)
    ensures ReachesCycle(g, n)
  {
    var p :| IsWalk(g, p) && p[0] == n && |p| == |g| + 1;
    forall x | 0 <= x < |p|
      ensures p[x] in g.Keys
    {
      if x > 0 {
        assert Edge(g, p[x - 1], p[x]);
      }
    }
    assert |g| == |g.Keys|;
    var i, j := Pigeonhole(g.Keys, p);
    SliceWalk(g, p, 0, i);
    SliceWalk(g, p, i, j);
    assert ClosedWalk(g, p[i..j + 1]) && p[i..j + 1][0] == p[i];
  }

  ghost predicate HasSuccessorIn<K(!new)>(g: Graph<K>, s: set<K>, a: K) {
    exists b :: b in s && Edge(g, a, b)
  }

  /** If every member of `s` depends on a member of `s`, chains never run out. */
  lemma {:induction false} EndlessChain<K(!new)>(g: Graph<K>, s: set<K>, n: K, k: nat)
    requires n in s
    requires forall a :: a in s ==> HasSuccessorIn(g, s, a)
    ensures HasChain(g, n, k)
  {
    if k == 0 {
      assert IsWalk(g, [n]);
    } else {
      var b :| Edge(g, n, b) && b in s;
      EndlessChain(g, s, b, k - 1);
      ChainStep(g, n, b, k - 1);
    }
  }

  /** Reaching a cycle is the same as having chains of every length. */
  lemma ReachesCycleChains<K(!new)>(g: Graph<K>, n: K, k: nat)
    requires ReachesCycle(g, n)
    ensures HasChain(g, n, k)
  {
    if k == 0 {
      assert IsWalk(g, [n]);
    } else {
      var b := ReachesCycleStep(g, n);
      ReachesCycleChains(g, b, k - 1);
      ChainStep(g, n, b, k - 1);
    }
  }

  lemma ReachesCycleStep<K(!new)>(g: Graph<K>, n: K) returns (b: K)
    requires ReachesCycle(g, n)
    ensures Edge(g, n, b) && ReachesCycle(g, b)
  {
    var c :| Reaches(g, n, c) && OnCycle(g, c);
    if n == c {
      b := OnCycleUnfold(g, n);
    } else {
      b := ReachesUnfold(g, n, c);
    }
  }

  /** A non-empty set whose members all depend on members holds a cycle. */
  lemma SuccessorsReachCycle<K(!new)>(g: Graph<K>, s: set<K>, n: K)
    requires Closed(g) && n in s && s <= g.Keys
    requires forall a :: a in s ==> HasSuccessorIn(g, s, a)
    ensures ReachesCycle(g, n)
  {
    EndlessChain(g, s, n, |g|);
    LongChainReachesCycle(g, n);
  }
}
