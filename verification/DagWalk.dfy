/** `DAG.walkAsync`: handlers run in dependency order, errors spread to dependents. */
module DagWalk {
  import opened Graphs
  import opened NodeMaps

  /** A node's error: its own handler's, or the skip caused by a direct dependency. */
  datatype NodeError<K> = HandlerError | Skipped(causingNode: K)

  datatype Event<K> = Started(id: K) | Succeeded(id: K) | Failed(id: K)

  // ----- the outcome, on the original graph and the set of failing handlers alone -----

  ghost predicate Succeeds<K(!new)>(g: Graph<K>, failing: set<K>, n: K) {
    n in g && !ReachesCycle(g, n) && forall m :: Reaches(g, n, m) ==> m !in failing
  }

  /** The handler runs and fails: everything strictly below succeeds. */
  ghost predicate RunsAndFails<K(!new)>(g: Graph<K>, failing: set<K>, n: K) {
    n in g && n in failing && forall m :: Edge(g, n, m) ==> Succeeds(g, failing, m)
  }

  ghost predicate Errored<K(!new)>(g: Graph<K>, failing: set<K>, n: K) {
    exists f :: RunsAndFails(g, failing, f) && Reaches(g, n, f)
  }

  // ----- WalkErrors.set -----

  /** Marks `id` and, on the live graph, everything that depends on it. */
  method SetError<K(==, !new), T>(dag: NodeMap<K, T>, id: K, value: NodeError<K>, visited: set<K>,
                                  errors: map<K, NodeError<K>>)
    returns (errors': map<K, NodeError<K>>, visited': set<K>)
    requires dag.Valid() && id in dag.nodes && visited <= dag.nodes.Keys
    ensures visited + {id} <= visited' <= dag.nodes.Keys
    ensures errors'.Keys == errors.Keys + (visited' - visited)
    ensures forall m :: m in errors && m !in visited' - visited ==> errors'[m] == errors[m]
    ensures id !in visited ==> errors'[id] == value
    ensures forall m :: m in visited' - visited ==> Reaches(dag.nodes, m, id)
    ensures AllSkipped(dag.nodes, errors', visited' - visited - {id})
    ensures BlameWithin(errors', visited' - visited - {id}, visited' - visited)
    ensures forall a, b :: a in visited' - visited && Edge(dag.nodes, b, a) ==> b in visited'
    decreases dag.nodes.Keys - visited
  {
    if id in visited {
      return errors, visited;
    }
    visited' := visited + {id};
    errors' := errors[id := value];
    ReachesSelf(dag.nodes, id);
    var dependents := dag.GetReverse(id);
    var todo := dependents;
    while todo != {}
      invariant todo <= dependents
      invariant visited + {id} + (dependents - todo) <= visited' <= dag.nodes.Keys
      invariant errors'.Keys == errors.Keys + (visited' - visited)
      invariant forall m :: m in errors && m !in visited' - visited ==> errors'[m] == errors[m]
      invariant errors'[id] == value
      invariant forall m :: m in visited' - visited ==> Reaches(dag.nodes, m, id)
      invariant AllSkipped(dag.nodes, errors', visited' - visited - {id})
      invariant BlameWithin(errors', visited' - visited - {id}, visited' - visited)
      invariant forall a, b :: a in visited' - visited - {id} && Edge(dag.nodes, b, a) ==> b in visited'
    {
      var dependentNode :| dependentNode in todo;
      assert Edge(dag.nodes, dependentNode, id);
      ghost var seen, known := visited', errors';
      errors', visited' := SetError(dag, dependentNode, Skipped(id), visited', errors');
      forall m | m in visited' - seen
        ensures Reaches(dag.nodes, m, id)
      {
        ReachesEdge(dag.nodes, dependentNode, id);
        ReachesTrans(dag.nodes, m, dependentNode, id);
      }
      SkippedMore(dag.nodes, known, errors', seen - visited - {id}, visited' - seen, dependentNode, id,
                  visited' - visited);
      assert seen - visited - {id} + (visited' - seen) == visited' - visited - {id};
      todo := todo - {dependentNode};
    }
  }

  ghost predicate AllSkipped<K(!new)>(g: Graph<K>, errors: map<K, NodeError<K>>, s: set<K>) {
    forall m {:trigger SkippedByDependency(g, errors, m)} :: m in s ==> SkippedByDependency(g, errors, m)
  }

  ghost predicate SkippedByDependency<K>(g: Graph<K>, errors: map<K, NodeError<K>>, m: K) {
    && m in errors && errors[m].Skipped?
    && Edge(g, m, errors[m].causingNode) && errors[m].causingNode in errors
  }

  /** The skips of `s` name nodes marked with them. */
  ghost predicate BlameWithin<K(!new)>(errors: map<K, NodeError<K>>, s: set<K>, marked: set<K>) {
    forall m {:trigger errors[m]} :: m in s ==> m in errors && errors[m].Skipped? && errors[m].causingNode in marked
  }

  /** Those marked before, and those just marked on the way from `id`. */
  lemma SkippedMore<K(!new)>(g: Graph<K>, known: map<K, NodeError<K>>, errors: map<K, NodeError<K>>, before: set<K>,
                             added: set<K>, first: K, id: K, marked: set<K>)
    requires AllSkipped(g, known, before) && BlameWithin(known, before, marked)
    requires known.Keys <= errors.Keys
    requires forall m :: m in before ==> m in known && m in errors && errors[m] == known[m]
    requires AllSkipped(g, errors, added - {first}) && BlameWithin(errors, added - {first}, added)
    requires added <= marked && id in marked && id in errors
    requires first in added ==> first in errors && errors[first] == Skipped(id) && Edge(g, first, id)
    ensures AllSkipped(g, errors, before + added) && BlameWithin(errors, before + added, marked)
  {
    forall m | m in before + added
      ensures SkippedByDependency(g, errors, m) && errors[m].causingNode in marked
    {
      if m in before {
        assert SkippedByDependency(g, known, m);
      } else if m != first {
        assert SkippedByDependency(g, errors, m);
      }
    }
  }

  lemma AllDependentsMarked<K(!new)>(g: Graph<K>, marked: set<K>, n: K)
    requires n in marked && forall a, b :: a in marked && Edge(g, b, a) ==> b in marked
    ensures forall m :: Reaches(g, m, n) ==> m in marked
  {
    forall m | Reaches(g, m, n)
      ensures m in marked
    {
      var p :| WalkFromTo(g, m, n, p);
      var i := |p| - 1;
      while i > 0
        invariant 0 <= i < |p| && p[i] in marked
      {
        assert Edge(g, p[i - 1], p[i]);
        i := i - 1;
      }
    }
  }

  // ----- what every moment of the walk keeps -----

  /** `done` succeeded and were deleted, `failed` ran and failed, `running` are under way. */
  ghost predicate Scheduled<K(!new)>(g: Graph<K>, failing: set<K>, now: Graph<K>, done: set<K>, failed: set<K>,
                                     running: set<K>) {
    && now == Without(g, done)
    && ClosedUnder(g, done)
    && (forall n :: n in done ==> Succeeds(g, failing, n))
    && failed + running <= now.Keys && failed <= failing && failed !! running
    && (forall n :: n in now ==> (now[n] == {} <==> n in failed + running))
  }

  /** The errors recorded: the failed nodes' own, and a skip for all that depends on them. */
  ghost predicate Marked<K(!new)>(now: Graph<K>, failed: set<K>, errors: map<K, NodeError<K>>) {
    && errors.Keys == AllReaching(now, failed)
    && (forall n :: n in failed ==> n in errors && errors[n] == HandlerError)
    && AllSkipped(now, errors, errors.Keys - failed)
  }

  ghost function AllReaching<K(!new)>(g: Graph<K>, targets: set<K>): set<K> {
    set n | n in g && ReachesAny(g, n, targets)
  }

  ghost predicate ReachesAny<K(!new)>(g: Graph<K>, n: K, targets: set<K>) {
    exists f :: f in targets && Reaches(g, n, f)
  }

  lemma FreeReachesOnlyItself<K(!new)>(g: Graph<K>, n: K, m: K)
    requires Reaches(g, n, m) && n in g && g[n] == {}
    ensures m == n
  {
    if m != n {
      var b := ReachesUnfold(g, n, m);
    }
  }

  /** Deleting a free node cuts no path to another node. */
  lemma DeletingFreeKeepsReach<K(!new)>(g: Graph<K>, n: K, a: K, b: K)
    requires n in g && g[n] == {} && b != n
    ensures Reaches(Without(g, {n}), a, b) <==> Reaches(g, a, b)
  {
    var h := Without(g, {n});
    if Reaches(h, a, b) {
      SubGraphReaches(h, g, a, b);
    }
    if Reaches(g, a, b) {
      var p :| WalkFromTo(g, a, b, p);
      forall i | 0 <= i < |p| - 1
        ensures Edge(h, p[i], p[i + 1])
      {
        assert Edge(g, p[i], p[i + 1]);
        if i + 1 < |p| - 1 {
          assert Edge(g, p[i + 1], p[i + 2]);
        }
      }
      assert WalkFromTo(h, a, b, p);
    }
  }

  lemma DeletingFreeKeepsReachAny<K(!new)>(g: Graph<K>, n: K, a: K, targets: set<K>)
    requires n in g && g[n] == {} && n !in targets
    ensures ReachesAny(Without(g, {n}), a, targets) <==> ReachesAny(g, a, targets)
  {
    forall f | f in targets
      ensures Reaches(Without(g, {n}), a, f) <==> Reaches(g, a, f)
    {
      DeletingFreeKeepsReach(g, n, a, f);
    }
  }

  lemma DeletingFreeKeepsAllReaching<K(!new)>(g: Graph<K>, n: K, targets: set<K>)
    requires n in g && g[n] == {} && n !in targets
    ensures n !in AllReaching(g, targets)
    ensures AllReaching(Without(g, {n}), targets) == AllReaching(g, targets)
  {
    if f :| f in targets && Reaches(g, n, f) {
      FreeReachesOnlyItself(g, n, f);
    }
    forall m
      ensures m in AllReaching(Without(g, {n}), targets) <==> m in AllReaching(g, targets)
    {
      DeletingFreeKeepsReachAny(g, n, m, targets);
    }
  }

  /** A node that ran had all its dependencies succeed. */
  lemma RunningRan<K(!new)>(g: Graph<K>, failing: set<K>, now: Graph<K>, done: set<K>, n: K)
    requires Closed(g) && now == Without(g, done) && n in now && now[n] == {}
    requires ClosedUnder(g, done) && forall m :: m in done ==> Succeeds(g, failing, m)
    ensures forall m :: Edge(g, n, m) ==> m in done
    ensures n in failing ==> RunsAndFails(g, failing, n)
    ensures n !in failing ==> Succeeds(g, failing, n)
  {
    forall m | Edge(g, n, m)
      ensures m in done
    {
      assert !Edge(now, n, m);
    }
    if n !in failing {
      forall m | Reaches(g, n, m) && m != n
        ensures m in done
      {
        var b := ReachesUnfold(g, n, m);
        ClosedUnderReaches(g, done, b, m);
      }
      forall m | Reaches(g, n, m)
        ensures m !in failing
      {
        if m != n {
          assert Succeeds(g, failing, m);
          ReachesSelf(g, m);
        }
      }
      if ReachesCycle(g, n) {
        var b := ReachesCycleStep(g, n);
      }
    }
  }

  lemma ScheduledAfterSuccess<K(!new)>(g: Graph<K>, failing: set<K>, now: Graph<K>, done: set<K>, failed: set<K>,
                                       running: set<K>, n: K, running': set<K>)
    requires Closed(g) && Scheduled(g, failing, now, done, failed, running)
    requires n in running && n !in failing
    requires forall m :: m in running' <==>
      m in running - {n} || (Edge(now, m, n) && Without(now, {n})[m] == {})
    ensures Scheduled(g, failing, Without(now, {n}), done + {n}, failed, running')
  {
    var next := Without(now, {n});
    WithoutTwice(g, done, {n});
    RunningRan(g, failing, now, done, n);
    OnlyDependentsChange(now, n);
    forall m | m in next
      ensures next[m] == {} <==> m in failed + running'
    {
      if Edge(now, m, n) {
        assert m !in failed + running;
      } else {
        assert m !in Dependents(now, n);
      }
    }
  }

  lemma ScheduledAfterFailure<K(!new)>(g: Graph<K>, failing: set<K>, now: Graph<K>, done: set<K>, failed: set<K>,
                                       running: set<K>, n: K)
    requires Scheduled(g, failing, now, done, failed, running) && n in running && n in failing
    ensures Scheduled(g, failing, now, done, failed + {n}, running - {n})
  {
    assert failed + {n} + (running - {n}) == failed + running;
  }

  lemma MarkedAfterSuccess<K(!new)>(now: Graph<K>, failed: set<K>, errors: map<K, NodeError<K>>, n: K)
    requires Marked(now, failed, errors) && n in now && now[n] == {} && n !in failed
    ensures Marked(Without(now, {n}), failed, errors)
  {
    DeletingFreeKeepsAllReaching(now, n, failed);
    SkippingAfterSuccess(now, failed, errors, n);
  }

  lemma SkippingAfterSuccess<K(!new)>(now: Graph<K>, failed: set<K>, errors: map<K, NodeError<K>>, n: K)
    requires AllSkipped(now, errors, errors.Keys - failed) && n !in errors
    ensures AllSkipped(Without(now, {n}), errors, errors.Keys - failed)
  {
    forall m | m in errors && m !in failed
      ensures SkippedByDependency(Without(now, {n}), errors, m)
    {
      assert SkippedByDependency(now, errors, m);
    }
  }

  lemma MarkedAfterFailure<K(!new)>(now: Graph<K>, failed: set<K>, errors: map<K, NodeError<K>>, n: K,
                                    errors': map<K, NodeError<K>>, marked: set<K>)
    requires Marked(now, failed, errors)
    requires forall f :: f in failed ==> f in now && now[f] == {} && f != n
    requires forall m :: m in marked <==> m in now && Reaches(now, m, n)
    requires errors'.Keys == errors.Keys + marked
    requires n in errors' && errors'[n] == HandlerError
    requires forall m :: m in errors && m !in marked ==> errors'[m] == errors[m]
    requires AllSkipped(now, errors', marked - {n})
    ensures Marked(now, failed + {n}, errors')
  {
    AllReachingOneMore(now, failed, n, marked);
    forall f | f in failed
      ensures errors'[f] == HandlerError
    {
      if f in marked {
        FreeReachesOnlyItself(now, f, n);
      }
    }
    SkippingAfterFailure(now, failed, errors, n, errors', marked);
  }

  lemma AllReachingOneMore<K(!new)>(g: Graph<K>, targets: set<K>, n: K, marked: set<K>)
    requires forall m :: m in marked <==> m in g && Reaches(g, m, n)
    ensures AllReaching(g, targets + {n}) == AllReaching(g, targets) + marked
  {
    forall m | m in g
      ensures ReachesAny(g, m, targets + {n}) <==> ReachesAny(g, m, targets) || Reaches(g, m, n)
    {
      if ReachesAny(g, m, targets + {n}) {
        var f :| f in targets + {n} && Reaches(g, m, f);
      }
    }
  }

  lemma SkippingAfterFailure<K(!new)>(now: Graph<K>, failed: set<K>, errors: map<K, NodeError<K>>, n: K,
                                      errors': map<K, NodeError<K>>, marked: set<K>)
    requires AllSkipped(now, errors, errors.Keys - failed)
    requires errors'.Keys == errors.Keys + marked
    requires forall m :: m in errors && m !in marked ==> errors'[m] == errors[m]
    requires AllSkipped(now, errors', marked - {n})
    ensures AllSkipped(now, errors', errors'.Keys - failed - {n})
  {
    forall m | m in errors' && m !in failed + {n}
      ensures SkippedByDependency(now, errors', m)
    {
      if m !in marked {
        assert SkippedByDependency(now, errors, m);
      }
    }
  }

  // ----- where every walk ends -----

  lemma SucceedersAreDone<K(!new)>(g: Graph<K>, failing: set<K>, now: Graph<K>, done: set<K>, failed: set<K>, n: K)
    requires Closed(g) && Scheduled(g, failing, now, done, failed, {})
    ensures n in done <==> Succeeds(g, failing, n)
  {
    if Succeeds(g, failing, n) && n !in done {
      var s := set m | m in now && Reaches(g, n, m);
      ReachesSelf(g, n);
      forall a | a in s
        ensures HasSuccessorIn(g, s, a)
      {
        assert a !in failed;
        var b :| b in now[a];
        assert Edge(now, a, b) && Edge(g, a, b);
        ReachesEdge(g, a, b);
        ReachesTrans(g, n, a, b);
      }
      SuccessorsReachCycle(g, s, n);
    }
  }

  lemma FailedRan<K(!new)>(g: Graph<K>, failing: set<K>, now: Graph<K>, done: set<K>, failed: set<K>, f: K)
    requires Closed(g) && Scheduled(g, failing, now, done, failed, {})
    ensures f in failed <==> RunsAndFails(g, failing, f)
  {
    if f in failed {
      RunningRan(g, failing, now, done, f);
    }
    if RunsAndFails(g, failing, f) {
      ReachesSelf(g, f);
      assert f !in done;
      forall m | Edge(g, f, m)
        ensures m in done
      {
        SucceedersAreDone(g, failing, now, done, failed, m);
      }
      assert forall m :: !Edge(now, f, m);
      assert now[f] == {};
    }
  }

  lemma ReachInRemainder<K(!new)>(g: Graph<K>, done: set<K>, a: K, b: K)
    requires ClosedUnder(g, done) && b !in done
    ensures Reaches(Without(g, done), a, b) <==> Reaches(g, a, b)
  {
    var now := Without(g, done);
    if Reaches(now, a, b) {
      SubGraphReaches(now, g, a, b);
    }
    if Reaches(g, a, b) {
      var p :| WalkFromTo(g, a, b, p);
      forall i | 0 <= i < |p|
        ensures p[i] !in done
      {
        SliceWalk(g, p, i, |p| - 1);
        if p[i] in done {
          ClosedUnderReaches(g, done, p[i], b);
        }
      }
      forall i | 0 <= i < |p| - 1
        ensures Edge(now, p[i], p[i + 1])
      {
        assert Edge(g, p[i], p[i + 1]);
      }
      assert WalkFromTo(now, a, b, p);
    }
  }

  lemma UnmarkedReachesCycle<K(!new)>(g: Graph<K>, failing: set<K>, now: Graph<K>, done: set<K>, failed: set<K>,
                                      errors: map<K, NodeError<K>>, n: K)
    requires Closed(g) && Scheduled(g, failing, now, done, failed, {}) && Marked(now, failed, errors)
    requires n in now && n !in errors
    ensures ReachesCycle(g, n)
  {
    var s := now.Keys - errors.Keys;
    forall a | a in s
      ensures HasSuccessorIn(g, s, a)
    {
      assert a !in failed;
      var b :| b in now[a];
      assert Edge(now, a, b) && Edge(g, a, b);
      if b in errors {
        var f :| f in failed && Reaches(now, b, f);
        ReachesStep(now, a, b, f);
      }
    }
    SuccessorsReachCycle(g, s, n);
  }

  /** Once nothing runs, the split of the nodes is fixed by the graph and the failing set. */
  lemma FinalSplit<K(!new)>(g: Graph<K>, failing: set<K>, now: Graph<K>, done: set<K>, failed: set<K>,
                            errors: map<K, NodeError<K>>, n: K)
    requires Closed(g) && Scheduled(g, failing, now, done, failed, {}) && Marked(now, failed, errors)
    ensures n in done <==> Succeeds(g, failing, n)
    ensures n in failed <==> RunsAndFails(g, failing, n)
    ensures n in errors <==> n in g && Errored(g, failing, n)
    ensures n in now && n !in errors <==> n in g && ReachesCycle(g, n) && !Errored(g, failing, n)
  {
    SucceedersAreDone(g, failing, now, done, failed, n);
    FailedRan(g, failing, now, done, failed, n);
    ErroredReachFailed(g, failing, now, done, failed, n);
    if n in now && n !in errors {
      UnmarkedReachesCycle(g, failing, now, done, failed, errors, n);
    }
  }

  lemma ErroredReachFailed<K(!new)>(g: Graph<K>, failing: set<K>, now: Graph<K>, done: set<K>, failed: set<K>, n: K)
    requires Closed(g) && Scheduled(g, failing, now, done, failed, {})
    ensures ReachesAny(now, n, failed) <==> Errored(g, failing, n)
  {
    if ReachesAny(now, n, failed) {
      var f :| f in failed && Reaches(now, n, f);
      FailedRan(g, failing, now, done, failed, f);
      ReachInRemainder(g, done, n, f);
    }
    if Errored(g, failing, n) {
      var f :| RunsAndFails(g, failing, f) && Reaches(g, n, f);
      FailedRan(g, failing, now, done, failed, f);
      ReachInRemainder(g, done, n, f);
    }
  }

  // ----- the walk itself -----

  /** An event is in its place: a node starts once, after all its dependencies succeeded,
      and settles once, after it started. */
  ghost predicate MayFollow<K(!new)>(g: Graph<K>, before: seq<Event<K>>, e: Event<K>) {
    match e
    case Started(n) => e !in before && forall d :: Edge(g, n, d) ==> Succeeded(d) in before
    case _ => Started(e.id) in before && Succeeded(e.id) !in before && Failed(e.id) !in before
  }

  ghost predicate WellOrdered<K(!new)>(g: Graph<K>, log: seq<Event<K>>) {
    forall i :: 0 <= i < |log| ==> MayFollow(g, log[..i], log[i])
  }

  /** All dependencies of the node have succeeded. */
  ghost predicate Ready<K(!new)>(g: Graph<K>, events: seq<Event<K>>, n: K) {
    n in g && forall d :: Edge(g, n, d) ==> Succeeded(d) in events
  }

  ghost predicate AllReadyStarted<K(!new)>(g: Graph<K>, events: seq<Event<K>>) {
    forall n {:trigger Ready(g, events, n)} :: Ready(g, events, n) ==> Started(n) in events
  }

  /** No node that is ready waits: whenever a handler settles, all that could be started by then
      has been. */
  ghost predicate Prompt<K(!new)>(g: Graph<K>, log: seq<Event<K>>) {
    forall i {:trigger log[..i]} :: 0 <= i < |log| && !log[i].Started? ==> AllReadyStarted(g, log[..i])
  }

  lemma PromptAppend<K(!new)>(g: Graph<K>, log: seq<Event<K>>, e: Event<K>)
    requires Prompt(g, log) && (!e.Started? ==> AllReadyStarted(g, log))
    ensures Prompt(g, log + [e])
  {
    var all := log + [e];
    forall i | 0 <= i < |all| && !all[i].Started?
      ensures AllReadyStarted(g, all[..i])
    {
      assert all[..i] == log[..i];
      if i == |log| {
        assert log[..i] == log;
      }
    }
  }

  /** The last failure so far that the node depends on. */
  ghost predicate LatestFailure<K(!new)>(g: Graph<K>, log: seq<Event<K>>, n: K, i: int) {
    && 0 <= i < |log| && log[i].Failed? && Reaches(g, n, log[i].id)
    && forall j :: i < j < |log| && log[j].Failed? ==> !Reaches(g, n, log[j].id)
  }

  /** A skip names a dependency on the way to the last failure that the node depends on: a later
      failure's skip takes the place of an earlier one's. */
  ghost predicate BlamesLatest<K(!new)>(g: Graph<K>, log: seq<Event<K>>, errors: map<K, NodeError<K>>) {
    forall n, i {:trigger LatestFailure(g, log, n, i)} ::
      n in errors && errors[n].Skipped? && LatestFailure(g, log, n, i) ==> Reaches(g, errors[n].causingNode, log[i].id)
  }

  ghost predicate NoNewFailure<K>(log: seq<Event<K>>, log': seq<Event<K>>) {
    log <= log' && forall i :: |log| <= i < |log'| ==> !log'[i].Failed?
  }

  lemma BlameKept<K(!new)>(g: Graph<K>, log: seq<Event<K>>, log': seq<Event<K>>, errors: map<K, NodeError<K>>)
    requires BlamesLatest(g, log, errors) && NoNewFailure(log, log')
    ensures BlamesLatest(g, log', errors)
  {
    forall n, i | n in errors && errors[n].Skipped? && LatestFailure(g, log', n, i)
      ensures Reaches(g, errors[n].causingNode, log'[i].id)
    {
      assert LatestFailure(g, log, n, i);
    }
  }

  lemma BlameAfterFailure<K(!new)>(g: Graph<K>, now: Graph<K>, done: set<K>, log: seq<Event<K>>,
                                   errors: map<K, NodeError<K>>, f: K, errors': map<K, NodeError<K>>, marked: set<K>)
    requires BlamesLatest(g, log, errors) && now == Without(g, done) && ClosedUnder(g, done) && f !in done
    requires errors.Keys + marked <= now.Keys && errors'.Keys == errors.Keys + marked
    requires forall m :: m in errors && m !in marked ==> errors'[m] == errors[m]
    requires forall m :: m in marked <==> m in now && Reaches(now, m, f)
    requires f in errors' && errors'[f] == HandlerError && BlameWithin(errors', marked - {f}, marked)
    ensures BlamesLatest(g, log + [Failed(f)], errors')
  {
    var all := log + [Failed(f)];
    forall n, i | n in errors' && errors'[n].Skipped? && LatestFailure(g, all, n, i)
      ensures Reaches(g, errors'[n].causingNode, all[i].id)
    {
      ReachInRemainder(g, done, n, f);
      if n in marked {
        assert all[|log|] == Failed(f);
        assert i == |log|;
        ReachInRemainder(g, done, errors'[n].causingNode, f);
      } else {
        assert all[|log|] == Failed(f) && i < |log|;
        assert forall j :: i < j < |log| ==> all[j] == log[j];
        assert LatestFailure(g, log, n, i);
      }
    }
  }

  lemma WellOrderedAppend<K(!new)>(g: Graph<K>, log: seq<Event<K>>, e: Event<K>)
    requires WellOrdered(g, log) && MayFollow(g, log, e)
    ensures WellOrdered(g, log + [e])
  {
    var all := log + [e];
    forall i | 0 <= i < |all|
      ensures MayFollow(g, all[..i], all[i])
    {
      if i < |log| {
        assert all[..i] == log[..i];
      } else {
        assert all[..i] == log;
      }
    }
  }

  ghost predicate Chronicle<K(!new)>(g: Graph<K>, log: seq<Event<K>>, done: set<K>, failed: set<K>, running: set<K>) {
    && WellOrdered(g, log) && Prompt(g, log)
    && (forall n :: Started(n) in log <==> n in done + failed + running)
    && (forall n :: Succeeded(n) in log <==> n in done)
    && (forall n :: Failed(n) in log <==> n in failed)
  }

  lemma ChronicleSucceeded<K(!new)>(g: Graph<K>, log: seq<Event<K>>, done: set<K>, failed: set<K>,
                                    running: set<K>, n: K)
    requires Chronicle(g, log, done, failed, running) && n in running && n !in done + failed
    requires AllReadyStarted(g, log)
    ensures Chronicle(g, log + [Succeeded(n)], done + {n}, failed, running - {n})
  {
    PromptAppend(g, log, Succeeded(n));
    WellOrderedAppend(g, log, Succeeded(n));
  }

  lemma ChronicleFailed<K(!new)>(g: Graph<K>, log: seq<Event<K>>, done: set<K>, failed: set<K>,
                                 running: set<K>, n: K)
    requires Chronicle(g, log, done, failed, running) && n in running && n !in done + failed
    requires AllReadyStarted(g, log)
    ensures Chronicle(g, log + [Failed(n)], done, failed + {n}, running - {n})
  {
    PromptAppend(g, log, Failed(n));
    WellOrderedAppend(g, log, Failed(n));
  }

  /** A node that has become free starts in its place. */
  lemma ChronicleStarted<K(!new)>(g: Graph<K>, log: seq<Event<K>>, done: set<K>, failed: set<K>,
                                  running: set<K>, n: K)
    requires Chronicle(g, log, done, failed, running) && n !in done + failed + running
    requires n in Without(g, done) && Without(g, done)[n] == {}
    ensures Chronicle(g, log + [Started(n)], done, failed, running + {n})
  {
    forall d | Edge(g, n, d)
      ensures Succeeded(d) in log
    {
      assert !Edge(Without(g, done), n, d);
    }
    WellOrderedAppend(g, log, Started(n));
    PromptAppend(g, log, Started(n));
  }

  /** Nothing that is free has been left out. */
  lemma AllFreeStarted<K(!new)>(g: Graph<K>, failing: set<K>, now: Graph<K>, log: seq<Event<K>>, done: set<K>,
                                failed: set<K>, running: set<K>)
    requires Closed(g) && Scheduled(g, failing, now, done, failed, running) && Chronicle(g, log, done, failed, running)
    ensures AllReadyStarted(g, log)
  {
    forall n | Ready(g, log, n)
      ensures Started(n) in log
    {
      if n !in done {
        forall d
          ensures !Edge(now, n, d)
        {
          assert Edge(g, n, d) ==> Succeeded(d) in log;
        }
        assert now[n] == {} by {
          if d :| d in now[n] {
            assert Edge(now, n, d);
          }
        }
      }
    }
  }

  /** Starts the handlers of the candidates that are free. */
  method Next<K(==, !new), T>(dag: NodeMap<K, T>, candidates: set<K>, running: set<K>, log: seq<Event<K>>,
                              ghost g: Graph<K>, ghost done: set<K>, ghost failed: set<K>)
    returns (running': set<K>, log': seq<Event<K>>)
    requires candidates <= dag.nodes.Keys && dag.nodes == Without(g, done)
    requires Chronicle(g, log, done, failed, running)
    requires forall n :: n in candidates && dag.nodes[n] == {} ==> n !in done + failed + running
    ensures forall n :: n in running' <==> n in running || (n in candidates && dag.nodes[n] == {})
    ensures Chronicle(g, log', done, failed, running') && NoNewFailure(log, log')
  {
    running', log' := running, log;
    var todo := candidates;
    while todo != {}
      invariant todo <= candidates
      invariant forall n :: n in running' <==> n in running || (n in candidates - todo && dag.nodes[n] == {})
      invariant Chronicle(g, log', done, failed, running') && NoNewFailure(log, log')
    {
      var node :| node in todo;
      todo := todo - {node};
      if dag.nodes[node] == {} {
        ChronicleStarted(g, log', done, failed, running', node);
        log' := log' + [Started(node)];
        running' := running' + {node};
      }
    }
  }

  /** The outcome as the caller sees it, whatever order the handlers settled in. */
  ghost predicate Outcome<K(!new)>(g: Graph<K>, failing: set<K>, log: seq<Event<K>>,
                                   errors: map<K, NodeError<K>>, circular: set<K>) {
    && (forall n :: Succeeded(n) in log <==> Succeeds(g, failing, n))
    && (forall n :: Failed(n) in log <==> RunsAndFails(g, failing, n))
    && (forall n :: Started(n) in log <==> Succeeds(g, failing, n) || RunsAndFails(g, failing, n))
    && (forall n :: n in errors <==> n in g && Errored(g, failing, n))
    && (forall n :: n in circular <==> n in g && ReachesCycle(g, n) && !Errored(g, failing, n))
  }

  ghost predicate Invariant<K(!new)>(g: Graph<K>, failing: set<K>, now: Graph<K>, done: set<K>, failed: set<K>,
                                     running: set<K>, errors: map<K, NodeError<K>>, log: seq<Event<K>>) {
    && Scheduled(g, failing, now, done, failed, running)
    && Marked(now, failed, errors)
    && Chronicle(g, log, done, failed, running)
    && BlamesLatest(g, log, errors)
  }

  lemma InvariantAtStart<K(!new)>(g: Graph<K>, failing: set<K>, running: set<K>, errors: map<K, NodeError<K>>,
                                  log: seq<Event<K>>)
    requires forall n :: n in running <==> n in g && g[n] == {}
    requires Chronicle(g, log, {}, {}, running) && errors == map[]
    ensures Invariant(g, failing, g, {}, {}, running, errors, log)
  {
    WithoutNone(g);
    assert AllReaching(g, {}) == {};
  }

  /** A handler succeeded: its node goes, and what that frees is started. */
  method OnSuccess<K(==, !new), T>(dag: NodeMap<K, T>, node: K, running: set<K>, log: seq<Event<K>>, ghost g: Graph<K>,
                                   ghost failing: set<K>, ghost done: set<K>, ghost failed: set<K>,
                                   ghost errors: map<K, NodeError<K>>)
    returns (running': set<K>, log': seq<Event<K>>)
    requires dag.Valid() && Closed(g) && node in running && node !in failing
    requires Invariant(g, failing, dag.nodes, done, failed, running, errors, log)
    modifies dag
    ensures dag.Valid() && dag.nodes.Keys == old(dag.nodes).Keys - {node} < old(dag.nodes).Keys
    ensures Invariant(g, failing, dag.nodes, done + {node}, failed, running', errors, log')
  {
    ghost var now := dag.nodes;
    SuccessLogged(g, failing, now, done, failed, running, errors, log, node);
    var affected := dag.DeleteNode(node);
    log' := log + [Succeeded(node)];
    WithoutTwice(g, done, {node});
    assert forall m :: m in affected <==> Edge(now, m, node);
    forall m | m in affected
      ensures m in dag.nodes && m !in done + {node} + failed + running
    {
      assert now[m] != {};
    }
    running', log' := Next(dag, affected, running - {node}, log', g, done + {node}, failed);
    InvariantAfterSuccess(g, failing, now, done, failed, running, errors, log, node, running', log');
  }

  lemma SuccessLogged<K(!new)>(g: Graph<K>, failing: set<K>, now: Graph<K>, done: set<K>, failed: set<K>,
                               running: set<K>, errors: map<K, NodeError<K>>, log: seq<Event<K>>, n: K)
    requires Closed(g) && Invariant(g, failing, now, done, failed, running, errors, log) && n in running
    ensures Chronicle(g, log + [Succeeded(n)], done + {n}, failed, running - {n})
  {
    AllFreeStarted(g, failing, now, log, done, failed, running);
    ChronicleSucceeded(g, log, done, failed, running, n);
  }

  lemma InvariantAfterSuccess<K(!new)>(g: Graph<K>, failing: set<K>, now: Graph<K>, done: set<K>, failed: set<K>,
                                       running: set<K>, errors: map<K, NodeError<K>>, log: seq<Event<K>>, n: K,
                                       running': set<K>, log': seq<Event<K>>)
    requires Closed(g) && Invariant(g, failing, now, done, failed, running, errors, log)
    requires n in running && n !in failing
    requires forall m :: m in running' <==> m in running - {n} || (Edge(now, m, n) && Without(now, {n})[m] == {})
    requires Chronicle(g, log', done + {n}, failed, running') && NoNewFailure(log + [Succeeded(n)], log')
    ensures Invariant(g, failing, Without(now, {n}), done + {n}, failed, running', errors, log')
  {
    MarkedAfterSuccess(now, failed, errors, n);
    ScheduledAfterSuccess(g, failing, now, done, failed, running, n, running');
    assert forall i :: |log| < i < |log'| ==> !log'[i].Failed?;
    assert log'[|log|] == Succeeded(n);
    BlameKept(g, log, log', errors);
  }

  lemma InvariantAfterFailure<K(!new)>(g: Graph<K>, failing: set<K>, now: Graph<K>, done: set<K>, failed: set<K>,
                                       running: set<K>, errors: map<K, NodeError<K>>, log: seq<Event<K>>, n: K,
                                       errors': map<K, NodeError<K>>, marked: set<K>)
    requires Closed(g) && Invariant(g, failing, now, done, failed, running, errors, log)
    requires n in running && n in failing
    requires marked <= now.Keys && n in marked && errors'.Keys == errors.Keys + marked
    requires errors'[n] == HandlerError
    requires forall m :: m in errors && m !in marked ==> errors'[m] == errors[m]
    requires forall m :: m in marked ==> Reaches(now, m, n)
    requires AllSkipped(now, errors', marked - {n}) && BlameWithin(errors', marked - {n}, marked)
    requires forall a, b :: a in marked && Edge(now, b, a) ==> b in marked
    ensures Invariant(g, failing, now, done, failed + {n}, running - {n}, errors', log + [Failed(n)])
  {
    AllDependentsMarked(now, marked, n);
    assert forall f :: f in failed ==> f in now && now[f] == {} && f != n;
    MarkedAfterFailure(now, failed, errors, n, errors', marked);
    ScheduledAfterFailure(g, failing, now, done, failed, running, n);
    BlameAfterFailure(g, now, done, log, errors, n, errors', marked);
    AllFreeStarted(g, failing, now, log, done, failed, running);
    ChronicleFailed(g, log, done, failed, running, n);
  }

  /** A handler failed: its node and all that depends on it are marked, nothing starts. */
  method OnFailure<K(==, !new), T>(dag: NodeMap<K, T>, node: K, running: set<K>, log: seq<Event<K>>,
                                   errors: map<K, NodeError<K>>, ghost g: Graph<K>, ghost failing: set<K>,
                                   ghost done: set<K>, ghost failed: set<K>)
    returns (running': set<K>, log': seq<Event<K>>, errors': map<K, NodeError<K>>)
    requires dag.Valid() && Closed(g) && node in running && node in failing
    requires Invariant(g, failing, dag.nodes, done, failed, running, errors, log)
    ensures running' == running - {node}
    ensures Invariant(g, failing, dag.nodes, done, failed + {node}, running', errors', log')
  {
    var marked;
    errors', marked := SetError(dag, node, HandlerError, {}, errors);
    InvariantAfterFailure(g, failing, dag.nodes, done, failed, running, errors, log, node, errors', marked);
    log' := log + [Failed(node)];
    running' := running - {node};
  }

  /** The handler of `n` fails exactly when `n` is in `failing`; which running handler
      settles next is left open, so the contract holds for every interleaving. */
  method WalkAsyncDestructive<K(==, !new), T>(dag: NodeMap<K, T>, failing: set<K>)
    returns (log: seq<Event<K>>, errors: map<K, NodeError<K>>, circular: set<K>)
    requires dag.Valid()
    modifies dag
    ensures WellOrdered(old(dag.nodes), log) && Prompt(old(dag.nodes), log)
    ensures Outcome(old(dag.nodes), failing, log, errors, circular)
    ensures ErrorsExplained(old(dag.nodes), failing, errors) && BlamesLatest(old(dag.nodes), log, errors)
    ensures dag.Valid() && dag.nodes.Keys == errors.Keys + circular
  {
    ghost var g := dag.nodes;
    ghost var done: set<K>, failed: set<K> := {}, {};
    errors := map[];
    var running;
    WithoutNone(g);
    running, log := Next(dag, dag.nodes.Keys, {}, [], g, done, failed);
    InvariantAtStart(g, failing, running, errors, log);
    while running != {}
      invariant dag.Valid() && Invariant(g, failing, dag.nodes, done, failed, running, errors, log)
      decreases dag.nodes.Keys, running
    {
      var node :| node in running;
      if node in failing {
        running, log, errors := OnFailure(dag, node, running, log, errors, g, failing, done, failed);
        failed := failed + {node};
      } else {
        running, log := OnSuccess(dag, node, running, log, g, failing, done, failed, errors);
        done := done + {node};
      }
    }
    circular := dag.nodes.Keys - errors.Keys;
    AfterWalk(g, failing, dag.nodes, done, failed, errors, log, circular);
  }

  /** The walk of a copy: the graph itself stays as it is. */
  method WalkAsync<K(==, !new), T>(dag: NodeMap<K, T>, failing: set<K>)
    returns (log: seq<Event<K>>, errors: map<K, NodeError<K>>, circular: set<K>)
    requires dag.Valid()
    ensures WellOrdered(dag.nodes, log) && Prompt(dag.nodes, log)
    ensures Outcome(dag.nodes, failing, log, errors, circular)
    ensures ErrorsExplained(dag.nodes, failing, errors) && BlamesLatest(dag.nodes, log, errors)
  {
    var copy := dag.Clone();
    log, errors, circular := WalkAsyncDestructive(copy, failing);
  }

  /** A failed handler's error is its own; any other names a direct dependency that is
      itself in error. */
  ghost predicate ErrorsExplained<K(!new)>(g: Graph<K>, failing: set<K>, errors: map<K, NodeError<K>>) {
    && (forall n :: RunsAndFails(g, failing, n) ==> n in errors && errors[n] == HandlerError)
    && AllSkipped(g, errors, set n | n in errors && !RunsAndFails(g, failing, n))
  }

  lemma AfterWalk<K(!new)>(g: Graph<K>, failing: set<K>, now: Graph<K>, done: set<K>, failed: set<K>,
                           errors: map<K, NodeError<K>>, log: seq<Event<K>>, circular: set<K>)
    requires Closed(g) && Invariant(g, failing, now, done, failed, {}, errors, log)
    requires circular == now.Keys - errors.Keys
    ensures WellOrdered(g, log) && Prompt(g, log) && BlamesLatest(g, log, errors)
    ensures Outcome(g, failing, log, errors, circular)
    ensures ErrorsExplained(g, failing, errors)
    ensures now.Keys == errors.Keys + circular
  {
    AfterWalkOutcome(g, failing, now, done, failed, errors, log);
    AfterWalkErrors(g, failing, now, done, failed, errors);
  }

  lemma AfterWalkOutcome<K(!new)>(g: Graph<K>, failing: set<K>, now: Graph<K>, done: set<K>, failed: set<K>,
                                  errors: map<K, NodeError<K>>, log: seq<Event<K>>)
    requires Closed(g) && Scheduled(g, failing, now, done, failed, {}) && Marked(now, failed, errors)
    requires Chronicle(g, log, done, failed, {})
    ensures Outcome(g, failing, log, errors, now.Keys - errors.Keys)
  {
    forall n
      ensures Succeeded(n) in log <==> Succeeds(g, failing, n)
      ensures Failed(n) in log <==> RunsAndFails(g, failing, n)
      ensures Started(n) in log <==> Succeeds(g, failing, n) || RunsAndFails(g, failing, n)
      ensures n in errors <==> n in g && Errored(g, failing, n)
      ensures n in now.Keys - errors.Keys <==> n in g && ReachesCycle(g, n) && !Errored(g, failing, n)
    {
      FinalSplit(g, failing, now, done, failed, errors, n);
    }
  }

  lemma AfterWalkErrors<K(!new)>(g: Graph<K>, failing: set<K>, now: Graph<K>, done: set<K>, failed: set<K>,
                                 errors: map<K, NodeError<K>>)
    requires Closed(g) && Scheduled(g, failing, now, done, failed, {}) && Marked(now, failed, errors)
    ensures ErrorsExplained(g, failing, errors)
  {
    forall n
      ensures n in failed <==> RunsAndFails(g, failing, n)
    {
      FailedRan(g, failing, now, done, failed, n);
    }
    forall n | n in errors && n !in failed
      ensures SkippedByDependency(g, errors, n)
    {
      assert SkippedByDependency(now, errors, n);
    }
  }
}
