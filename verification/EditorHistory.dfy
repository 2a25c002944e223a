/** What becomes of each job and each request of the editor's queue over a whole run. */
module EditorHistory {
  import opened Wrappers
  import opened EditorQueue

  // ----- the life of a job -----

  /** Another operation has its turn at once if nothing is under way, and waits otherwise. */
  lemma OtherQueues(q: Queue)
    ensures var q' := Next(q, RunOther);
            && q'.jobs == q.jobs + [if q.runningWorkspaceOperation.None? then Other else WaitingOther]
            && q'.runningWorkspaceOperation ==
                 (if q.runningWorkspaceOperation.None? then Some(|q.jobs|) else q.runningWorkspaceOperation)
            && q'.pendingSets == q.pendingSets && q'.pendingDeletes == q.pendingDeletes && q'.files == q.files
            && q'.runningSetOperation == q.runningSetOperation
  {
    var q1 := q.(jobs := q.jobs + [WaitingOther]);
    assert q1.jobs[|q.jobs| := Other] == q.jobs + [Other];
  }

  /** The events that can do something to a job. */
  predicate IsEventOf(e: Event, t: nat) {
    e == Wake(t) || e == Return(t) || e == Clear(t)
  }

  lemma OnlyOwnEvents(q: Queue, e: Event, t: nat)
    requires t < |q.jobs|
    ensures t < |Next(q, e).jobs| && (Next(q, e).jobs[t] != q.jobs[t] ==> IsEventOf(e, t))
  {}

  /** An operation that is no drain is woken when nothing is under way, is then under way itself,
      and is settled when the workspace returns; no other event does anything to it. */
  lemma OtherLives(q: Queue, e: Event, t: nat)
    requires t < |q.jobs|
    ensures t < |Next(q, e).jobs|
    ensures q.jobs[t].WaitingOther? ==>
      if e == Wake(t) && q.runningWorkspaceOperation.None?
      then Next(q, e).jobs[t].Other? && Next(q, e).runningWorkspaceOperation == Some(t)
      else Next(q, e).jobs[t].WaitingOther?
    ensures q.jobs[t].Other? ==> Next(q, e).jobs[t] == if e == Return(t) then Settled else Other
    ensures q.jobs[t].Settled? ==> Next(q, e).jobs[t] == if e == Clear(t) then Cleared else Settled
    ensures q.jobs[t].Cleared? ==> Next(q, e).jobs[t].Cleared?
  {
    OnlyOwnEvents(q, e, t);
  }

  /** A drain takes all that is pending when it is woken, and after each batch; it is settled only
      when nothing is pending. */
  lemma DrainLives(q: Queue, e: Event, t: nat)
    requires t < |q.jobs| && LiveDrain(q.jobs[t])
    ensures t < |Next(q, e).jobs|
    ensures var job, job' := q.jobs[t], Next(q, e).jobs[t];
            match job
            case Removing(_, updates) =>
              if e != Return(t) then job' == job
              else if updates != map[] then job' == Setting(updates)
              else TakesPending(q, Next(q, e), job')
            case Setting(_) => if e == Return(t) then TakesPending(q, Next(q, e), job') else job' == job
            case _ =>
              if e == Wake(t) && q.runningWorkspaceOperation.None? then TakesPending(q, Next(q, e), job')
              else job' == job
  {
    OnlyOwnEvents(q, e, t);
  }

  predicate TakesPending(q: Queue, q': Queue, job: Job) {
    && !HasPendingUpdates(q')
    && if q.pendingDeletes != {} then job == Removing(q.pendingDeletes, q.pendingSets)
       else if q.pendingSets != map[] then job == Setting(q.pendingSets)
       else job.Settled?
  }

  // ----- an operation that is settled has run -----

  /** After the first `j` events the operation is under way. */
  ghost predicate UnderWayAt(q: Queue, events: seq<Event>, t: nat, j: int) {
    0 <= j <= |events| && t < |Run(q, events[..j]).jobs| && Run(q, events[..j]).jobs[t].Other?
  }

  ghost predicate WasUnderWay(q: Queue, events: seq<Event>, t: nat) {
    exists j :: UnderWayAt(q, events, t, j)
  }

  lemma UnderWayLater(q: Queue, events: seq<Event>, t: nat)
    requires events != [] && WasUnderWay(q, events[..|events| - 1], t)
    ensures WasUnderWay(q, events, t)
  {
    var rest := events[..|events| - 1];
    var j :| UnderWayAt(q, rest, t, j);
    assert rest[..j] == events[..j];
    assert UnderWayAt(q, events, t, j);
  }

  /** Whatever happens, an operation asked for waits, is under way, or has been. */
  lemma {:induction false} OperationRuns(q: Queue, events: seq<Event>, i: nat)
    requires i < |events| && events[i].RunOther?
    ensures var t, q' := |Run(q, events[..i]).jobs|, Run(q, events);
            t < |q'.jobs| && (q'.jobs[t].WaitingOther? || WasUnderWay(q, events, t))
    ensures var t, q' := |Run(q, events[..i]).jobs|, Run(q, events);
            q'.jobs[t].WaitingOther? || q'.jobs[t].Other? || Resolved(q'.jobs[t])
    decreases |events|
  {
    var n, t := |events| - 1, |Run(q, events[..i]).jobs|;
    var before := Run(q, events[..n]);
    assert events[..|events|] == events;
    if i == n {
      OtherQueues(before);
      assert UnderWayAt(q, events, t, |events|) || Run(q, events).jobs[t].WaitingOther?;
    } else {
      assert events[..n][..i] == events[..i];
      OperationRuns(q, events[..n], i);
      OtherLives(before, events[n], t);
      if before.jobs[t].WaitingOther? {
        assert Run(q, events).jobs[t].Other? ==> UnderWayAt(q, events, t, |events|);
      } else {
        UnderWayLater(q, events, t);
      }
    }
  }

  /** So a promise that is settled is that of an operation that ran. */
  lemma SettledMeansRun(q: Queue, events: seq<Event>, i: nat)
    requires i < |events| && events[i].RunOther?
    requires var t := |Run(q, events[..i]).jobs|;
             t < |Run(q, events).jobs| && Resolved(Run(q, events).jobs[t])
    ensures WasUnderWay(q, events, |Run(q, events[..i]).jobs|)
  {
    OperationRuns(q, events, i);
  }

  // ----- what is pending is what was asked for and not taken -----

  predicate AsksToSet(q: Queue, r: nat, f: File) {
    r < |q.requests| && r in q.waitingRequests && q.requests[r].SetRequest? && f in q.requests[r].files
  }

  predicate AsksToDelete(q: Queue, r: nat, f: File) {
    r < |q.requests| && r in q.waitingRequests && q.requests[r].DeleteRequest? && f in q.requests[r].names
  }

  /** The last waiting request to set the file. */
  ghost predicate LastToSet(q: Queue, r: nat, f: File) {
    AsksToSet(q, r, f) && forall r': nat :: r < r' ==> !AsksToSet(q, r', f)
  }

  ghost predicate SetIsAsked(q: Queue, f: File) {
    exists r: nat :: LastToSet(q, r, f) && f in q.pendingSets && q.pendingSets[f] == q.requests[r].files[f]
  }

  ghost predicate DeleteIsAsked(q: Queue, f: File) {
    exists r: nat :: AsksToDelete(q, r, f)
  }

  /** A set is pending if and only if a waiting request asks for it, with the content of the last
      such request, and a delete if and only if a waiting request asks for that. */
  ghost predicate PendingIsAsked(q: Queue) {
    && (forall r :: r in q.waitingRequests ==> r < |q.requests|)
    && (forall f {:trigger f in q.pendingSets} :: f in q.pendingSets ==> SetIsAsked(q, f))
    && (forall r: nat, f {:trigger AsksToSet(q, r, f)} :: AsksToSet(q, r, f) ==> f in q.pendingSets)
    && (forall f {:trigger f in q.pendingDeletes} :: f in q.pendingDeletes ==> DeleteIsAsked(q, f))
    && (forall r: nat, f {:trigger AsksToDelete(q, r, f)} :: AsksToDelete(q, r, f) ==> f in q.pendingDeletes)
  }

  /** All that is pending is taken, or the pending updates and the requests stay as they are. */
  predicate TakesOrKeeps(q: Queue, q': Queue) {
    && q'.requests == q.requests
    && ((q'.waitingRequests == {} && !HasPendingUpdates(q'))
        || (q'.waitingRequests == q.waitingRequests && q'.pendingSets == q.pendingSets
            && q'.pendingDeletes == q.pendingDeletes))
  }

  lemma StartedTakesOrKeeps(q: Queue, t: nat)
    requires t < |q.jobs|
    ensures TakesOrKeeps(q, Started(q, t))
  {}

  lemma TriggeredTakesOrKeeps(q: Queue)
    ensures TakesOrKeeps(q, Triggered(q))
  {
    if q.runningSetOperation.None? && q.runningWorkspaceOperation.None? {
      StartedTakesOrKeeps(q.(jobs := q.jobs + [WaitingDrain]), |q.jobs|);
    }
  }

  lemma StepTakesOrKeeps(q: Queue, e: Event)
    requires !IsCall(e)
    ensures TakesOrKeeps(q, Next(q, e))
  {
    match e
    case RunOther => OtherQueues(q);
    case Wake(t) =>
      if t < |q.jobs| {
        StartedTakesOrKeeps(q, t);
      }
    case Return(_) =>
    case Clear(_) =>
  }

  lemma StaysAsked(q: Queue, q': Queue)
    requires PendingIsAsked(q) && TakesOrKeeps(q, q')
    ensures PendingIsAsked(q')
  {
    if HasPendingUpdates(q') || q'.waitingRequests != {} {
      forall r: nat, f
        ensures AsksToSet(q', r, f) <==> AsksToSet(q, r, f)
        ensures AsksToDelete(q', r, f) <==> AsksToDelete(q, r, f)
      {}
      forall f | f in q'.pendingSets
        ensures SetIsAsked(q', f)
      {
        var r: nat :| LastToSet(q, r, f) && q.pendingSets[f] == q.requests[r].files[f];
        assert LastToSet(q', r, f);
      }
      forall f | f in q'.pendingDeletes
        ensures DeleteIsAsked(q', f)
      {
        var r: nat :| AsksToDelete(q, r, f);
        assert AsksToDelete(q', r, f);
      }
    }
  }

  /** One more request to set files waits, and its files are pending. */
  lemma SetAsked(q: Queue, q': Queue, files: map<File, Content>, promise: nat)
    requires PendingIsAsked(q)
    requires q' == q.(pendingSets := q.pendingSets + files, waitingRequests := q.waitingRequests + {|q.requests|},
                      requests := q.requests + [SetRequest(files, promise)])
    ensures PendingIsAsked(q')
  {
    var last := |q.requests|;
    forall r: nat, f
      ensures AsksToSet(q', r, f) <==> AsksToSet(q, r, f) || (r == last && f in files)
      ensures AsksToDelete(q', r, f) <==> AsksToDelete(q, r, f)
    {}
    forall f | f in q'.pendingSets
      ensures SetIsAsked(q', f)
    {
      if f in files {
        assert LastToSet(q', last, f);
      } else {
        var r: nat :| LastToSet(q, r, f) && q.pendingSets[f] == q.requests[r].files[f];
        assert LastToSet(q', r, f);
      }
    }
    forall f | f in q'.pendingDeletes
      ensures DeleteIsAsked(q', f)
    {
      var r: nat :| AsksToDelete(q, r, f);
      assert AsksToDelete(q', r, f);
    }
  }

  lemma DeleteAsked(q: Queue, q': Queue, names: set<File>, promise: nat)
    requires PendingIsAsked(q)
    requires q' == q.(pendingDeletes := q.pendingDeletes + names, waitingRequests := q.waitingRequests + {|q.requests|},
                      requests := q.requests + [DeleteRequest(names, promise)])
    ensures PendingIsAsked(q')
  {
    var last := |q.requests|;
    forall r: nat, f
      ensures AsksToSet(q', r, f) <==> AsksToSet(q, r, f)
      ensures AsksToDelete(q', r, f) <==> AsksToDelete(q, r, f) || (r == last && f in names)
    {}
    forall f | f in q'.pendingSets
      ensures SetIsAsked(q', f)
    {
      var r: nat :| LastToSet(q, r, f) && q.pendingSets[f] == q.requests[r].files[f];
      assert LastToSet(q', r, f);
    }
    forall f | f in q'.pendingDeletes
      ensures DeleteIsAsked(q', f)
    {
      if f in names {
        assert AsksToDelete(q', last, f);
      } else {
        var r: nat :| AsksToDelete(q, r, f);
        assert AsksToDelete(q', r, f);
      }
    }
  }

  lemma NextKeepsAsked(q: Queue, e: Event)
    requires PendingIsAsked(q)
    ensures PendingIsAsked(Next(q, e))
  {
    match e
    case SetFiles(files) =>
      var q1 := q.(pendingSets := q.pendingSets + files, waitingRequests := q.waitingRequests + {|q.requests|},
                   requests := q.requests + [SetRequest(files, PromiseOf(q))]);
      SetAsked(q, q1, files, PromiseOf(q));
      TriggeredTakesOrKeeps(q1);
      StaysAsked(q1, Triggered(q1));
    case DeleteFiles(names) =>
      var q1 := q.(pendingDeletes := q.pendingDeletes + names, waitingRequests := q.waitingRequests + {|q.requests|},
                   requests := q.requests + [DeleteRequest(names, PromiseOf(q))]);
      DeleteAsked(q, q1, names, PromiseOf(q));
      TriggeredTakesOrKeeps(q1);
      StaysAsked(q1, Triggered(q1));
    case _ =>
      StepTakesOrKeeps(q, e);
      StaysAsked(q, Next(q, e));
  }

  /** In every run, even when the queue is wedged, what is pending is what waits. */
  lemma {:induction false} PendingAsked(files: map<File, Content>, events: seq<Event>)
    ensures PendingIsAsked(Run(Initial(files), events))
    decreases |events|
  {
    if events != [] {
      PendingAsked(files, events[..|events| - 1]);
      NextKeepsAsked(Run(Initial(files), events[..|events| - 1]), events[|events| - 1]);
    }
  }
}
