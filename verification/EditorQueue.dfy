/** The editor's queue of file updates: `EditorWorkspace` of the language server. */
module EditorQueue {
  import opened Wrappers

  type File = string
  type Content = string

  // ----- the state between two pieces of code that run without waiting -----

  /** A call of `runOperationWithWorkspace`: waiting for its turn, waiting for the workspace
      inside its turn, settled, or settled and taken off the `runningWorkspaceOperation` field. */
  datatype Job =
    | WaitingDrain
    | WaitingOther
    | Removing(deletes: set<File>, updates: map<File, Content>)
    | Setting(updates: map<File, Content>)
    | Other
    | Settled
    | Cleared

  /** What a caller asked for, and the job whose end its promise waits for. */
  datatype Request =
    | SetRequest(files: map<File, Content>, promise: nat)
    | DeleteRequest(names: set<File>, promise: nat)

  /** The four fields of the source, its jobs, the files of the workspace, and the history of
      requests: those still pending, those a drain has taken, and those handed to the workspace. */
  datatype Queue = Queue(
    pendingSets: map<File, Content>,
    pendingDeletes: set<File>,
    runningSetOperation: Option<nat>,
    runningWorkspaceOperation: Option<nat>,
    jobs: seq<Job>,
    files: map<File, Content>,
    requests: seq<Request>,
    waitingRequests: set<nat>,
    taken: set<nat>,
    handed: set<nat>)

  function Initial(files: map<File, Content>): Queue {
    Queue(map[], {}, None, None, [], files, [], {}, {}, {})
  }

  predicate HasPendingUpdates(q: Queue) {
    q.pendingSets != map[] || q.pendingDeletes != {}
  }

  /** `runAggregatedSetOperation` up to its next wait, or to its end. */
  function RunAggregated(q: Queue, t: nat): Queue
    requires t < |q.jobs|
  {
    if !HasPendingUpdates(q) then
      q.(runningSetOperation := None, jobs := q.jobs[t := Settled],
         waitingRequests := {}, taken := {}, handed := q.handed + q.waitingRequests)
    else
      var job := if q.pendingDeletes != {} then Removing(q.pendingDeletes, q.pendingSets) else Setting(q.pendingSets);
      q.(pendingSets := map[], pendingDeletes := {}, jobs := q.jobs[t := job],
         waitingRequests := {}, taken := q.waitingRequests)
  }

  /** The waiting loop is over: the operation starts and takes the field. */
  function Started(q: Queue, t: nat): Queue
    requires t < |q.jobs|
  {
    var q' := if q.jobs[t].WaitingDrain? then RunAggregated(q, t) else q.(jobs := q.jobs[t := Other]);
    q'.(runningWorkspaceOperation := Some(t))
  }

  function Enqueued(q: Queue, job: Job): Queue {
    var q' := q.(jobs := q.jobs + [job]);
    if q.runningWorkspaceOperation.None? then Started(q', |q.jobs|) else q'
  }

  /** The field is assigned after the call, whatever the call did to it. */
  function Triggered(q: Queue): Queue {
    if q.runningSetOperation.None? then Enqueued(q, WaitingDrain).(runningSetOperation := Some(|q.jobs|)) else q
  }

  function PromiseOf(q: Queue): nat {
    if q.runningSetOperation.Some? then q.runningSetOperation.value else |q.jobs|
  }

  function AfterSet(q: Queue, files: map<File, Content>): Queue {
    var q' := q.(pendingSets := q.pendingSets + files, waitingRequests := q.waitingRequests + {|q.requests|},
                 requests := q.requests + [SetRequest(files, PromiseOf(q))]);
    Triggered(q')
  }

  function AfterDelete(q: Queue, names: set<File>): Queue {
    var q' := q.(pendingDeletes := q.pendingDeletes + names, waitingRequests := q.waitingRequests + {|q.requests|},
                 requests := q.requests + [DeleteRequest(names, PromiseOf(q))]);
    Triggered(q')
  }

  predicate Waiting(job: Job) {
    job.WaitingDrain? || job.WaitingOther?
  }

  /** A waiting job looks at the field again. */
  function AfterWake(q: Queue, t: nat): Queue {
    if t < |q.jobs| && Waiting(q.jobs[t]) && q.runningWorkspaceOperation.None? then Started(q, t) else q
  }

  /** The workspace call that job `t` waits for returns. */
  function AfterReturn(q: Queue, t: nat): Queue {
    if t >= |q.jobs| then q
    else
      match q.jobs[t]
      case Removing(deletes, updates) =>
        var q' := q.(files := q.files - deletes);
        if updates != map[] then q'.(jobs := q.jobs[t := Setting(updates)])
        else RunAggregated(q'.(handed := q.handed + q.taken), t)
      case Setting(updates) => RunAggregated(q.(files := q.files + updates, handed := q.handed + q.taken), t)
      case Other => q.(jobs := q.jobs[t := Settled])
      case _ => q
  }

  /** `waitForOperation` goes on after its operation has settled. */
  function AfterClear(q: Queue, t: nat): Queue {
    if t < |q.jobs| && q.jobs[t].Settled?
    then q.(jobs := q.jobs[t := Cleared], runningWorkspaceOperation := None)
    else q
  }

  datatype Event =
    | SetFiles(files: map<File, Content>)
    | DeleteFiles(names: set<File>)
    | RunOther
    | Wake(t: nat)
    | Return(t: nat)
    | Clear(t: nat)

  function Next(q: Queue, e: Event): Queue {
    match e
    case SetFiles(files) => AfterSet(q, files)
    case DeleteFiles(names) => AfterDelete(q, names)
    case RunOther => Enqueued(q, WaitingOther)
    case Wake(t) => AfterWake(q, t)
    case Return(t) => AfterReturn(q, t)
    case Clear(t) => AfterClear(q, t)
  }

  function Run(q: Queue, events: seq<Event>): Queue {
    if events == [] then q else Next(Run(q, events[..|events| - 1]), events[|events| - 1])
  }

  // ----- the class -----

  class EditorWorkspace {
    var pendingSets: map<File, Content>
    var pendingDeletes: set<File>
    var runningSetOperation: Option<nat>
    var runningWorkspaceOperation: Option<nat>
    var jobs: seq<Job>
    var files: map<File, Content>
    ghost var requests: seq<Request>
    ghost var waitingRequests: set<nat>
    ghost var taken: set<nat>
    ghost var handed: set<nat>

    ghost function State(): Queue
      reads this
    {
      Queue(pendingSets, pendingDeletes, runningSetOperation, runningWorkspaceOperation, jobs, files, requests,
            waitingRequests, taken, handed)
    }

    constructor (files: map<File, Content>)
      ensures State() == Initial(files)
    {
      this.pendingSets, this.pendingDeletes := map[], {};
      this.runningSetOperation, this.runningWorkspaceOperation := None, None;
      this.jobs, this.files := [], files;
      this.requests, this.waitingRequests, this.taken, this.handed := [], {}, {}, {};
    }

    method RunAggregatedSetOperation(t: nat)
      requires t < |jobs|
      modifies this
      ensures State() == RunAggregated(old(State()), t)
    {
      if pendingSets != map[] || pendingDeletes != {} {
        var opDeletes, opUpdates := pendingDeletes, pendingSets;
        pendingDeletes, pendingSets := {}, map[];
        if opDeletes != {} {
          jobs := jobs[t := Removing(opDeletes, opUpdates)];
        } else {
          jobs := jobs[t := Setting(opUpdates)];
        }
        taken := waitingRequests;
      } else {
        runningSetOperation := None;
        jobs := jobs[t := Settled];
        taken, handed := {}, handed + waitingRequests;
      }
      waitingRequests := {};
    }

    method StartOperation(t: nat)
      requires t < |jobs|
      modifies this
      ensures State() == Started(old(State()), t)
    {
      if jobs[t].WaitingDrain? {
        RunAggregatedSetOperation(t);
      } else {
        jobs := jobs[t := Other];
      }
      runningWorkspaceOperation := Some(t);
    }

    method RunOperationWithWorkspace(job: Job) returns (promise: nat)
      modifies this
      ensures State() == Enqueued(old(State()), job) && promise == old(|jobs|)
    {
      promise := |jobs|;
      jobs := jobs + [job];
      if runningWorkspaceOperation.None? {
        StartOperation(promise);
      }
    }

    method TriggerAggregatedSetOperation() returns (promise: nat)
      modifies this
      ensures State() == Triggered(old(State())) && promise == PromiseOf(old(State()))
    {
      if runningSetOperation.None? {
        promise := RunOperationWithWorkspace(WaitingDrain);
        runningSetOperation := Some(promise);
      } else {
        promise := runningSetOperation.value;
      }
    }

    method SetNaclFiles(naclFiles: map<File, Content>) returns (promise: nat)
      modifies this
      ensures State() == Next(old(State()), SetFiles(naclFiles))
      ensures promise == PromiseOf(old(State()))
    {
      pendingSets := pendingSets + naclFiles;
      waitingRequests := waitingRequests + {|requests|};
      requests := requests + [SetRequest(naclFiles, PromiseOf(State()))];
      promise := TriggerAggregatedSetOperation();
    }

    method RemoveNaclFiles(names: set<File>) returns (promise: nat)
      modifies this
      ensures State() == Next(old(State()), DeleteFiles(names))
      ensures promise == PromiseOf(old(State()))
    {
      pendingDeletes := pendingDeletes + names;
      waitingRequests := waitingRequests + {|requests|};
      requests := requests + [DeleteRequest(names, PromiseOf(State()))];
      promise := TriggerAggregatedSetOperation();
    }

    method ValidateFiles() returns (promise: nat)
      modifies this
      ensures State() == Next(old(State()), RunOther) && promise == old(|jobs|)
    {
      promise := RunOperationWithWorkspace(WaitingOther);
    }

    /** One more turn of the waiting loop. */
    method LookAgain(t: nat)
      modifies this
      ensures State() == Next(old(State()), Wake(t))
    {
      if t < |jobs| && Waiting(jobs[t]) && runningWorkspaceOperation.None? {
        StartOperation(t);
      }
    }

    method WorkspaceReturned(t: nat)
      modifies this
      ensures State() == Next(old(State()), Return(t))
    {
      if t >= |jobs| {
        return;
      }
      match jobs[t] {
        case Removing(deletes, updates) =>
          files := files - deletes;
          if updates != map[] {
            jobs := jobs[t := Setting(updates)];
          } else {
            handed := handed + taken;
            RunAggregatedSetOperation(t);
          }
        case Setting(updates) =>
          files := files + updates;
          handed := handed + taken;
          RunAggregatedSetOperation(t);
        case Other =>
          jobs := jobs[t := Settled];
        case _ =>
      }
    }

    method WaitForOperation(t: nat)
      modifies this
      ensures State() == Next(old(State()), Clear(t))
    {
      if t < |jobs| && jobs[t].Settled? {
        jobs := jobs[t := Cleared];
        runningWorkspaceOperation := None;
      }
    }
  }

  // ----- what every healthy run keeps -----

  /** Started, and not yet off the field. */
  predicate Busy(job: Job) {
    !Waiting(job) && !job.Cleared?
  }

  predicate LiveDrain(job: Job) {
    job.WaitingDrain? || job.Removing? || job.Setting?
  }

  predicate Resolved(job: Job) {
    job.Settled? || job.Cleared?
  }

  /** Exactly the job in the field is under way, so never two at once. */
  predicate OneOperation(q: Queue) {
    && (forall t {:trigger q.jobs[t]} :: 0 <= t < |q.jobs| ==>
          (Busy(q.jobs[t]) <==> q.runningWorkspaceOperation == Some(t)))
    && (q.runningWorkspaceOperation.Some? ==> q.runningWorkspaceOperation.value < |q.jobs|)
  }

  /** Exactly the drain in the field is live, so never two, and never a finished one. */
  predicate OneDrain(q: Queue) {
    && (forall t {:trigger q.jobs[t]} :: 0 <= t < |q.jobs| ==>
          (LiveDrain(q.jobs[t]) <==> q.runningSetOperation == Some(t)))
    && (q.runningSetOperation.Some? ==> q.runningSetOperation.value < |q.jobs|)
  }

  /** Pending updates, and callers waiting, imply a drain. */
  predicate Drained(q: Queue) {
    HasPendingUpdates(q) || q.waitingRequests != {} ==> q.runningSetOperation.Some?
  }

  /** The files of the request are covered by the given deletes and sets. */
  predicate Covered(request: Request, deletes: set<File>, sets: map<File, Content>) {
    match request
    case SetRequest(files, _) => files.Keys <= sets.Keys
    case DeleteRequest(names, _) => names <= deletes
  }

  /** A request is handed over, or else its promise is that of the live drain and its files are
      pending or in the drain's hands. */
  predicate Accounted(q: Queue, r: nat) {
    r < |q.requests| ==>
      || r in q.handed
      || (q.runningSetOperation == Some(q.requests[r].promise)
          && if r in q.taken then q.requests[r].promise < |q.jobs| && InHands(q, q.requests[r])
             else r in q.waitingRequests && Covered(q.requests[r], q.pendingDeletes, q.pendingSets))
  }

  /** The drain under way still has the request's files, or has deleted them. */
  predicate InHands(q: Queue, request: Request)
    requires request.promise < |q.jobs|
  {
    match q.jobs[request.promise]
    case Removing(deletes, updates) => Covered(request, deletes, updates)
    case Setting(updates) =>
      if request.SetRequest? then Covered(request, {}, updates) else request.names !! q.files.Keys
    case _ => false
  }

  ghost predicate AllAccounted(q: Queue) {
    forall r: nat {:trigger Accounted(q, r)} :: Accounted(q, r)
  }

  ghost predicate HistoryInRange(q: Queue) {
    && (forall r :: r in q.waitingRequests ==> r < |q.requests|)
    && (forall r :: r in q.taken ==> r < |q.requests|)
  }

  ghost predicate Healthy(q: Queue) {
    OneOperation(q) && OneDrain(q) && Drained(q) && AllAccounted(q) && HistoryInRange(q)
  }

  /** The one call that breaks the queue: no files, and nothing else going on. */
  predicate EmptyCallWhenIdle(q: Queue, e: Event) {
    && ((e.SetFiles? && e.files == map[]) || (e.DeleteFiles? && e.names == {}))
    && !HasPendingUpdates(q) && q.runningSetOperation.None? && q.runningWorkspaceOperation.None?
  }

  lemma InitialHealthy(files: map<File, Content>)
    ensures Healthy(Initial(files))
  {
    assert forall r: nat :: Accounted(Initial(files), r);
  }

  lemma FieldIsLive(q: Queue)
    requires OneDrain(q)
    ensures q.runningSetOperation.Some? ==> LiveDrain(q.jobs[q.runningSetOperation.value])
  {
    if q.runningSetOperation.Some? {
      var t := q.runningSetOperation.value;
      assert LiveDrain(q.jobs[t]) <==> q.runningSetOperation == Some(t);
    }
  }

  // ----- taking what is pending -----

  /** Every request not handed over is pending with the promise of drain `t`. */
  ghost predicate AllPending(q: Queue, t: nat) {
    && (forall r: nat {:trigger q.requests[r]} :: r < |q.requests| && r !in q.handed ==>
          r in q.waitingRequests && q.requests[r].promise == t
          && Covered(q.requests[r], q.pendingDeletes, q.pendingSets))
    && HistoryInRange(q)
  }

  predicate NoOtherDrain(q: Queue, t: nat) {
    forall u {:trigger q.jobs[u]} :: 0 <= u < |q.jobs| && u != t ==> !LiveDrain(q.jobs[u])
  }

  lemma RunAggregatedKeeps(q: Queue, t: nat)
    requires t < |q.jobs| && AllPending(q, t) && NoOtherDrain(q, t) && q.runningSetOperation == Some(t)
    ensures var q' := RunAggregated(q, t); OneDrain(q') && Drained(q') && AllAccounted(q') && HistoryInRange(q')
    ensures Busy(RunAggregated(q, t).jobs[t])
  {
    var q' := RunAggregated(q, t);
    assert q'.requests == q.requests;
    forall r | r in q'.taken
      ensures r < |q'.requests|
    {
      assert HistoryInRange(q) && r in q.waitingRequests;
    }
    forall r: nat | r < |q.requests|
      ensures Accounted(q', r)
    {
      assert r !in q.handed ==> q.requests[r].promise == t;
    }
  }

  lemma NewJob(q: Queue, job: Job)
    requires OneOperation(q) && OneDrain(q)
    ensures var q' := q.(jobs := q.jobs + [job]);
            forall t {:trigger q'.jobs[t]} :: 0 <= t < |q'.jobs| ==>
              q'.jobs[t] == if t < |q.jobs| then q.jobs[t] else job
  {}

  // ----- each event -----

  lemma SetKeepsHealthy(q: Queue, files: map<File, Content>)
    requires Healthy(q) && !EmptyCallWhenIdle(q, SetFiles(files))
    ensures Healthy(AfterSet(q, files))
  {
    var r, t := |q.requests|, PromiseOf(q);
    var q1 := q.(pendingSets := q.pendingSets + files, waitingRequests := q.waitingRequests + {r},
                 requests := q.requests + [SetRequest(files, t)]);
    RequestKeeps(q, q1, t);
  }

  lemma DeleteKeepsHealthy(q: Queue, names: set<File>)
    requires Healthy(q) && !EmptyCallWhenIdle(q, DeleteFiles(names))
    ensures Healthy(AfterDelete(q, names))
  {
    var r, t := |q.requests|, PromiseOf(q);
    var q1 := q.(pendingDeletes := q.pendingDeletes + names, waitingRequests := q.waitingRequests + {r},
                 requests := q.requests + [DeleteRequest(names, t)]);
    RequestKeeps(q, q1, t);
  }

  /** One more request is pending. */
  ghost predicate OneMorePending(q: Queue, q1: Queue, t: nat) {
    && |q1.requests| == |q.requests| + 1 && q1.requests[..|q.requests|] == q.requests
    && q1.requests[|q.requests|].promise == t
    && q1.waitingRequests == q.waitingRequests + {|q.requests|}
    && q1 == q.(pendingSets := q1.pendingSets, pendingDeletes := q1.pendingDeletes, requests := q1.requests,
                waitingRequests := q1.waitingRequests)
    && q.pendingSets.Keys <= q1.pendingSets.Keys && q.pendingDeletes <= q1.pendingDeletes
    && Covered(q1.requests[|q.requests|], q1.pendingDeletes, q1.pendingSets)
  }

  lemma RequestKeeps(q: Queue, q1: Queue, t: nat)
    requires Healthy(q) && OneMorePending(q, q1, t) && t == PromiseOf(q)
    requires q.runningSetOperation.None? && q.runningWorkspaceOperation.None? ==> HasPendingUpdates(q1)
    ensures Healthy(Triggered(q1))
  {
    if q.runningSetOperation.Some? {
      forall r: nat
        ensures Accounted(q1, r)
      {
        assert Accounted(q, r);
      }
    } else {
      FirstRequestKeeps(q, q1, t);
    }
  }

  lemma FirstRequestKeeps(q: Queue, q1: Queue, t: nat)
    requires Healthy(q) && OneMorePending(q, q1, t) && t == |q.jobs| && q.runningSetOperation.None?
    requires q.runningWorkspaceOperation.None? ==> HasPendingUpdates(q1)
    ensures Healthy(Triggered(q1))
  {
    var q2 := q1.(jobs := q1.jobs + [WaitingDrain], runningSetOperation := Some(t));
    NewJob(q, WaitingDrain);
    forall r: nat | r < |q2.requests| && r !in q2.handed
      ensures r == |q.requests|
    {
      assert Accounted(q, r);
    }
    assert AllPending(q2, t);
    if q.runningWorkspaceOperation.None? {
      RunAggregatedKeeps(q2, t);
      assert Triggered(q1) == RunAggregated(q2, t).(runningWorkspaceOperation := Some(t));
      SameAccounts(RunAggregated(q2, t), Triggered(q1));
    } else {
      assert Triggered(q1) == q2;
      forall r: nat
        ensures Accounted(q2, r)
      {
      }
    }
  }

  /** The accounts do not depend on the field of the running operation. */
  lemma SameAccounts(q: Queue, q': Queue)
    requires AllAccounted(q) && q' == q.(runningWorkspaceOperation := q'.runningWorkspaceOperation)
    ensures AllAccounted(q')
  {
    forall r: nat
      ensures Accounted(q', r)
    {
      assert Accounted(q, r);
    }
  }

  lemma OtherKeepsHealthy(q: Queue)
    requires Healthy(q)
    ensures Healthy(Enqueued(q, WaitingOther))
  {
    var q' := Enqueued(q, WaitingOther);
    NewJob(q, WaitingOther);
    forall r: nat
      ensures Accounted(q', r)
    {
      assert Accounted(q, r);
    }
  }

  /** A drain that is about to take what is pending has nothing in its hands. */
  lemma NothingInHands(q: Queue, t: nat)
    requires Healthy(q) && t < |q.jobs| && q.jobs[t].WaitingDrain?
    ensures AllPending(q, t) && NoOtherDrain(q, t) && q.runningSetOperation == Some(t)
  {
    forall r: nat | r < |q.requests| && r !in q.handed
      ensures r in q.waitingRequests && q.requests[r].promise == t
      ensures Covered(q.requests[r], q.pendingDeletes, q.pendingSets)
    {
      assert Accounted(q, r);
    }
  }

  lemma WakeKeepsHealthy(q: Queue, t: nat)
    requires Healthy(q)
    ensures Healthy(AfterWake(q, t))
  {
    var q' := AfterWake(q, t);
    if t < |q.jobs| && Waiting(q.jobs[t]) && q.runningWorkspaceOperation.None? {
      if q.jobs[t].WaitingDrain? {
        NothingInHands(q, t);
        RunAggregatedKeeps(q, t);
        SameAccounts(RunAggregated(q, t), q');
      } else {
        OtherJobKeeps(q, q');
      }
    }
  }

  /** When the batch is handed over, what is left is pending. */
  lemma HandedOver(q: Queue, t: nat, files: map<File, Content>)
    requires Healthy(q) && t < |q.jobs| && (q.jobs[t].Removing? || q.jobs[t].Setting?)
    ensures var q1 := q.(files := files, handed := q.handed + q.taken);
            AllPending(q1, t) && NoOtherDrain(q1, t) && q1.runningSetOperation == Some(t)
  {
    var q1 := q.(files := files, handed := q.handed + q.taken);
    forall r: nat | r < |q1.requests| && r !in q1.handed
      ensures r in q1.waitingRequests && q1.requests[r].promise == t
      ensures Covered(q1.requests[r], q1.pendingDeletes, q1.pendingSets)
    {
      assert Accounted(q, r);
    }
  }

  lemma ReturnKeepsHealthy(q: Queue, t: nat)
    requires Healthy(q)
    ensures Healthy(AfterReturn(q, t))
  {
    var q' := AfterReturn(q, t);
    if t < |q.jobs| {
      match q.jobs[t] {
        case Removing(deletes, updates) =>
          if updates != map[] {
            RemovedKeepsHealthy(q, t);
          } else {
            HandedOver(q, t, q.files - deletes);
            RunAggregatedKeeps(q.(files := q.files - deletes, handed := q.handed + q.taken), t);
          }
        case Setting(updates) =>
          HandedOver(q, t, q.files + updates);
          RunAggregatedKeeps(q.(files := q.files + updates, handed := q.handed + q.taken), t);
        case Other =>
          OtherJobKeeps(q, q');
        case _ =>
      }
    }
  }

  lemma RemovedKeepsHealthy(q: Queue, t: nat)
    requires Healthy(q) && t < |q.jobs| && q.jobs[t].Removing? && q.jobs[t].updates != map[]
    ensures Healthy(AfterReturn(q, t))
  {
    var q' := AfterReturn(q, t);
    forall r: nat
      ensures Accounted(q', r)
    {
      assert Accounted(q, r);
    }
  }

  /** Changing a job that is no live drain changes no account. */
  lemma OtherJobKeeps(q: Queue, q': Queue)
    requires AllAccounted(q) && OneDrain(q) && |q'.jobs| == |q.jobs|
    requires q' == q.(jobs := q'.jobs, runningWorkspaceOperation := q'.runningWorkspaceOperation)
    requires forall t :: 0 <= t < |q.jobs| && LiveDrain(q.jobs[t]) ==> q'.jobs[t] == q.jobs[t]
    ensures AllAccounted(q') && q'.taken == q.taken
  {
    FieldIsLive(q);
    forall r: nat
      ensures Accounted(q', r)
    {
      assert Accounted(q, r);
    }
  }

  lemma ClearKeepsHealthy(q: Queue, t: nat)
    requires Healthy(q)
    ensures Healthy(AfterClear(q, t))
  {
    OtherJobKeeps(q, AfterClear(q, t));
  }

  lemma NextKeepsHealthy(q: Queue, e: Event)
    requires Healthy(q) && !EmptyCallWhenIdle(q, e)
    ensures Healthy(Next(q, e))
  {
    match e
    case SetFiles(files) => SetKeepsHealthy(q, files);
    case DeleteFiles(names) => DeleteKeepsHealthy(q, names);
    case RunOther => OtherKeepsHealthy(q);
    case Wake(t) => WakeKeepsHealthy(q, t);
    case Return(t) => ReturnKeepsHealthy(q, t);
    case Clear(t) => ClearKeepsHealthy(q, t);
  }

  // ----- what callers may rely on -----

  /** A promise that is settled means the files were handed to the workspace. */
  lemma SettledMeansHanded(q: Queue, r: nat)
    requires Healthy(q) && r < |q.requests| && q.requests[r].promise < |q.jobs|
    requires Resolved(q.jobs[q.requests[r].promise])
    ensures r in q.handed
  {
    assert Accounted(q, r);
  }

  /** The updates of the drain under way. */
  function UpdatesInHand(q: Queue): map<File, Content> {
    if q.runningSetOperation.None? || q.runningSetOperation.value >= |q.jobs| then map[]
    else
      match q.jobs[q.runningSetOperation.value]
      case Removing(_, updates) => updates
      case Setting(updates) => updates
      case _ => map[]
  }

  /** The workspace has the files as they were in the updates, or no longer has them unless the
      updates set them again. */
  predicate Arrived(request: Request, updates: map<File, Content>, files: map<File, Content>) {
    match request
    case SetRequest(sets, _) => forall f :: f in sets ==> f in updates && f in files && files[f] == updates[f]
    case DeleteRequest(names, _) => forall f :: f in names && f in files ==> f in updates && files[f] == updates[f]
  }

  /** And when a request is handed over, the workspace has what the updates it was taken with
      say of its files. */
  lemma HandedMeansArrived(q: Queue, e: Event, r: nat)
    requires Healthy(q) && r < |q.requests|
    requires r !in q.handed && r in Next(q, e).handed
    ensures Arrived(q.requests[r], UpdatesInHand(q), Next(q, e).files)
  {
    assert Accounted(q, r);
    FieldIsLive(q);
    match e
    case SetFiles(_) =>
    case DeleteFiles(_) =>
    case RunOther =>
    case Wake(t) =>
    case Return(t) =>
      assert t < |q.jobs|;
      if q.jobs[t].Removing? || q.jobs[t].Setting? {
        HandedMeansReturned(q, t, r);
      }
    case Clear(t) =>
  }

  lemma HandedMeansReturned(q: Queue, t: nat, r: nat)
    requires Healthy(q) && r < |q.requests|
    requires t < |q.jobs| && (q.jobs[t].Removing? || q.jobs[t].Setting?)
    requires r !in q.handed && r in AfterReturn(q, t).handed
    ensures Arrived(q.requests[r], UpdatesInHand(q), AfterReturn(q, t).files)
  {
    assert Accounted(q, r);
    assert q.requests[r].promise == t;
  }

  /** Two operations are never under way at once. */
  lemma NeverTwoOperations(q: Queue, t: nat, u: nat)
    requires Healthy(q) && t < |q.jobs| && u < |q.jobs| && Busy(q.jobs[t]) && Busy(q.jobs[u])
    ensures t == u
  {
    assert q.runningWorkspaceOperation == Some(t);
  }

  /** While updates are pending, the promise in the field is that of a live drain. */
  lemma PendingHasDrain(q: Queue)
    requires Healthy(q) && HasPendingUpdates(q)
    ensures q.runningSetOperation.Some? && q.runningSetOperation.value < |q.jobs|
    ensures LiveDrain(q.jobs[q.runningSetOperation.value])
  {
    FieldIsLive(q);
  }

  // ----- the call that breaks the queue, and only that one -----

  /** The field holds the promise of a drain that is over, and nothing will ever clear it. */
  predicate Wedged(q: Queue) {
    && q.runningSetOperation.Some? && q.runningSetOperation.value < |q.jobs|
    && Resolved(q.jobs[q.runningSetOperation.value])
    && forall t {:trigger q.jobs[t]} :: 0 <= t < |q.jobs| ==> !LiveDrain(q.jobs[t])
  }

  lemma EmptyCallWedges(q: Queue, e: Event)
    requires Healthy(q) && EmptyCallWhenIdle(q, e)
    ensures Wedged(Next(q, e))
  {
    NewJob(q, WaitingDrain);
  }

  /** From then on no update reaches the workspace, and every later one stays pending. */
  lemma WedgedForever(q: Queue, e: Event)
    requires Wedged(q)
    ensures Wedged(Next(q, e)) && Next(q, e).files == q.files
    ensures q.pendingSets.Keys <= Next(q, e).pendingSets.Keys && q.pendingDeletes <= Next(q, e).pendingDeletes
    ensures e.SetFiles? ==> e.files.Keys <= Next(q, e).pendingSets.Keys
    ensures e.DeleteFiles? ==> e.names <= Next(q, e).pendingDeletes
  {}

  lemma NotBoth(q: Queue)
    ensures !(Healthy(q) && Wedged(q))
  {
    if Healthy(q) {
      FieldIsLive(q);
    }
  }

  ghost predicate BadCallAt(files: map<File, Content>, events: seq<Event>, i: nat) {
    i < |events| && EmptyCallWhenIdle(Run(Initial(files), events[..i]), events[i])
  }

  ghost predicate NoEmptyCallWhenIdle(files: map<File, Content>, events: seq<Event>) {
    forall i: nat {:trigger BadCallAt(files, events, i)} :: !BadCallAt(files, events, i)
  }

  /** A run stays healthy if and only if no call without files comes while nothing goes on;
      otherwise it ends wedged. */
  lemma {:induction false} HealthyUnlessEmptyCall(files: map<File, Content>, events: seq<Event>)
    ensures Healthy(Run(Initial(files), events)) <==> NoEmptyCallWhenIdle(files, events)
    ensures Wedged(Run(Initial(files), events)) <==> !NoEmptyCallWhenIdle(files, events)
    decreases |events|
  {
    var q := Run(Initial(files), events);
    NotBoth(q);
    if events == [] {
      InitialHealthy(files);
      assert forall i: nat :: !BadCallAt(files, events, i);
    } else {
      var n := |events| - 1;
      var before := Run(Initial(files), events[..n]);
      HealthyUnlessEmptyCall(files, events[..n]);
      PrefixCalls(files, events);
      if !NoEmptyCallWhenIdle(files, events[..n]) {
        WedgedForever(before, events[n]);
      } else if EmptyCallWhenIdle(before, events[n]) {
        EmptyCallWedges(before, events[n]);
      } else {
        NextKeepsHealthy(before, events[n]);
      }
    }
  }

  lemma BadCallInPrefix(files: map<File, Content>, events: seq<Event>, i: nat)
    requires i < |events| - 1
    ensures BadCallAt(files, events[..|events| - 1], i) <==> BadCallAt(files, events, i)
  {
    var rest := events[..|events| - 1];
    assert rest[..i] == events[..i] && rest[i] == events[i];
  }

  lemma PrefixCalls(files: map<File, Content>, events: seq<Event>)
    requires events != []
    ensures NoEmptyCallWhenIdle(files, events) <==>
      NoEmptyCallWhenIdle(files, events[..|events| - 1]) && !BadCallAt(files, events, |events| - 1)
  {
    var rest := events[..|events| - 1];
    forall i: nat
      ensures BadCallAt(files, events, i) <==> BadCallAt(files, rest, i) || (i == |rest| && BadCallAt(files, events, i))
    {
      if i < |rest| {
        BadCallInPrefix(files, events, i);
      }
    }
  }

  // ----- what the workspace will hold -----

  function ContentOf(files: map<File, Content>, f: File): Option<Content> {
    if f in files then Some(files[f]) else None
  }

  /** The file once everything pending and under way is done: deletes before sets. */
  function Destined(q: Queue, f: File): Option<Content> {
    if f in q.pendingSets then Some(q.pendingSets[f])
    else if f in q.pendingDeletes then None
    else UnderWay(q, f)
  }

  function UnderWay(q: Queue, f: File): Option<Content> {
    if q.runningSetOperation.None? || q.runningSetOperation.value >= |q.jobs| then ContentOf(q.files, f)
    else
      match q.jobs[q.runningSetOperation.value]
      case Removing(deletes, updates) =>
        if f in updates then Some(updates[f]) else if f in deletes then None else ContentOf(q.files, f)
      case Setting(updates) => if f in updates then Some(updates[f]) else ContentOf(q.files, f)
      case _ => ContentOf(q.files, f)
  }

  predicate IsCall(e: Event) {
    e.SetFiles? || e.DeleteFiles?
  }

  lemma RunAggregatedDestined(q: Queue, t: nat, f: File)
    requires t < |q.jobs| && q.runningSetOperation == Some(t)
    ensures Destined(RunAggregated(q, t), f) ==
      if f in q.pendingSets then Some(q.pendingSets[f])
      else if f in q.pendingDeletes then None
      else ContentOf(q.files, f)
  {}

  /** Nothing but a call changes what a file is destined to be. */
  lemma InternalKeepsDestined(q: Queue, e: Event, f: File)
    requires Healthy(q) && !IsCall(e)
    ensures Destined(Next(q, e), f) == Destined(q, f)
  {
    match e
    case RunOther =>
      NewJob(q, WaitingOther);
    case Wake(t) =>
      if t < |q.jobs| && q.jobs[t].WaitingDrain? && q.runningWorkspaceOperation.None? {
        RunAggregatedDestined(q, t, f);
      }
    case Return(t) =>
      if t < |q.jobs| && q.jobs[t].Removing? && q.jobs[t].updates == map[] {
        var q1 := q.(files := q.files - q.jobs[t].deletes, handed := q.handed + q.taken);
        RunAggregatedDestined(q1, t, f);
      } else if t < |q.jobs| && q.jobs[t].Setting? {
        var q1 := q.(files := q.files + q.jobs[t].updates, handed := q.handed + q.taken);
        RunAggregatedDestined(q1, t, f);
      }
    case Clear(t) =>
  }

  lemma TriggeredDestined(q: Queue, q1: Queue, t: nat, f: File)
    requires Healthy(q) && OneMorePending(q, q1, t) && t == PromiseOf(q)
    requires q.runningSetOperation.None? && q.runningWorkspaceOperation.None? ==> HasPendingUpdates(q1)
    ensures Destined(Triggered(q1), f) == Destined(q1, f)
  {
    if q.runningSetOperation.None? {
      NewJob(q, WaitingDrain);
      if q.runningWorkspaceOperation.None? {
        RunAggregatedDestined(q1.(jobs := q1.jobs + [WaitingDrain], runningSetOperation := Some(t)), t, f);
      }
    }
  }

  /** A file set is destined to be what it is set to, whatever was asked before. */
  lemma SetDestines(q: Queue, files: map<File, Content>, f: File)
    requires Healthy(q) && !EmptyCallWhenIdle(q, SetFiles(files))
    ensures Destined(AfterSet(q, files), f) == if f in files then Some(files[f]) else Destined(q, f)
  {
    var q1 := q.(pendingSets := q.pendingSets + files, waitingRequests := q.waitingRequests + {|q.requests|},
                 requests := q.requests + [SetRequest(files, PromiseOf(q))]);
    TriggeredDestined(q, q1, PromiseOf(q), f);
  }

  /** A file deleted is destined to be gone if and only if no set of it is pending: as deletes
      go first, a pending set outlives a later delete. */
  lemma DeleteDestines(q: Queue, names: set<File>, f: File)
    requires Healthy(q) && !EmptyCallWhenIdle(q, DeleteFiles(names))
    ensures f in names ==> (Destined(AfterDelete(q, names), f).None? <==> f !in q.pendingSets)
    ensures f !in names || f in q.pendingSets ==> Destined(AfterDelete(q, names), f) == Destined(q, f)
  {
    var q1 := q.(pendingDeletes := q.pendingDeletes + names, waitingRequests := q.waitingRequests + {|q.requests|},
                 requests := q.requests + [DeleteRequest(names, PromiseOf(q))]);
    TriggeredDestined(q, q1, PromiseOf(q), f);
  }

  /** What the calls of a run ask of a file, a delete counting only if no set was pending. */
  function Asked(files: map<File, Content>, events: seq<Event>, f: File): Option<Content> {
    if events == [] then ContentOf(files, f)
    else
      var n := |events| - 1;
      var before := Asked(files, events[..n], f);
      match events[n]
      case SetFiles(set') => if f in set' then Some(set'[f]) else before
      case DeleteFiles(names) =>
        if f in names && f !in Run(Initial(files), events[..n]).pendingSets then None else before
      case _ => before
  }

  lemma {:induction false} DestinedIsAsked(files: map<File, Content>, events: seq<Event>, f: File)
    requires NoEmptyCallWhenIdle(files, events)
    ensures Destined(Run(Initial(files), events), f) == Asked(files, events, f)
    decreases |events|
  {
    if events != [] {
      var n := |events| - 1;
      PrefixCalls(files, events);
      HealthyUnlessEmptyCall(files, events[..n]);
      DestinedIsAsked(files, events[..n], f);
      var q := Run(Initial(files), events[..n]);
      match events[n] {
        case SetFiles(set') => SetDestines(q, set', f);
        case DeleteFiles(names) => DeleteDestines(q, names, f);
        case _ => InternalKeepsDestined(q, events[n], f);
      }
    }
  }

  // ----- quiet -----

  /** Every operation is over and off the field. */
  predicate Quiet(q: Queue) {
    forall t {:trigger q.jobs[t]} :: 0 <= t < |q.jobs| ==> q.jobs[t].Cleared?
  }

  /** When all is quiet, nothing is pending, everything was handed over, and the workspace
      holds what the calls asked for. */
  lemma QuietMeansDone(files: map<File, Content>, events: seq<Event>, f: File)
    requires NoEmptyCallWhenIdle(files, events) && Quiet(Run(Initial(files), events))
    ensures var q := Run(Initial(files), events);
            && !HasPendingUpdates(q)
            && (forall r: nat :: r < |q.requests| ==> r in q.handed)
            && ContentOf(q.files, f) == Asked(files, events, f)
  {
    var q := Run(Initial(files), events);
    HealthyUnlessEmptyCall(files, events);
    DestinedIsAsked(files, events, f);
    FieldIsLive(q);
    forall r: nat | r < |q.requests|
      ensures r in q.handed
    {
      assert Accounted(q, r);
    }
  }

  /** The last content a run sets the file to, if it does. */
  function LastSet(events: seq<Event>, f: File): Option<Content> {
    if events == [] then None
    else
      var e := events[|events| - 1];
      if e.SetFiles? && f in e.files then Some(e.files[f]) else LastSet(events[..|events| - 1], f)
  }

  predicate NeverDeleted(events: seq<Event>, f: File) {
    forall i :: 0 <= i < |events| && events[i].DeleteFiles? ==> f !in events[i].names
  }

  lemma {:induction false} OnlySetAsked(files: map<File, Content>, events: seq<Event>, f: File)
    requires NeverDeleted(events, f)
    ensures Asked(files, events, f) == if LastSet(events, f).Some? then LastSet(events, f) else ContentOf(files, f)
    decreases |events|
  {
    if events != [] {
      OnlySetAsked(files, events[..|events| - 1], f);
    }
  }

  /** A file that is only ever set ends with its last content. */
  lemma LastSetWins(files: map<File, Content>, events: seq<Event>, f: File)
    requires NoEmptyCallWhenIdle(files, events) && Quiet(Run(Initial(files), events))
    requires NeverDeleted(events, f) && LastSet(events, f).Some?
    ensures ContentOf(Run(Initial(files), events).files, f) == LastSet(events, f)
  {
    QuietMeansDone(files, events, f);
    OnlySetAsked(files, events, f);
  }

  // ----- and it gets quiet -----

  function Weight(job: Job): nat {
    match job
    case WaitingDrain => 4
    case WaitingOther => 3
    case Removing(_, _) => 3
    case Setting(_) => 2
    case Other => 2
    case Settled => 1
    case Cleared => 0
  }

  function TotalWeight(jobs: seq<Job>): nat {
    if jobs == [] then 0 else TotalWeight(jobs[..|jobs| - 1]) + Weight(jobs[|jobs| - 1])
  }

  /** How many steps the queue has left without new calls, at most. */
  function StepsLeft(q: Queue): nat {
    TotalWeight(q.jobs) + if HasPendingUpdates(q) then 3 else 0
  }

  lemma {:induction false} WeightOfChanged(jobs: seq<Job>, t: nat, job: Job)
    requires t < |jobs|
    ensures TotalWeight(jobs[t := job]) == TotalWeight(jobs) - Weight(jobs[t]) + Weight(job)
    decreases |jobs|
  {
    var n := |jobs| - 1;
    if t == n {
      assert jobs[t := job][..n] == jobs[..n];
    } else {
      assert jobs[t := job][..n] == jobs[..n][t := job];
      WeightOfChanged(jobs[..n], t, job);
    }
  }

  /** Without new operations, every step that does anything brings the queue nearer its end. */
  lemma StepsRunOut(q: Queue, e: Event)
    requires e.Wake? || e.Return? || e.Clear?
    ensures Next(q, e) == q || StepsLeft(Next(q, e)) < StepsLeft(q)
  {
    match e
    case Wake(t) =>
      if t < |q.jobs| && q.jobs[t].WaitingDrain? && q.runningWorkspaceOperation.None? {
        RunAggregatedSteps(q, t);
      } else if t < |q.jobs| {
        WeightOfChanged(q.jobs, t, Other);
      }
    case Return(t) =>
      if t < |q.jobs| {
        ReturnSteps(q, t);
      }
    case Clear(t) =>
      if t < |q.jobs| {
        WeightOfChanged(q.jobs, t, Cleared);
      }
  }

  /** Taking what is pending, or finishing, leaves a drain at most as much to do as was pending,
      and the one step of taking itself off the field. */
  lemma RunAggregatedSteps(q: Queue, t: nat)
    requires t < |q.jobs|
    ensures StepsLeft(RunAggregated(q, t)) <= StepsLeft(q) - Weight(q.jobs[t]) + 1
  {
    WeightOfChanged(q.jobs, t, RunAggregated(q, t).jobs[t]);
  }

  lemma ReturnSteps(q: Queue, t: nat)
    requires t < |q.jobs|
    ensures AfterReturn(q, t) == q || StepsLeft(AfterReturn(q, t)) < StepsLeft(q)
  {
    match q.jobs[t]
    case Removing(deletes, updates) =>
      if updates != map[] {
        WeightOfChanged(q.jobs, t, Setting(updates));
      } else {
        RunAggregatedSteps(q.(files := q.files - deletes, handed := q.handed + q.taken), t);
      }
    case Setting(updates) =>
      RunAggregatedSteps(q.(files := q.files + updates, handed := q.handed + q.taken), t);
    case Other => WeightOfChanged(q.jobs, t, Settled);
    case _ =>
  }

  /** And as long as it is not quiet there is such a step. */
  lemma NeverStuck(q: Queue) returns (e: Event)
    requires Healthy(q) && !Quiet(q)
    ensures (e.Wake? || e.Return? || e.Clear?) && Next(q, e) != q
  {
    if q.runningWorkspaceOperation.Some? {
      var t := q.runningWorkspaceOperation.value;
      assert Busy(q.jobs[t]);
      if q.jobs[t].Settled? {
        e := Clear(t);
      } else {
        e := Return(t);
      }
      StepChangesJob(q, e, t);
    } else {
      var t :| 0 <= t < |q.jobs| && !q.jobs[t].Cleared?;
      assert !Busy(q.jobs[t]);
      e := Wake(t);
      StepChangesJob(q, e, t);
    }
  }

  lemma StepChangesJob(q: Queue, e: Event, t: nat)
    requires t < |q.jobs|
    requires || (e == Clear(t) && q.jobs[t].Settled?)
             || (e == Return(t) && (q.jobs[t].Removing? || q.jobs[t].Setting? || q.jobs[t].Other?))
             || (e == Wake(t) && Waiting(q.jobs[t]) && q.runningWorkspaceOperation.None?)
    ensures Next(q, e) != q
  {
    StepsRunOut(q, e);
  }
}
