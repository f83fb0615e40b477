/** The hardware job executor: submitters, cancellers, pollers, one worker and the owner's start and shutdown,
    interleaved one atomic section at a time. */
module Executor {
  import opened Bytes

  type Value = string

  datatype JobState = Queued | Running | Complete | Failed | Cancelled

  /** How far its submit call has got. */
  datatype Phase = Checked | Registered | Enqueued

  /** A job, with two observations the code does not keep: whether the task body started, what it returned. */
  datatype Job = Job(phase: Phase, state: JobState, progress: Option<Value>, result: Option<Value>,
                     error: Option<string>,
                     cancel: bool, started: bool, returned: Option<Value>)
  {
    predicate Terminal() { state in {Complete, Failed, Cancelled} }
  }

  const NEW_JOB := Job(Checked, Queued, None, None, None, false, false, None)

  /** The worker between two of its atomic sections. */
  datatype Worker =
    | NoWorker
    | Idle
    | Got(id: nat)
    | Cancelling(id: nat)
    | Starting(id: nat)
    | Opening(id: nat)
    | InTask(id: nat)
    | Returned(id: nat, value: Value)
    | Finishing(id: nat, value: Value)
    | Published(id: nat)
    | Threw(id: nat, message: string)
    | Reported(id: nat)
    | Exited
  {
    predicate Busy() { !NoWorker? && !Idle? && !Exited? }
  }

  /** The owner between two sections of start and shutdown. */
  datatype Owner = Down | Cleared | Spawned | Up | Stopping | Joined | Lowered

  /** `enqueued`, `taken`, `ran` and `stopAt` record the past: every job ever queued, popped and started,
      and how many had been queued when the stop flag was last set. */
  datatype Sys = Sys(jobs: seq<Job>, queue: seq<nat>, worker: Worker, owner: Owner, running: bool, stop: bool,
                     open: bool,
                     enqueued: seq<nat>, taken: seq<nat>, ran: seq<nat>, stopAt: nat)

  const START := Sys([], [], NoWorker, Down, false, false, false, [], [], [], 0)

  datatype Event =
    // the owner
    | OpenFirst(opens: bool) | ClearStop | Spawn | GoUp | SetStop | Join | Lower | Close
    // any client
    | Check | Register(id: nat) | Enqueue(id: nat) | Cancel(id: nat)
    // the worker
    | Take | IdleClose | Exit | CheckBefore | SetRunning | Open(opens: bool) | Progress(value: Value)
    | Return(value: Value) | Throw(message: string) | CheckAfter | SetResult | SetComplete | SetError | SetFailed
    | SetCancelled

  predicate Enabled(s: Sys, e: Event) {
    match e
    case OpenFirst(_) => s.owner == Down
    case ClearStop => s.owner == Down
    case Spawn => s.owner == Cleared
    case GoUp => s.owner == Spawned
    case SetStop => s.owner == Up
    case Join => s.owner == Stopping && s.worker == Exited
    case Lower => s.owner == Joined
    case Close => s.owner == Lowered
    case Check => s.running
    case Register(id) => id < |s.jobs| && s.jobs[id].phase == Checked
    case Enqueue(id) => id < |s.jobs| && s.jobs[id].phase == Registered
    case Cancel(id) => id < |s.jobs| && s.jobs[id].phase != Checked
    case Take => s.worker == Idle && s.queue != []
    case IdleClose => s.worker == Idle && s.queue == [] && !s.stop
    case Exit => s.worker == Idle && s.queue == [] && s.stop
    case CheckBefore => s.worker.Got?
    case SetRunning => s.worker.Starting?
    case Open(_) => s.worker.Opening?
    case Progress(_) => s.worker.InTask?
    case Return(_) => s.worker.InTask?
    case Throw(_) => s.worker.InTask?
    case CheckAfter => s.worker.Returned?
    case SetResult => s.worker.Finishing?
    case SetComplete => s.worker.Published?
    case SetError => s.worker.Threw?
    case SetFailed => s.worker.Reported?
    case SetCancelled => s.worker.Cancelling?
  }

  /** Every id in use names a job. */
  ghost predicate WellTyped(s: Sys) {
    (s.worker.Busy() ==> s.worker.id < |s.jobs|) && forall i :: 0 <= i < |s.queue| ==> s.queue[i] < |s.jobs|
  }

  function SetJob(s: Sys, id: nat, j: Job, w: Worker): Sys
    requires id < |s.jobs|
  {
    s.(jobs := s.jobs[id := j], worker := w)
  }

  function Next(s: Sys, e: Event): Sys
    requires WellTyped(s) && Enabled(s, e)
  {
    match e
    case OpenFirst(opens) => s.(open := s.open || opens)
    case ClearStop => s.(stop := false, owner := Cleared)
    case Spawn => s.(worker := Idle, owner := Spawned)
    case GoUp => s.(running := true, owner := Up)
    case SetStop => s.(stop := true, owner := Stopping, stopAt := |s.enqueued|)
    case Join => s.(owner := Joined)
    case Lower => s.(running := false, owner := Lowered)
    case Close => s.(open := false, owner := Down)
    case Check => s.(jobs := s.jobs + [NEW_JOB])
    case Register(id) => s.(jobs := s.jobs[id := s.jobs[id].(phase := Registered)])
    case Enqueue(id) =>
      s.(jobs := s.jobs[id := s.jobs[id].(phase := Enqueued)], queue := s.queue + [id], enqueued := s.enqueued + [id])
    case Cancel(id) => s.(jobs := s.jobs[id := s.jobs[id].(cancel := true)])
    case Take => s.(queue := s.queue[1..], taken := s.taken + [s.queue[0]], worker := Got(s.queue[0]))
    case IdleClose => s.(open := false)
    case Exit => s.(worker := Exited)
    case CheckBefore =>
      s.(worker := if s.jobs[s.worker.id].cancel then Cancelling(s.worker.id) else Starting(s.worker.id))
    case SetRunning => SetJob(s, s.worker.id, s.jobs[s.worker.id].(state := Running), Opening(s.worker.id))
    case Open(opens) =>
      if s.open || opens then
        SetJob(s, s.worker.id, s.jobs[s.worker.id].(started := true), InTask(s.worker.id))
          .(open := true, ran := s.ran + [s.worker.id])
      else s.(worker := Threw(s.worker.id, "hardware open failed"))
    case Progress(v) => SetJob(s, s.worker.id, s.jobs[s.worker.id].(progress := Some(v)), s.worker)
    case Return(v) => SetJob(s, s.worker.id, s.jobs[s.worker.id].(returned := Some(v)), Returned(s.worker.id, v))
    case Throw(m) => s.(worker := Threw(s.worker.id, m))
    case CheckAfter =>
      s.(worker := if s.jobs[s.worker.id].cancel then Cancelling(s.worker.id)
                   else Finishing(s.worker.id, s.worker.value))
    case SetResult =>
      SetJob(s, s.worker.id, s.jobs[s.worker.id].(result := Some(s.worker.value)), Published(s.worker.id))
    case SetComplete => SetJob(s, s.worker.id, s.jobs[s.worker.id].(state := Complete), Idle)
    case SetError =>
      SetJob(s, s.worker.id, s.jobs[s.worker.id].(error := Some(s.worker.message)), Reported(s.worker.id))
    case SetFailed => SetJob(s, s.worker.id, s.jobs[s.worker.id].(state := Failed), Idle)
    case SetCancelled => SetJob(s, s.worker.id, s.jobs[s.worker.id].(state := Cancelled), Idle)
  }

  // ------------------------------------------------------------ invariants

  /** Not touched by the worker yet. */
  predicate Fresh(j: Job) {
    j.state == Queued && j.result.None? && j.error.None? && !j.started && j.returned.None?
  }

  /** The current job, as far as the worker has got with it. */
  predicate InProgress(j: Job, w: Worker)
    requires w.Busy()
  {
    match w
    case Got(_) => Fresh(j)
    case Starting(_) => Fresh(j)
    case Cancelling(_) =>
      && j.cancel && j.result.None? && j.error.None?
      && (Fresh(j) || (j.state == Running && j.started && j.returned.Some?))
    case Opening(_) => j.state == Running && j.result.None? && j.error.None? && !j.started && j.returned.None?
    case InTask(_) => j.state == Running && j.result.None? && j.error.None? && j.started && j.returned.None?
    case Returned(_, v) => j.state == Running && j.result.None? && j.error.None? && j.started && j.returned == Some(v)
    case Finishing(_, v) => j.state == Running && j.result.None? && j.error.None? && j.started && j.returned == Some(v)
    case Published(_) => j.state == Running && j.result == j.returned && j.result.Some? && j.error.None? && j.started
    case Threw(_, _) => j.state == Running && j.result.None? && j.error.None? && j.returned.None?
    case Reported(_) => j.state == Running && j.result.None? && j.error.Some? && j.returned.None?
  }

  /** What a finished job shows. */
  predicate Finished(j: Job) {
    match j.state
    case Complete => j.started && j.returned.Some? && j.result == j.returned && j.error.None?
    case Failed => j.result.None? && j.error.Some? && j.returned.None?
    case Cancelled => j.cancel && j.result.None? && j.error.None?
    case _ => false
  }

  ghost predicate Distinct(ids: seq<nat>) {
    forall i, j :: 0 <= i < j < |ids| ==> ids[i] != ids[j]
  }

  /** What is queued is what was queued and not taken; each job is queued once, by its own submit. */
  ghost predicate Queues(s: Sys) {
    && s.enqueued == s.taken + s.queue && Distinct(s.enqueued)
    && (forall i :: 0 <= i < |s.enqueued| ==> s.enqueued[i] < |s.jobs| && s.jobs[s.enqueued[i]].phase == Enqueued)
    && (s.worker.Busy() ==> s.taken != [] && s.taken[|s.taken| - 1] == s.worker.id)
  }

  predicate IsCurrent(s: Sys, id: nat) {
    s.worker.Busy() && s.worker.id == id
  }

  ghost predicate JobOk(s: Sys, id: nat)
    requires id < |s.jobs|
  {
    if IsCurrent(s, id) then InProgress(s.jobs[id], s.worker)
    else if id in s.taken then Finished(s.jobs[id])
    else Fresh(s.jobs[id])
  }

  ghost predicate Jobs(s: Sys) {
    forall id :: 0 <= id < |s.jobs| ==> JobOk(s, id)
  }

  /** The taken jobs whose task body started, in the order they were taken. */
  function StartedOf(ids: seq<nat>, jobs: seq<Job>): seq<nat>
    requires forall i :: 0 <= i < |ids| ==> ids[i] < |jobs|
  {
    if ids == [] then []
    else
      var n := |ids| - 1;
      StartedOf(ids[..n], jobs) + if jobs[ids[n]].started then [ids[n]] else []
  }

  ghost predicate Order(s: Sys) {
    && (forall i :: 0 <= i < |s.taken| ==> s.taken[i] < |s.jobs|)
    && s.ran == StartedOf(s.taken, s.jobs)
  }

  ghost predicate Lifecycle(s: Sys) {
    && (s.worker.InTask? ==> s.open)
    && match s.owner
       case Down => !s.running && s.worker in {NoWorker, Exited}
       case Cleared => !s.running && s.worker in {NoWorker, Exited} && !s.stop
       case Spawned => !s.running && s.worker !in {NoWorker, Exited} && !s.stop
       case Up => s.running && s.worker !in {NoWorker, Exited} && !s.stop
       case Stopping => s.running && s.worker != NoWorker && s.stop && s.stopAt <= |s.enqueued|
         && (s.worker == Exited ==> s.stopAt <= |s.taken|)
       case Joined => s.running && s.worker == Exited && s.stop && s.stopAt <= |s.taken|
       case Lowered => !s.running && s.worker == Exited && s.stop && s.stopAt <= |s.taken|
  }

  ghost predicate Inv(s: Sys) {
    Queues(s) && Jobs(s) && Order(s) && Lifecycle(s)
  }

  lemma InvTypes(s: Sys)
    requires Queues(s)
    ensures WellTyped(s)
    ensures forall i :: 0 <= i < |s.taken| ==> s.taken[i] == s.enqueued[i]
    ensures s.worker.Busy() ==> s.worker.id in s.taken
  {
    hide Distinct;
    forall i | 0 <= i < |s.queue| ensures s.queue[i] < |s.jobs| { assert s.enqueued[|s.taken| + i] == s.queue[i]; }
    forall i | 0 <= i < |s.taken| ensures s.taken[i] == s.enqueued[i] {}
  }

  /** The head of the queue was never taken. */
  lemma HeadIsNew(s: Sys)
    requires Queues(s) && s.queue != []
    ensures s.queue[0] < |s.jobs| && s.queue[0] !in s.taken && !IsCurrent(s, s.queue[0])
  {
    InvTypes(s);
    assert s.enqueued[|s.taken|] == s.queue[0];
    forall i | 0 <= i < |s.taken| ensures s.taken[i] != s.queue[0] {
      assert s.enqueued[i] != s.enqueued[|s.taken|];
    }
  }

  lemma StartHolds()
    ensures Inv(START)
  {
  }

  predicate OfOwner(e: Event) {
    e in {ClearStop, Spawn, GoUp, SetStop, Join, Lower, Close} || e.OpenFirst?
  }

  predicate OfClient(e: Event) {
    e.Check? || e.Register? || e.Enqueue? || e.Cancel?
  }

  predicate OfQueue(e: Event) {
    e in {Take, IdleClose, Exit}
  }

  lemma QueuesKept(s: Sys, e: Event)
    requires Queues(s) && Lifecycle(s) && Enabled(s, e)
    ensures WellTyped(s) && Queues(Next(s, e))
  {
    InvTypes(s);
    if e == Take {
      TakeQueues(s);
    } else if OfOwner(e) || OfQueue(e) {
      OwnerQueues(s, e);
    } else if OfClient(e) {
      ClientQueues(s, e);
    } else {
      WorkerQueues(s, e);
    }
  }

  lemma OwnerQueues(s: Sys, e: Event)
    requires Queues(s) && Lifecycle(s) && Enabled(s, e) && WellTyped(s) && (OfOwner(e) || e == IdleClose || e == Exit)
    ensures Queues(Next(s, e))
  {
    hide Distinct;
  }

  lemma TakeQueues(s: Sys)
    requires Queues(s) && Enabled(s, Take) && WellTyped(s)
    ensures Queues(Next(s, Take))
  {
    hide Distinct;
    assert s.taken + s.queue == (s.taken + [s.queue[0]]) + s.queue[1..];
  }

  lemma ClientQueues(s: Sys, e: Event)
    requires Queues(s) && Enabled(s, e) && WellTyped(s) && OfClient(e)
    ensures Queues(Next(s, e))
  {
    if e.Enqueue? {
      var n := Next(s, e);
      assert n.enqueued == n.taken + n.queue;
      forall i | 0 <= i < |s.enqueued| ensures s.enqueued[i] != e.id { assert s.jobs[s.enqueued[i]].phase == Enqueued; }
    }
  }

  lemma WorkerQueues(s: Sys, e: Event)
    requires Queues(s) && Enabled(s, e) && WellTyped(s) && !OfOwner(e) && !OfClient(e) && !OfQueue(e)
    ensures Queues(Next(s, e))
  {
    hide Distinct;
  }

  // The jobs: each case of the event list leaves every job as its place says.

  lemma OwnerJob(s: Sys, e: Event, id: nat)
    requires Lifecycle(s) && Enabled(s, e) && WellTyped(s) && (OfOwner(e) || e == IdleClose || e == Exit)
    requires id < |s.jobs| && JobOk(s, id)
    ensures JobOk(Next(s, e), id)
  {
    hide InProgress, Finished, Fresh;
  }

  lemma ClientJob(s: Sys, e: Event, id: nat)
    requires Enabled(s, e) && WellTyped(s) && OfClient(e)
    requires id < |s.jobs| && JobOk(s, id)
    ensures JobOk(Next(s, e), id)
  {
    hide Next, Enabled, JobOk, SameShown, WellTyped;
    ClientLeaves(s, e, id);
    ShownJob(s, Next(s, e), id);
  }

  /** The same job as far as the invariant goes, perhaps cancelled since. */
  predicate SameShown(j: Job, j': Job) {
    && j'.state == j.state && j'.result == j.result && j'.error == j.error
    && j'.started == j.started && j'.returned == j.returned && (j.cancel ==> j'.cancel)
  }

  lemma ClientLeaves(s: Sys, e: Event, id: nat)
    requires Enabled(s, e) && WellTyped(s) && OfClient(e) && id < |s.jobs|
    ensures var n := Next(s, e);
      n.worker == s.worker && n.taken == s.taken && id < |n.jobs| && SameShown(s.jobs[id], n.jobs[id])
  {
    hide SameShown, WellTyped;
    ShownSame(s.jobs[id]);
  }

  lemma ShownSame(j: Job)
    ensures SameShown(j, j) && SameShown(j, j.(cancel := true)) && forall p :: SameShown(j, j.(phase := p))
  {
  }

  lemma ShownJob(s: Sys, n: Sys, id: nat)
    requires n.worker == s.worker && n.taken == s.taken && id < |s.jobs| && id < |n.jobs|
    requires SameShown(s.jobs[id], n.jobs[id]) && JobOk(s, id)
    ensures JobOk(n, id)
  {
  }

  lemma TakeJob(s: Sys, id: nat)
    requires Queues(s) && Enabled(s, Take) && WellTyped(s) && id < |s.jobs| && JobOk(s, id)
    ensures JobOk(Next(s, Take), id)
  {
    hide Finished, Fresh, Distinct;
    HeadIsNew(s);
  }

  lemma OtherJob(s: Sys, e: Event, id: nat)
    requires Queues(s) && Enabled(s, e) && WellTyped(s) && !OfOwner(e) && !OfClient(e) && !OfQueue(e)
    requires id < |s.jobs| && JobOk(s, id) && !IsCurrent(s, id)
    ensures JobOk(Next(s, e), id)
  {
    hide InProgress, Finished, Fresh, Distinct;
  }

  lemma CurrentJob(s: Sys, e: Event)
    requires Queues(s) && Enabled(s, e) && WellTyped(s) && !OfOwner(e) && !OfClient(e) && !OfQueue(e)
    requires JobOk(s, s.worker.id)
    ensures JobOk(Next(s, e), s.worker.id)
  {
    hide Distinct, Queues, Next, JobOk;
    InvTypes(s);
    if e in {SetComplete, SetFailed, SetCancelled} {
      FinishingJob(s, e);
    } else {
      if e in {CheckAfter, SetResult, SetError} { ReturnedJob(s, e); } else { WorkingJob(s, e); }
    }
  }

  lemma ReturnedJob(s: Sys, e: Event)
    requires Enabled(s, e) && WellTyped(s) && e in {CheckAfter, SetResult, SetError} && JobOk(s, s.worker.id)
    ensures JobOk(Next(s, e), s.worker.id)
  {
    hide Finished;
  }

  lemma FinishingJob(s: Sys, e: Event)
    requires Enabled(s, e) && WellTyped(s) && e in {SetComplete, SetFailed, SetCancelled}
    requires s.worker.id in s.taken && JobOk(s, s.worker.id)
    ensures JobOk(Next(s, e), s.worker.id)
  {
    hide Fresh;
  }

  lemma WorkingJob(s: Sys, e: Event)
    requires Enabled(s, e) && WellTyped(s) && !OfOwner(e) && !OfClient(e) && !OfQueue(e)
    requires e !in {SetComplete, SetFailed, SetCancelled, CheckAfter, SetResult, SetError} && JobOk(s, s.worker.id)
    ensures JobOk(Next(s, e), s.worker.id)
  {
    hide Finished;
  }

  lemma NewJob(s: Sys)
    requires Queues(s) && WellTyped(s) && Enabled(s, Check)
    ensures JobOk(Next(s, Check), |s.jobs|)
  {
    hide Distinct;
    InvTypes(s);
    forall i | 0 <= i < |s.taken| ensures s.taken[i] != |s.jobs| {
      assert s.enqueued[i] < |s.jobs|;
    }
  }

  /** Only a submit's check makes a job. */
  lemma JobsGrow(s: Sys, e: Event)
    requires Enabled(s, e) && WellTyped(s)
    ensures |Next(s, e).jobs| == |s.jobs| + if e == Check then 1 else 0
  {
    hide Next, Enabled, WellTyped;
    if OfOwner(e) || OfQueue(e) { OwnerLeavesJobs(s, e); }
    else if OfClient(e) { ClientGrows(s, e); }
    else { WorkerKeepsCount(s, e); }
  }

  lemma ClientGrows(s: Sys, e: Event)
    requires Enabled(s, e) && WellTyped(s) && OfClient(e)
    ensures |Next(s, e).jobs| == |s.jobs| + if e == Check then 1 else 0
  {
  }

  lemma WorkerKeepsCount(s: Sys, e: Event)
    requires Enabled(s, e) && WellTyped(s) && !OfOwner(e) && !OfClient(e) && !OfQueue(e)
    ensures |Next(s, e).jobs| == |s.jobs|
  {
  }

  lemma WorkerIsBusy(s: Sys, e: Event)
    requires Enabled(s, e) && !OfOwner(e) && !OfClient(e) && !OfQueue(e)
    ensures s.worker.Busy()
  {
  }

  lemma JobKept(s: Sys, e: Event, id: nat)
    requires Queues(s) && Jobs(s) && Lifecycle(s) && Enabled(s, e) && WellTyped(s) && id < |Next(s, e).jobs|
    ensures JobOk(Next(s, e), id)
  {
    hide JobOk, Queues, Lifecycle, InProgress, IsCurrent, Next, Enabled, WellTyped;
    JobsGrow(s, e);
    if id == |s.jobs| {
      NewJob(s);
    } else {
      assert JobOk(s, id);
      if e == Take { TakeJob(s, id); }
      else if OfOwner(e) || OfQueue(e) { OwnerJob(s, e, id); }
      else if OfClient(e) { ClientJob(s, e, id); }
      else {
        WorkerIsBusy(s, e);
        if id == s.worker.id {
          CurrentJob(s, e);
        } else {
          NotCurrent(s, id);
          OtherJob(s, e, id);
        }
      }
    }
  }

  lemma NotCurrent(s: Sys, id: nat)
    requires s.worker.Busy() && s.worker.id != id
    ensures !IsCurrent(s, id)
  {
  }

  lemma JobsKept(s: Sys, e: Event)
    requires Queues(s) && Jobs(s) && Lifecycle(s) && Enabled(s, e)
    ensures WellTyped(s) && Jobs(Next(s, e))
  {
    hide JobOk, Queues, Lifecycle, Next;
    InvTypes(s);
    var n := Next(s, e);
    forall id | 0 <= id < |n.jobs| ensures JobOk(n, id) {
      JobKept(s, e, id);
    }
  }

  lemma {:induction false} StartedSame(ids: seq<nat>, jobs: seq<Job>, jobs': seq<Job>)
    requires forall i :: 0 <= i < |ids| ==>
      ids[i] < |jobs| && ids[i] < |jobs'| && jobs[ids[i]].started == jobs'[ids[i]].started
    ensures StartedOf(ids, jobs) == StartedOf(ids, jobs')
  {
    if ids != [] {
      StartedSame(ids[..|ids| - 1], jobs, jobs');
    }
  }

  lemma StartedSnoc(ids: seq<nat>, id: nat, jobs: seq<Job>)
    requires id < |jobs| && forall i :: 0 <= i < |ids| ==> ids[i] < |jobs|
    ensures StartedOf(ids + [id], jobs) == StartedOf(ids, jobs) + if jobs[id].started then [id] else []
  {
    assert (ids + [id])[..|ids|] == ids;
  }

  /** Only opening the hardware for a job starts its task. */
  lemma StartedKept(s: Sys, e: Event, id: nat)
    requires Enabled(s, e) && WellTyped(s) && !e.Open? && id < |s.jobs|
    ensures id < |Next(s, e).jobs| && Next(s, e).jobs[id].started == s.jobs[id].started
  {
    hide Next, Enabled, WellTyped, SameShown;
    if OfClient(e) {
      ClientLeaves(s, e, id);
      ShownStarted(s.jobs[id], Next(s, e).jobs[id]);
    } else if OfOwner(e) || OfQueue(e) {
      OwnerLeavesJobs(s, e);
    } else {
      WorkerStarted(s, e, id);
    }
  }

  lemma ShownStarted(j: Job, j': Job)
    requires SameShown(j, j')
    ensures j'.started == j.started
  {
  }

  lemma OwnerLeavesJobs(s: Sys, e: Event)
    requires Enabled(s, e) && WellTyped(s) && (OfOwner(e) || OfQueue(e))
    ensures Next(s, e).jobs == s.jobs
  {
  }

  lemma WorkerStarted(s: Sys, e: Event, id: nat)
    requires Enabled(s, e) && WellTyped(s) && !OfOwner(e) && !OfClient(e) && !OfQueue(e) && !e.Open? && id < |s.jobs|
    ensures id < |Next(s, e).jobs| && Next(s, e).jobs[id].started == s.jobs[id].started
  {
  }

  lemma OrderKept(s: Sys, e: Event)
    requires Queues(s) && Jobs(s) && Order(s) && Enabled(s, e)
    ensures WellTyped(s) && Order(Next(s, e))
  {
    InvTypes(s);
    if e == Take { TakeOrder(s); }
    else if e.Open? { OpenOrder(s, e); }
    else { SameOrder(s, e); }
  }

  lemma TakeOrder(s: Sys)
    requires Queues(s) && Jobs(s) && Order(s) && Enabled(s, Take) && WellTyped(s)
    ensures Order(Next(s, Take))
  {
    hide Distinct, InProgress, Finished, StartedOf, Queues;
    HeadIsNew(s);
    assert JobOk(s, s.queue[0]);
    StartedSnoc(s.taken, s.queue[0], s.jobs);
  }

  lemma OpenOrder(s: Sys, e: Event)
    requires Queues(s) && Jobs(s) && Order(s) && Enabled(s, e) && WellTyped(s) && e.Open?
    ensures Order(Next(s, e))
  {
    hide Queues, Jobs, StartedOf, InProgress;
    var n, m := Next(s, e), |s.taken| - 1;
    CurrentIsLast(s);
    OpeningIsUnstarted(s);
    assert s.taken == s.taken[..m] + [s.worker.id];
    StartedSame(s.taken[..m], s.jobs, n.jobs);
    StartedSnoc(s.taken[..m], s.worker.id, s.jobs);
    StartedSnoc(s.taken[..m], s.worker.id, n.jobs);
  }

  /** The current job was taken last, and only once. */
  lemma CurrentIsLast(s: Sys)
    requires Queues(s) && s.worker.Busy()
    ensures var m := |s.taken| - 1;
      m >= 0 && s.taken[m] == s.worker.id && forall i :: 0 <= i < m ==> s.taken[i] != s.worker.id
  {
    InvTypes(s);
    var m := |s.taken| - 1;
    forall i | 0 <= i < m ensures s.taken[i] != s.worker.id { assert s.enqueued[i] != s.enqueued[m]; }
  }

  lemma OpeningIsUnstarted(s: Sys)
    requires Jobs(s) && s.worker.Opening? && s.worker.id < |s.jobs|
    ensures !s.jobs[s.worker.id].started
  {
    assert JobOk(s, s.worker.id);
  }

  lemma SameOrder(s: Sys, e: Event)
    requires Order(s) && Enabled(s, e) && WellTyped(s) && e != Take && !e.Open?
    ensures Order(Next(s, e))
  {
    hide StartedOf, Enabled;
    var n := Next(s, e);
    assert n.ran == s.ran && n.taken == s.taken;
    forall i | 0 <= i < |s.taken|
      ensures s.taken[i] < |n.jobs| && s.jobs[s.taken[i]].started == n.jobs[s.taken[i]].started
    {
      StartedKept(s, e, s.taken[i]);
    }
    StartedSame(s.taken, s.jobs, n.jobs);
  }

  lemma LifecycleKept(s: Sys, e: Event)
    requires Queues(s) && Lifecycle(s) && Enabled(s, e)
    ensures WellTyped(s) && Lifecycle(Next(s, e))
  {
    InvTypes(s);
    hide Distinct, Queues;
    assert |s.enqueued| == |s.taken| + |s.queue| by { QueueLengths(s); }
    if OfOwner(e) { OwnerLifecycle(s, e); }
    else if OfClient(e) { ClientLifecycle(s, e); }
    else { WorkerLifecycle(s, e); }
  }

  lemma QueueLengths(s: Sys)
    requires Queues(s)
    ensures |s.enqueued| == |s.taken| + |s.queue|
  {
  }

  lemma OwnerLifecycle(s: Sys, e: Event)
    requires WellTyped(s) && Lifecycle(s) && Enabled(s, e) && OfOwner(e) && |s.enqueued| == |s.taken| + |s.queue|
    ensures Lifecycle(Next(s, e))
  {
  }

  lemma ClientLifecycle(s: Sys, e: Event)
    requires WellTyped(s) && Lifecycle(s) && Enabled(s, e) && OfClient(e)
    ensures Lifecycle(Next(s, e))
  {
  }

  lemma WorkerLifecycle(s: Sys, e: Event)
    requires WellTyped(s) && Lifecycle(s) && Enabled(s, e) && !OfOwner(e) && !OfClient(e)
    requires |s.enqueued| == |s.taken| + |s.queue|
    ensures Lifecycle(Next(s, e))
  {
  }

  lemma InvKept(s: Sys, e: Event)
    requires Inv(s) && Enabled(s, e)
    ensures WellTyped(s) && Inv(Next(s, e))
  {
    hide Queues, Jobs, Order, Lifecycle, Next;
    QueuesKept(s, e);
    JobsKept(s, e);
    OrderKept(s, e);
    LifecycleKept(s, e);
  }

  // ------------------------------------------------------------------ runs

  /** es is an interleaving the sections allow from s. */
  ghost predicate CanRun(s: Sys, es: seq<Event>)
    decreases |es|
  {
    es == [] || (WellTyped(s) && Enabled(s, es[0]) && CanRun(Next(s, es[0]), es[1..]))
  }

  ghost function After(s: Sys, es: seq<Event>): Sys
    requires CanRun(s, es)
    decreases |es|
  {
    if es == [] then s else After(Next(s, es[0]), es[1..])
  }

  lemma {:induction false} RunKeepsInv(s: Sys, es: seq<Event>)
    requires Inv(s) && CanRun(s, es)
    ensures Inv(After(s, es))
    decreases |es|
  {
    hide Inv, Next, Enabled;
    if es != [] {
      InvKept(s, es[0]);
      RunKeepsInv(Next(s, es[0]), es[1..]);
    }
  }

  lemma RunsHoldInv(es: seq<Event>)
    requires CanRun(START, es)
    ensures Inv(After(START, es))
  {
    hide Inv, CanRun, After;
    StartHolds();
    RunKeepsInv(START, es);
  }

  /** At most one job is running, and it is the one the worker holds. */
  lemma OneAtATime(es: seq<Event>)
    requires CanRun(START, es)
    ensures var s := After(START, es);
      forall i, j :: 0 <= i < |s.jobs| && 0 <= j < |s.jobs| ==>
        s.jobs[i].state == Running && s.jobs[j].state == Running ==> i == j
  {
    hide CanRun, After, InProgress;
    RunsHoldInv(es);
    var s := After(START, es);
    forall i | 0 <= i < |s.jobs| && s.jobs[i].state == Running ensures IsCurrent(s, i) { assert JobOk(s, i); }
  }

  ghost predicate Before(ids: seq<nat>, x: nat, y: nat) {
    exists p, q :: 0 <= p < q < |ids| && ids[p] == x && ids[q] == y
  }

  lemma {:induction false} StartedInOrder(ids: seq<nat>, jobs: seq<Job>, r: seq<nat>)
    requires forall i :: 0 <= i < |ids| ==> ids[i] < |jobs|
    requires r == StartedOf(ids, jobs)
    ensures forall a :: 0 <= a < |r| ==> r[a] in ids
    ensures forall a, b :: 0 <= a < b < |r| ==> Before(ids, r[a], r[b])
  {
    if ids != [] {
      var n := |ids| - 1;
      var front := StartedOf(ids[..n], jobs);
      StartedInOrder(ids[..n], jobs, front);
      forall a | 0 <= a < |r| ensures r[a] in ids {
        if a < |front| { assert front[a] in ids[..n]; } else { assert ids[n] in ids; }
      }
      forall a, b | 0 <= a < b < |r| ensures Before(ids, r[a], r[b]) {
        if b < |front| {
          assert Before(ids[..n], front[a], front[b]);
          var p, q :| 0 <= p < q < n && ids[..n][p] == front[a] && ids[..n][q] == front[b];
          assert ids[p] == r[a] && ids[q] == r[b];
        } else {
          assert front[a] in ids[..n];
          var p :| 0 <= p < n && ids[..n][p] == front[a];
          assert ids[p] == r[a] && ids[n] == r[b];
        }
      }
    }
  }

  lemma BeforeInLonger(ids: seq<nat>, more: seq<nat>, x: nat, y: nat)
    requires Before(ids, x, y)
    ensures Before(ids + more, x, y)
  {
    var p, q :| 0 <= p < q < |ids| && ids[p] == x && ids[q] == y;
    assert (ids + more)[p] == x && (ids + more)[q] == y;
  }

  /** Tasks start in the order their jobs were queued, and none starts twice. */
  lemma FirstInFirstOut(es: seq<Event>)
    requires CanRun(START, es)
    ensures var s := After(START, es);
      Distinct(s.enqueued) && forall a, b :: 0 <= a < b < |s.ran| ==> Before(s.enqueued, s.ran[a], s.ran[b])
  {
    hide CanRun, After, Before, Jobs, Lifecycle;
    RunsHoldInv(es);
    var s := After(START, es);
    StartedInOrder(s.taken, s.jobs, s.ran);
    forall a, b | 0 <= a < b < |s.ran| ensures Before(s.enqueued, s.ran[a], s.ran[b]) {
      BeforeInLonger(s.taken, s.queue, s.ran[a], s.ran[b]);
    }
  }

  /** What a client can see of a job. */
  datatype Snapshot = Snapshot(state: JobState, progress: Option<Value>, result: Option<Value>, error: Option<string>)

  function Poll(s: Sys, id: nat): Option<Snapshot> {
    if id < |s.jobs| && s.jobs[id].phase != Checked
    then Some(Snapshot(s.jobs[id].state, s.jobs[id].progress, s.jobs[id].result, s.jobs[id].error))
    else None
  }

  /** A snapshot's state, result and error always belong together, although they are set in separate sections. */
  lemma SnapshotsAreHonest(es: seq<Event>, id: nat)
    requires CanRun(START, es)
    ensures var s := After(START, es);
      Poll(s, id).Some? ==>
        var p, returned := Poll(s, id).value, s.jobs[id].returned;
        && (p.state == Complete ==> returned.Some? && p.result == returned && p.error.None?)
        && (p.state == Failed ==> p.result.None? && p.error.Some?)
        && (p.state in {Queued, Cancelled} ==> p.result.None? && p.error.None?)
        && (p.result.Some? ==> p.result == returned)
  {
    hide CanRun, After;
    RunsHoldInv(es);
    var s := After(START, es);
    if id < |s.jobs| { assert JobOk(s, id); }
  }

  /** From its start to its return, a task has open hardware. */
  lemma HardwareIsOpen(es: seq<Event>)
    requires CanRun(START, es)
    ensures After(START, es).worker.InTask? ==> After(START, es).open
  {
    hide CanRun, After;
    RunsHoldInv(es);
  }

  lemma TerminalStep(s: Sys, e: Event, id: nat)
    requires Inv(s) && Enabled(s, e) && WellTyped(s) && id < |s.jobs| && s.jobs[id].Terminal()
    ensures id < |Next(s, e).jobs| && Next(s, e).jobs[id].Terminal() && Next(s, e).jobs[id] == s.jobs[id].(
        cancel := Next(s, e).jobs[id].cancel, phase := Next(s, e).jobs[id].phase)
  {
    hide Queues, Order, Lifecycle, JobOk;
    assert JobOk(s, id);
    TerminalIsIdle(s, id);
    if OfClient(e) { TerminalMeanwhile(s, e, id); } else { TerminalElsewhere(s, e, id); }
  }

  lemma TerminalIsIdle(s: Sys, id: nat)
    requires id < |s.jobs| && JobOk(s, id) && s.jobs[id].Terminal()
    ensures !IsCurrent(s, id)
  {
    hide Finished;
  }

  lemma TerminalMeanwhile(s: Sys, e: Event, id: nat)
    requires Enabled(s, e) && WellTyped(s) && OfClient(e) && id < |s.jobs|
    ensures id < |Next(s, e).jobs| && Next(s, e).jobs[id] == s.jobs[id].(
        cancel := Next(s, e).jobs[id].cancel, phase := Next(s, e).jobs[id].phase)
  {
  }

  lemma TerminalElsewhere(s: Sys, e: Event, id: nat)
    requires Enabled(s, e) && WellTyped(s) && !OfClient(e) && id < |s.jobs| && !IsCurrent(s, id)
    ensures id < |Next(s, e).jobs| && Next(s, e).jobs[id] == s.jobs[id]
  {
    hide Next, Enabled, WellTyped, IsCurrent;
    if OfOwner(e) || OfQueue(e) {
      OwnerLeavesJobs(s, e);
    } else {
      WorkerLeavesOthers(s, e, id);
    }
  }

  lemma WorkerLeavesOthers(s: Sys, e: Event, id: nat)
    requires Enabled(s, e) && WellTyped(s) && !OfOwner(e) && !OfClient(e) && !OfQueue(e)
    requires id < |s.jobs| && !IsCurrent(s, id)
    ensures id < |Next(s, e).jobs| && Next(s, e).jobs[id] == s.jobs[id]
  {
  }

  /** Terminal is forever: nothing a client can see changes any more. */
  lemma {:induction false} TerminalForever(s: Sys, es: seq<Event>, id: nat)
    requires Inv(s) && CanRun(s, es) && id < |s.jobs| && s.jobs[id].Terminal()
    ensures id < |After(s, es).jobs| && After(s, es).jobs[id].Terminal()
    ensures var j, j' := s.jobs[id], After(s, es).jobs[id];
      j'.state == j.state && j'.result == j.result && j'.error == j.error && j'.progress == j.progress
        && j'.started == j.started
    decreases |es|
  {
    hide Inv, Enabled, Next;
    if es != [] {
      InvKept(s, es[0]);
      TerminalStep(s, es[0], id);
      TerminalForever(Next(s, es[0]), es[1..], id);
    }
  }

  /** Cancelled while the check before the run was still ahead. */
  ghost predicate Doomed(s: Sys, id: nat) {
    && id < |s.jobs| && s.jobs[id].cancel && !s.jobs[id].started
    && (|| s.jobs[id].state == Cancelled
        || (Fresh(s.jobs[id]) && (IsCurrent(s, id) ==> s.worker.Got? || s.worker.Cancelling?)))
  }

  lemma DoomedStep(s: Sys, e: Event, id: nat)
    requires Doomed(s, id) && Queues(s) && Lifecycle(s) && JobOk(s, id) && Enabled(s, e) && WellTyped(s)
    ensures Doomed(Next(s, e), id)
  {
    hide Queues, Lifecycle, JobOk;
    if e == Take { DoomedTaken(s, id); }
    else if OfOwner(e) || OfQueue(e) { DoomedIdle(s, e, id); }
    else if OfClient(e) { DoomedMeanwhile(s, e, id); }
    else if IsCurrent(s, id) { DoomedCurrent(s, e); }
    else { DoomedElsewhere(s, e, id); }
  }

  lemma DoomedTaken(s: Sys, id: nat)
    requires Doomed(s, id) && Queues(s) && JobOk(s, id) && WellTyped(s) && Enabled(s, Take)
    ensures Doomed(Next(s, Take), id)
  {
    hide Distinct;
    HeadIsNew(s);
  }

  lemma DoomedIdle(s: Sys, e: Event, id: nat)
    requires Lifecycle(s) && WellTyped(s) && Enabled(s, e) && Doomed(s, id) && e != Take && (OfOwner(e) || OfQueue(e))
    ensures Doomed(Next(s, e), id)
  {
    hide Fresh;
  }

  lemma DoomedMeanwhile(s: Sys, e: Event, id: nat)
    requires WellTyped(s) && Enabled(s, e) && Doomed(s, id) && OfClient(e)
    ensures Doomed(Next(s, e), id)
  {
    var j, j' := s.jobs[id], Next(s, e).jobs[id];
    assert j'.state == j.state && j'.result == j.result && j'.error == j.error && j'.started == j.started
      && j'.returned == j.returned;
    assert j'.cancel && Next(s, e).worker == s.worker;
  }

  lemma DoomedCurrent(s: Sys, e: Event)
    requires WellTyped(s) && Enabled(s, e) && s.worker.Busy() && Doomed(s, s.worker.id) && JobOk(s, s.worker.id)
    requires !OfOwner(e) && !OfClient(e) && !OfQueue(e)
    ensures Doomed(Next(s, e), s.worker.id)
  {
    hide Finished;
    assert s.worker.Got? || s.worker.Cancelling?;
  }

  lemma DoomedElsewhere(s: Sys, e: Event, id: nat)
    requires WellTyped(s) && Enabled(s, e) && Doomed(s, id) && !IsCurrent(s, id)
    requires !OfOwner(e) && !OfClient(e) && !OfQueue(e)
    ensures Doomed(Next(s, e), id)
  {
    hide Fresh;
    assert Next(s, e).jobs[id] == s.jobs[id];
  }

  lemma DoomedSoon(s: Sys, e: Event, id: nat)
    requires Inv(s) && Enabled(s, e) && WellTyped(s) && Doomed(s, id)
    ensures Doomed(Next(s, e), id)
  {
    hide Queues, Order, Lifecycle, JobOk, Next, Enabled;
    assert JobOk(s, id);
    DoomedStep(s, e, id);
  }

  /** A job cancelled before that check never runs its task, in any continuation. */
  lemma {:induction false} CancelledNeverRuns(s: Sys, es: seq<Event>, id: nat)
    requires Inv(s) && CanRun(s, es) && Doomed(s, id)
    ensures Doomed(After(s, es), id)
    ensures After(s, es).jobs[id].state in {Queued, Cancelled} && !After(s, es).jobs[id].started
    decreases |es|
  {
    hide Inv, Enabled, Next;
    if es != [] {
      InvKept(s, es[0]);
      DoomedSoon(s, es[0], id);
      CancelledNeverRuns(Next(s, es[0]), es[1..], id);
    }
  }

  // ------------------------------------------------ what a cancel decides

  /** The worker has not made its check of this job yet. */
  ghost predicate Unchecked(s: Sys, id: nat) {
    && id < |s.jobs| && s.jobs[id].state == Queued
    && (IsCurrent(s, id) ==> s.worker.Got? || s.worker.Cancelling?)
  }

  lemma UncheckedIsFresh(s: Sys, id: nat)
    requires Inv(s) && Unchecked(s, id)
    ensures Fresh(s.jobs[id])
  {
    assert JobOk(s, id);
  }

  /** A cancel before the check dooms the job. */
  lemma CancelDooms(s: Sys, id: nat)
    requires Inv(s) && Enabled(s, Cancel(id)) && Unchecked(s, id)
    ensures WellTyped(s) && Doomed(Next(s, Cancel(id)), id)
  {
    hide Jobs, Order, Lifecycle, Distinct;
    InvTypes(s);
    UncheckedIsFresh(s, id);
  }

  lemma {:induction false} RunAppend(s: Sys, a: seq<Event>, b: seq<Event>)
    ensures CanRun(s, a + b) <==> CanRun(s, a) && CanRun(After(s, a), b)
    ensures CanRun(s, a + b) ==> After(s, a + b) == After(After(s, a), b)
    decreases |a|
  {
    hide Next, Enabled, WellTyped;
    if a == [] {
      assert a + b == b;
    } else {
      assert (a + b)[0] == a[0] && (a + b)[1..] == a[1..] + b;
      if WellTyped(s) && Enabled(s, a[0]) { RunAppend(Next(s, a[0]), a[1..], b); }
    }
  }

  lemma OneEvent(s: Sys, e: Event)
    ensures CanRun(s, [e]) <==> WellTyped(s) && Enabled(s, e)
    ensures CanRun(s, [e]) ==> After(s, [e]) == Next(s, e)
  {
    hide Next, Enabled, WellTyped;
    assert [e][1..] == [];
    if WellTyped(s) && Enabled(s, e) { assert CanRun(Next(s, e), []); }
  }

  /** In every interleaving, a job that is cancelled before the worker's check of it never starts its task, and is
      cancelled if it ends. */
  lemma CancelInTime(before: seq<Event>, id: nat, behind: seq<Event>)
    requires CanRun(START, before + ([Cancel(id)] + behind))
    requires CanRun(START, before) ==> Unchecked(After(START, before), id)
    ensures var s := After(START, before + ([Cancel(id)] + behind));
      && id < |s.jobs| && !s.jobs[id].started && s.jobs[id].state in {Queued, Cancelled}
      && (s.jobs[id].Terminal() ==> s.jobs[id].state == Cancelled && s.jobs[id].result.None?)
  {
    hide Inv, CanRun, After, Next, Enabled, WellTyped, Unchecked, Fresh, Doomed;
    RunAppend(START, before, [Cancel(id)] + behind);
    RunsHoldInv(before);
    var s := After(START, before);
    RunAppend(s, [Cancel(id)], behind);
    OneEvent(s, Cancel(id));
    CancelDooms(s, id);
    InvKept(s, Cancel(id));
    var t := Next(s, Cancel(id));
    CancelledNeverRuns(t, behind, id);
    RunsHoldInv(before + ([Cancel(id)] + behind));
    DoomedEnds(After(t, behind), id);
  }

  lemma DoomedEnds(s: Sys, id: nat)
    requires Inv(s) && Doomed(s, id)
    ensures id < |s.jobs| && (s.jobs[id].Terminal() ==> s.jobs[id].state == Cancelled && s.jobs[id].result.None?)
  {
    assert JobOk(s, id);
  }

  /** A job's cancel flag is up exactly when it was or a cancel of that job is among the events: nothing else raises
      it, and nothing takes it back. */
  lemma {:induction false} FlagFollows(s: Sys, es: seq<Event>, id: nat)
    requires CanRun(s, es) && id < |After(s, es).jobs|
    ensures After(s, es).jobs[id].cancel <==> (id < |s.jobs| && s.jobs[id].cancel) || Cancel(id) in es
    decreases |es|
  {
    hide Next, Enabled, WellTyped;
    if es != [] {
      var t, rest := Next(s, es[0]), es[1..];
      assert es == [es[0]] + rest;
      FlagFollows(t, rest, id);
      FlagStep(s, es[0], id);
    }
  }

  lemma FlagStep(s: Sys, e: Event, id: nat)
    requires WellTyped(s) && Enabled(s, e)
    ensures e == Cancel(id) ==> id < |Next(s, e).jobs|
    ensures id < |s.jobs| ==> id < |Next(s, e).jobs|
    ensures id < |Next(s, e).jobs| ==>
      (Next(s, e).jobs[id].cancel <==> (id < |s.jobs| && s.jobs[id].cancel) || e == Cancel(id))
  {
    hide WellTyped, SameShown;
    if OfOwner(e) || OfQueue(e) {
      OwnerLeavesJobs(s, e);
    } else if !OfClient(e) && id < |s.jobs| {
      WorkerKeepsFlag(s, e, id);
    } else if !OfClient(e) {
      WorkerAddsNone(s, e);
    }
  }

  /** While the executor is down no job is accepted, until it is started again. */
  lemma {:induction false} NoJobsWhileDown(s: Sys, es: seq<Event>)
    requires CanRun(s, es) && !s.running && GoUp !in es
    ensures |After(s, es).jobs| == |s.jobs| && !After(s, es).running
    decreases |es|
  {
    hide Next, Enabled, WellTyped;
    if es != [] {
      DownStep(s, es[0]);
      NoJobsWhileDown(Next(s, es[0]), es[1..]);
    }
  }

  lemma DownStep(s: Sys, e: Event)
    requires WellTyped(s) && Enabled(s, e) && !s.running && e != GoUp
    ensures |Next(s, e).jobs| == |s.jobs| && !Next(s, e).running
  {
  }

  lemma WorkerAddsNone(s: Sys, e: Event)
    requires WellTyped(s) && Enabled(s, e) && !OfOwner(e) && !OfClient(e) && !OfQueue(e)
    ensures |Next(s, e).jobs| == |s.jobs|
  {
  }

  /** A job of the first run on ends Cancelled only if a cancel of it was among the events. */
  lemma OnlyCancelCancels(es: seq<Event>, id: nat)
    requires CanRun(START, es) && id < |After(START, es).jobs| && After(START, es).jobs[id].state == Cancelled
    ensures Cancel(id) in es
  {
    hide Next, Enabled;
    RunsHoldInv(es);
    assert JobOk(After(START, es), id);
    FlagFollows(START, es, id);
  }

  lemma WorkerKeepsFlag(s: Sys, e: Event, id: nat)
    requires WellTyped(s) && Enabled(s, e) && !OfOwner(e) && !OfClient(e) && !OfQueue(e) && id < |s.jobs|
    ensures id < |Next(s, e).jobs| && Next(s, e).jobs[id].cancel == s.jobs[id].cancel
  {
  }

  // ----------------------------------------------------- how a job ends

  datatype Outcome = Completes(value: Value) | Fails(message: string) | GivesUp

  /** The outcome of a job is decided, whatever happens from here on. */
  ghost predicate Bound(s: Sys, id: nat, o: Outcome) {
    && id < |s.jobs|
    && match o
       case Completes(v) =>
         || s.worker == Finishing(id, v) || (s.worker == Published(id) && s.jobs[id].result == Some(v))
         || (!IsCurrent(s, id) && s.jobs[id].state == Complete && s.jobs[id].result == Some(v))
       case Fails(m) =>
         || s.worker == Threw(id, m) || (s.worker == Reported(id) && s.jobs[id].error == Some(m))
         || (!IsCurrent(s, id) && s.jobs[id].state == Failed && s.jobs[id].error == Some(m))
       case GivesUp =>
         || s.worker == Cancelling(id) || (s.worker.Returned? && s.worker.id == id && s.jobs[id].cancel)
         || (!IsCurrent(s, id) && s.jobs[id].state == Cancelled)
  }

  lemma BoundOwner(s: Sys, e: Event, id: nat, o: Outcome)
    requires Inv(s) && WellTyped(s) && Enabled(s, e) && Bound(s, id, o) && (OfOwner(e) || OfQueue(e)) && e != Take
    ensures Bound(Next(s, e), id, o)
  {
    hide Queues, Jobs, Order;
    OwnerLeavesJobs(s, e);
    OwnerKeepsHold(s, e);
  }

  /** Neither the owner nor the empty queue takes a job from the worker's hands or puts one there. */
  lemma OwnerKeepsHold(s: Sys, e: Event)
    requires Lifecycle(s) && WellTyped(s) && Enabled(s, e) && (OfOwner(e) || OfQueue(e)) && e != Take
    ensures Next(s, e).worker == s.worker || (!s.worker.Busy() && !Next(s, e).worker.Busy())
  {
    hide Lifecycle, Enabled, Next, WellTyped;
    if e == Spawn { SpawnHold(s); } else if e == Exit { ExitHold(s); } else { OthersHold(s, e); }
  }

  lemma SpawnHold(s: Sys)
    requires Lifecycle(s) && WellTyped(s) && Enabled(s, Spawn)
    ensures !s.worker.Busy() && !Next(s, Spawn).worker.Busy()
  {
  }

  lemma ExitHold(s: Sys)
    requires WellTyped(s) && Enabled(s, Exit)
    ensures !s.worker.Busy() && !Next(s, Exit).worker.Busy()
  {
  }

  lemma OthersHold(s: Sys, e: Event)
    requires WellTyped(s) && Enabled(s, e) && (OfOwner(e) || e == IdleClose) && e != Spawn
    ensures Next(s, e).worker == s.worker
  {
    hide WellTyped, SetJob;
    match e {
      case OpenFirst(_) =>
      case ClearStop =>
      case GoUp =>
      case SetStop =>
      case Join =>
      case Lower =>
      case Close =>
      case IdleClose =>
    }
  }

  lemma BoundTake(s: Sys, id: nat, o: Outcome)
    requires Inv(s) && WellTyped(s) && Enabled(s, Take) && Bound(s, id, o)
    ensures Bound(Next(s, Take), id, o)
  {
    hide Order, Lifecycle, Distinct;
    HeadIsNew(s);
    assert JobOk(s, s.queue[0]);
  }

  lemma BoundClient(s: Sys, e: Event, id: nat, o: Outcome)
    requires WellTyped(s) && Enabled(s, e) && Bound(s, id, o) && OfClient(e)
    ensures Bound(Next(s, e), id, o)
  {
    hide Next, Enabled, WellTyped;
    ClientLeaves(s, e, id);
  }

  lemma BoundWorker(s: Sys, e: Event, id: nat, o: Outcome)
    requires WellTyped(s) && Enabled(s, e) && Bound(s, id, o) && !OfOwner(e) && !OfClient(e) && !OfQueue(e)
    ensures Bound(Next(s, e), id, o)
  {
    hide WellTyped;
    if !IsCurrent(s, id) {
      WorkerLeavesOthers(s, e, id);
      WorkerKeepsHold(s, e);
    }
  }

  lemma WorkerKeepsHold(s: Sys, e: Event)
    requires WellTyped(s) && Enabled(s, e) && !OfOwner(e) && !OfClient(e) && !OfQueue(e)
    ensures Next(s, e).worker.Busy() ==> s.worker.Busy() && Next(s, e).worker.id == s.worker.id
  {
  }

  lemma BoundStep(s: Sys, e: Event, id: nat, o: Outcome)
    requires Inv(s) && WellTyped(s) && Enabled(s, e) && Bound(s, id, o)
    ensures Bound(Next(s, e), id, o)
  {
    hide Inv, Next, Enabled, WellTyped, Bound;
    if e == Take { BoundTake(s, id, o); }
    else if OfOwner(e) || OfQueue(e) { BoundOwner(s, e, id, o); }
    else if OfClient(e) { BoundClient(s, e, id, o); }
    else { BoundWorker(s, e, id, o); }
  }

  lemma {:induction false} BoundStays(s: Sys, es: seq<Event>, id: nat, o: Outcome)
    requires Inv(s) && CanRun(s, es) && Bound(s, id, o)
    ensures Inv(After(s, es)) && Bound(After(s, es), id, o)
    decreases |es|
  {
    hide Inv, Next, Enabled, Bound;
    if es != [] {
      InvKept(s, es[0]);
      BoundStep(s, es[0], id, o);
      BoundStays(Next(s, es[0]), es[1..], id, o);
    }
  }

  /** What a poll shows of a job once it has ended as it was bound to. */
  lemma BoundShows(s: Sys, id: nat, o: Outcome)
    requires Inv(s) && Bound(s, id, o) && s.jobs[id].Terminal()
    ensures Poll(s, id).Some?
    ensures var p := Poll(s, id).value;
      match o
      case Completes(v) => p.state == Complete && p.result == Some(v) && p.error.None?
      case Fails(m) => p.state == Failed && p.result.None? && p.error == Some(m)
      case GivesUp => p.state == Cancelled && p.result.None? && p.error.None?
  {
    hide Order, Lifecycle, Distinct;
    assert JobOk(s, id);
    TerminalIsTaken(s, id);
  }

  lemma TerminalIsTaken(s: Sys, id: nat)
    requires Inv(s) && id < |s.jobs| && s.jobs[id].Terminal()
    ensures s.jobs[id].phase == Enqueued
  {
    hide Order, Lifecycle, Distinct;
    assert JobOk(s, id);
    assert id in s.taken;
    var i :| 0 <= i < |s.taken| && s.taken[i] == id;
    assert s.enqueued[i] == id;
  }

  /** How the task ended decides how the job ends, in every interleaving: thrown, it fails with the message; returned,
      it completes with the value unless a cancel was requested before. */
  lemma TaskDecides(s: Sys, e: Event, es: seq<Event>, id: nat)
    requires Inv(s) && s.worker == InTask(id) && (e.Return? || e.Throw?) && CanRun(s, [e] + es)
    requires id < |After(s, [e] + es).jobs| && After(s, [e] + es).jobs[id].Terminal()
    ensures Poll(After(s, [e] + es), id).Some?
    ensures var p := Poll(After(s, [e] + es), id).value;
      && (e.Throw? ==> p.state == Failed && p.error == Some(e.message) && p.result.None?)
      && (e.Return? ==> p.state in {Complete, Cancelled} && p.error.None?)
      && (e.Return? && p.state == Complete ==> p.result == Some(e.value))
      && (e.Return? && s.jobs[id].cancel ==> p.state == Cancelled && p.result.None?)
  {
    hide Inv, Bound, After, CanRun, Next, Enabled, WellTyped, Poll;
    RunAppend(s, [e], es);
    OneEvent(s, e);
    InvKept(s, e);
    TaskEnds(s, e, id);
    var t := Next(s, e);
    if e.Throw? {
      BoundStays(t, es, id, Fails(e.message));
      BoundShows(After(t, es), id, Fails(e.message));
    } else if s.jobs[id].cancel {
      BoundStays(t, es, id, GivesUp);
      BoundShows(After(t, es), id, GivesUp);
    } else {
      ReturnedEnds(t, es, id, e.value);
    }
  }

  lemma TaskEnds(s: Sys, e: Event, id: nat)
    requires WellTyped(s) && Enabled(s, e) && s.worker == InTask(id)
    ensures id < |s.jobs|
    ensures e.Throw? ==> Bound(Next(s, e), id, Fails(e.message))
    ensures e.Return? ==> Next(s, e).worker == Returned(id, e.value)
    ensures e.Return? && s.jobs[id].cancel ==> Bound(Next(s, e), id, GivesUp)
  {
  }

  /** The check after the task: from then on a cancel changes nothing. */
  lemma CheckDecides(s: Sys, es: seq<Event>, id: nat, v: Value)
    requires Inv(s) && s.worker == Returned(id, v) && CanRun(s, [CheckAfter] + es) && WellTyped(s)
    requires id < |After(s, [CheckAfter] + es).jobs| && After(s, [CheckAfter] + es).jobs[id].Terminal()
    ensures Poll(After(s, [CheckAfter] + es), id).Some?
    ensures var p := Poll(After(s, [CheckAfter] + es), id).value;
      if s.jobs[id].cancel then p.state == Cancelled && p.result.None? else p.state == Complete && p.result == Some(v)
  {
    hide Inv, Bound, After, CanRun, Next, Enabled, WellTyped, Poll;
    RunAppend(s, [CheckAfter], es);
    OneEvent(s, CheckAfter);
    InvKept(s, CheckAfter);
    CheckBinds(s, id, v);
    var o := if s.jobs[id].cancel then GivesUp else Completes(v);
    BoundStays(Next(s, CheckAfter), es, id, o);
    BoundShows(After(Next(s, CheckAfter), es), id, o);
  }

  lemma CheckBinds(s: Sys, id: nat, v: Value)
    requires WellTyped(s) && s.worker == Returned(id, v)
    ensures Enabled(s, CheckAfter) && id < |s.jobs|
    ensures Bound(Next(s, CheckAfter), id, if s.jobs[id].cancel then GivesUp else Completes(v))
  {
  }

  /** Until the worker makes that check it holds the value. */
  lemma {:induction false} ReturnedEnds(s: Sys, es: seq<Event>, id: nat, v: Value)
    requires Inv(s) && s.worker == Returned(id, v) && CanRun(s, es)
    requires id < |After(s, es).jobs| && After(s, es).jobs[id].Terminal()
    ensures Poll(After(s, es), id).Some?
    ensures var p := Poll(After(s, es), id).value;
      && p.state in {Complete, Cancelled} && p.error.None? && (p.state == Complete ==> p.result == Some(v))
    decreases |es|
  {
    hide Inv, Bound, Next, Enabled, Poll;
    if es == [] {
      HoldingIsNotOver(s, id);
    } else if es[0] == CheckAfter {
      assert es == [CheckAfter] + es[1..];
      CheckBinds(s, id, v);
      InvKept(s, CheckAfter);
      var o := if s.jobs[id].cancel then GivesUp else Completes(v);
      BoundStays(Next(s, CheckAfter), es[1..], id, o);
      BoundShows(After(s, es), id, o);
    } else {
      HoldsOn(s, es[0]);
      InvKept(s, es[0]);
      ReturnedEnds(Next(s, es[0]), es[1..], id, v);
    }
  }

  lemma HoldingIsNotOver(s: Sys, id: nat)
    requires Inv(s) && s.worker.Returned? && s.worker.id == id && id < |s.jobs|
    ensures !s.jobs[id].Terminal()
  {
    assert JobOk(s, id);
  }

  lemma HoldsOn(s: Sys, e: Event)
    requires Inv(s) && WellTyped(s) && Enabled(s, e) && s.worker.Returned? && e != CheckAfter
    ensures Next(s, e).worker == s.worker
  {
    hide Queues, Jobs, Order;
  }

  // ---------------------------------------------------- how a job starts

  /** Past the check before the run, on the way to the task or past its start. */
  ghost predicate Launched(s: Sys, id: nat) {
    && id < |s.jobs|
    && (|| s.worker in {Starting(id), Opening(id)} || s.jobs[id].started
        || Bound(s, id, Fails("hardware open failed")))
  }

  lemma LaunchedStep(s: Sys, e: Event, id: nat)
    requires Inv(s) && WellTyped(s) && Enabled(s, e) && Launched(s, id)
    ensures Launched(Next(s, e), id)
  {
    hide Inv, Next, Enabled, WellTyped, Bound;
    if s.jobs[id].started {
      StartedStays(s, e, id);
    } else if s.worker in {Starting(id), Opening(id)} {
      LaunchMoves(s, e, id);
    } else {
      BoundStep(s, e, id, Fails("hardware open failed"));
      BoundIsThere(Next(s, e), id, Fails("hardware open failed"));
    }
  }

  lemma BoundIsThere(s: Sys, id: nat, o: Outcome)
    requires Bound(s, id, o)
    ensures id < |s.jobs|
  {
  }

  lemma StartedStays(s: Sys, e: Event, id: nat)
    requires WellTyped(s) && Enabled(s, e) && id < |s.jobs| && s.jobs[id].started
    ensures id < |Next(s, e).jobs| && Next(s, e).jobs[id].started
  {
    hide Next, Enabled, WellTyped;
    if e.Open? { OpenStarts(s, e, id); } else { StartedKept(s, e, id); }
  }

  lemma OpenStarts(s: Sys, e: Event, id: nat)
    requires WellTyped(s) && Enabled(s, e) && e.Open? && id < |s.jobs| && s.jobs[id].started
    ensures id < |Next(s, e).jobs| && Next(s, e).jobs[id].started
  {
  }

  lemma LaunchMoves(s: Sys, e: Event, id: nat)
    requires Inv(s) && WellTyped(s) && Enabled(s, e) && id < |s.jobs| && s.worker in {Starting(id), Opening(id)}
    ensures Launched(Next(s, e), id)
  {
    hide Queues, Jobs, Order;
  }

  lemma {:induction false} LaunchedStays(s: Sys, es: seq<Event>, id: nat)
    requires Inv(s) && CanRun(s, es) && Launched(s, id)
    ensures Inv(After(s, es)) && Launched(After(s, es), id)
    decreases |es|
  {
    hide Inv, Next, Enabled, Launched;
    if es != [] {
      InvKept(s, es[0]);
      LaunchedStep(s, es[0], id);
      LaunchedStays(Next(s, es[0]), es[1..], id);
    }
  }

  /** The check before the run, in every interleaving: a job without a cancel request is run; when it has ended, either
      its task was started or the hardware could not be opened. */
  lemma UncancelledRuns(s: Sys, es: seq<Event>, id: nat)
    requires Inv(s) && s.worker == Got(id) && CanRun(s, [CheckBefore] + es) && WellTyped(s) && !s.jobs[id].cancel
    ensures var t := After(s, [CheckBefore] + es);
      && id < |t.jobs|
      && (t.jobs[id].Terminal() && !t.jobs[id].started ==>
           t.jobs[id].state == Failed && t.jobs[id].error == Some("hardware open failed"))
  {
    hide Inv, After, CanRun, Next, Enabled, WellTyped, Bound;
    RunAppend(s, [CheckBefore], es);
    OneEvent(s, CheckBefore);
    InvKept(s, CheckBefore);
    CheckedGoes(s, id);
    LaunchedStays(Next(s, CheckBefore), es, id);
    LaunchedEnds(After(Next(s, CheckBefore), es), id);
  }

  lemma CheckedGoes(s: Sys, id: nat)
    requires WellTyped(s) && s.worker == Got(id) && !s.jobs[id].cancel
    ensures Enabled(s, CheckBefore) && Next(s, CheckBefore).worker == Starting(id) && id < |Next(s, CheckBefore).jobs|
  {
  }

  lemma LaunchedEnds(s: Sys, id: nat)
    requires Inv(s) && Launched(s, id)
    ensures s.jobs[id].Terminal() && !s.jobs[id].started ==>
      s.jobs[id].state == Failed && s.jobs[id].error == Some("hardware open failed")
  {
    assert JobOk(s, id);
  }

  /** Opening decides the start: with open hardware, or hardware that opens, the task starts; else it never does and the
      job fails. */
  lemma OpeningDecides(s: Sys, opens: bool, es: seq<Event>, id: nat)
    requires Inv(s) && s.worker == Opening(id) && CanRun(s, [Open(opens)] + es)
    ensures var t := After(s, [Open(opens)] + es);
      && id < |t.jobs| && (s.open || opens ==> t.jobs[id].started)
      && (!s.open && !opens && t.jobs[id].Terminal() ==>
           t.jobs[id].state == Failed && t.jobs[id].error == Some("hardware open failed") && !t.jobs[id].started)
  {
    hide Inv, After, CanRun, Next, Enabled, WellTyped, Bound;
    RunAppend(s, [Open(opens)], es);
    OneEvent(s, Open(opens));
    InvKept(s, Open(opens));
    OpenSplits(s, opens, id);
    var t := Next(s, Open(opens));
    if s.open || opens {
      StartedForever(t, es, id);
    } else {
      BoundStays(t, es, id, Fails("hardware open failed"));
      UnstartedStays(t, es, id, "hardware open failed");
      BoundIsThere(After(t, es), id, Fails("hardware open failed"));
      if After(t, es).jobs[id].Terminal() { BoundShows(After(t, es), id, Fails("hardware open failed")); }
    }
  }

  lemma OpenSplits(s: Sys, opens: bool, id: nat)
    requires Inv(s) && WellTyped(s) && s.worker == Opening(id)
    ensures Enabled(s, Open(opens)) && id < |Next(s, Open(opens)).jobs|
    ensures s.open || opens ==> Next(s, Open(opens)).jobs[id].started
    ensures !s.open && !opens ==>
      Bound(Next(s, Open(opens)), id, Fails("hardware open failed")) && !Next(s, Open(opens)).jobs[id].started
  {
    hide Queues, Order, Lifecycle;
    OpeningIsUnstarted(s);
  }

  lemma {:induction false} StartedForever(s: Sys, es: seq<Event>, id: nat)
    requires CanRun(s, es) && id < |s.jobs| && s.jobs[id].started
    ensures id < |After(s, es).jobs| && After(s, es).jobs[id].started
    decreases |es|
  {
    hide Next, Enabled, WellTyped;
    if es != [] {
      StartedStays(s, es[0], id);
      StartedForever(Next(s, es[0]), es[1..], id);
    }
  }

  lemma {:induction false} UnstartedStays(s: Sys, es: seq<Event>, id: nat, m: string)
    requires Inv(s) && CanRun(s, es) && Bound(s, id, Fails(m)) && !s.jobs[id].started
    ensures id < |After(s, es).jobs| && !After(s, es).jobs[id].started
    decreases |es|
  {
    hide Inv, Next, Enabled, Bound;
    BoundIsThere(s, id, Fails(m));
    if es != [] {
      InvKept(s, es[0]);
      BoundStep(s, es[0], id, Fails(m));
      BoundIsThere(Next(s, es[0]), id, Fails(m));
      UnstartedStep(s, es[0], id, m);
      UnstartedStays(Next(s, es[0]), es[1..], id, m);
    }
  }

  lemma UnstartedStep(s: Sys, e: Event, id: nat, m: string)
    requires WellTyped(s) && Enabled(s, e) && Bound(s, id, Fails(m)) && !s.jobs[id].started
    ensures id < |Next(s, e).jobs| && !Next(s, e).jobs[id].started
  {
    hide WellTyped;
    if e.Open? { WorkerLeavesOthers(s, e, id); } else { StartedKept(s, e, id); }
  }

  /** Whether the hardware is open after a stretch of events: what the last opening or closing made of it. */
  function OpenAfter(es: seq<Event>, open: bool): bool
    decreases |es|
  {
    if es == [] then open
    else match es[0]
      case OpenFirst(opens) => OpenAfter(es[1..], open || opens)
      case Open(opens) => OpenAfter(es[1..], open || opens)
      case IdleClose => OpenAfter(es[1..], false)
      case Close => OpenAfter(es[1..], false)
      case _ => OpenAfter(es[1..], open)
  }

  /** Only openings open the hardware, and only an idle worker or the owner's end of the shutdown closes it. */
  lemma {:induction false} OpenFollows(s: Sys, es: seq<Event>)
    requires CanRun(s, es)
    ensures After(s, es).open == OpenAfter(es, s.open)
    decreases |es|
  {
    hide Enabled, WellTyped;
    if es != [] { OpenFollows(Next(s, es[0]), es[1..]); }
  }

  // ---------------------------------------------------------- its reports

  /** The value last reported in a stretch of events, or the one from before. */
  function LastReport(es: seq<Event>, p: Option<Value>): Option<Value>
    decreases |es|
  {
    if es == [] then p else LastReport(es[1..], if es[0].Progress? then Some(es[0].value) else p)
  }

  /** While the worker is on a job, polls show the task's latest report. */
  lemma {:induction false} ReportsShow(s: Sys, es: seq<Event>, id: nat)
    requires Inv(s) && CanRun(s, es) && s.worker.Busy() && s.worker.id == id && Take !in es
    ensures Poll(After(s, es), id).Some? && WellTyped(s)
    ensures Poll(After(s, es), id).value.progress == LastReport(es, s.jobs[id].progress)
    decreases |es|
  {
    hide Inv, Next, Enabled, WellTyped;
    TakenIsRegistered(s, id);
    if es != [] { ReportsFrom(s, es, id); }
  }

  lemma TakenIsRegistered(s: Sys, id: nat)
    requires Inv(s) && s.worker.Busy() && s.worker.id == id
    ensures WellTyped(s) && id < |s.jobs| && s.jobs[id].phase == Enqueued && id in s.taken
  {
    hide Jobs, Order, Lifecycle, Distinct;
    InvTypes(s);
    var i :| 0 <= i < |s.taken| && s.taken[i] == id;
    assert s.enqueued[i] == id;
  }

  lemma {:induction false} ReportsFrom(s: Sys, es: seq<Event>, id: nat)
    requires Inv(s) && CanRun(s, es) && id in s.taken && Take !in es && id < |s.jobs|
    requires s.worker.Busy() ==> s.worker.id == id
    ensures id < |After(s, es).jobs| && After(s, es).jobs[id].phase == Enqueued
    ensures After(s, es).jobs[id].progress == LastReport(es, s.jobs[id].progress)
    decreases |es|
  {
    hide Inv, Next, Enabled, WellTyped;
    if es == [] {
      TakenPhase(s, id);
    } else {
      InvKept(s, es[0]);
      ReportStep(s, es[0], id);
      assert Take !in es[1..];
      ReportsFrom(Next(s, es[0]), es[1..], id);
    }
  }

  lemma TakenPhase(s: Sys, id: nat)
    requires Inv(s) && id in s.taken
    ensures id < |s.jobs| && s.jobs[id].phase == Enqueued
  {
    hide Jobs, Order, Lifecycle, Distinct;
    var i :| 0 <= i < |s.taken| && s.taken[i] == id;
    assert s.enqueued[i] == id;
  }

  lemma ReportStep(s: Sys, e: Event, id: nat)
    requires Inv(s) && WellTyped(s) && Enabled(s, e) && e != Take && id < |s.jobs| && id in s.taken
    requires s.worker.Busy() ==> s.worker.id == id
    ensures var n := Next(s, e);
      && id < |n.jobs| && id in n.taken && (n.worker.Busy() ==> n.worker.id == id)
      && n.jobs[id].progress == if e.Progress? then Some(e.value) else s.jobs[id].progress
  {
    hide Inv, Next, Enabled, WellTyped;
    if OfClient(e) {
      ClientReport(s, e, id);
    } else if OfOwner(e) || OfQueue(e) {
      OwnerLeavesJobs(s, e);
      OwnerReport(s, e);
    } else {
      WorkerReport(s, e, id);
    }
  }

  lemma ClientReport(s: Sys, e: Event, id: nat)
    requires WellTyped(s) && Enabled(s, e) && OfClient(e) && id < |s.jobs|
    ensures var n := Next(s, e);
      id < |n.jobs| && n.jobs[id].progress == s.jobs[id].progress && n.taken == s.taken && n.worker == s.worker
  {
  }

  lemma OwnerReport(s: Sys, e: Event)
    requires Inv(s) && WellTyped(s) && Enabled(s, e) && (OfOwner(e) || OfQueue(e)) && e != Take
    ensures Next(s, e).taken == s.taken && (Next(s, e).worker.Busy() ==> Next(s, e).worker == s.worker)
  {
    hide Queues, Jobs, Order;
    OwnerKeepsHold(s, e);
  }

  lemma WorkerReport(s: Sys, e: Event, id: nat)
    requires WellTyped(s) && Enabled(s, e) && !OfOwner(e) && !OfClient(e) && !OfQueue(e) && id < |s.jobs|
    requires s.worker.Busy() ==> s.worker.id == id
    ensures var n := Next(s, e);
      && id < |n.jobs| && n.taken == s.taken && (n.worker.Busy() ==> n.worker.id == id)
      && n.jobs[id].progress == if e.Progress? then Some(e.value) else s.jobs[id].progress
  {
  }

  /** When the join returns, the jobs that are finished are exactly the ones the worker took: among them every job
      queued before the stop flag was set. */
  lemma ShutdownDrains(es: seq<Event>, p: nat)
    requires CanRun(START, es)
    ensures var s := After(START, es);
      s.owner in {Joined, Lowered} && p < |s.enqueued| ==>
        && s.stopAt <= |s.taken| && s.enqueued[p] < |s.jobs|
        && (p < |s.taken| <==> s.jobs[s.enqueued[p]].Terminal())
  {
    hide CanRun, After;
    RunsHoldInv(es);
    var s := After(START, es);
    if s.owner in {Joined, Lowered} && p < |s.enqueued| {
      assert JobOk(s, s.enqueued[p]);
      if p < |s.taken| {
        assert s.taken[p] == s.enqueued[p];
      } else {
        forall i | 0 <= i < |s.taken| ensures s.taken[i] != s.enqueued[p] { assert s.enqueued[i] != s.enqueued[p]; }
      }
    }
  }

  lemma StepThen(s: Sys, e: Event, rest: seq<Event>)
    requires WellTyped(s) && Enabled(s, e) && CanRun(Next(s, e), rest)
    ensures CanRun(s, [e] + rest) && After(s, [e] + rest) == After(Next(s, e), rest)
  {
    assert ([e] + rest)[1..] == rest;
  }

  /** After the worker has left: an accepted submit still queues its job. */
  lemma LateSubmit(s: Sys) returns (es: seq<Event>)
    requires s == START.(jobs := [NEW_JOB], worker := Exited, owner := Joined, running := true, stop := true)
    ensures CanRun(s, es)
    ensures After(s, es)
      == s.(owner := Down, running := false, jobs := [NEW_JOB.(phase := Enqueued)], queue := [0], enqueued := [0])
  {
    hide CanRun, After;
    var s1 := s.(jobs := [NEW_JOB.(phase := Registered)]);
    var s2 := s.(jobs := [NEW_JOB.(phase := Enqueued)], queue := [0], enqueued := [0]);
    var s3 := s2.(owner := Lowered, running := false);
    assert s.jobs[0 := NEW_JOB.(phase := Registered)] == s1.jobs
      && s1.jobs[0 := NEW_JOB.(phase := Enqueued)] == s2.jobs;
    assert s1.queue + [0] == [0];
    NoSteps(s3.(owner := Down));
    StepThen(s3, Close, []);
    StepThen(s2, Lower, [Close] + []);
    StepThen(s1, Enqueue(0), [Lower] + ([Close] + []));
    StepThen(s, Register(0), [Enqueue(0)] + ([Lower] + ([Close] + [])));
    es := [Register(0)] + ([Enqueue(0)] + ([Lower] + ([Close] + [])));
  }

  lemma NoSteps(s: Sys)
    ensures CanRun(s, []) && After(s, []) == s
  {
  }

  /** A submit that passed its check before shutdown but queued after the worker left: accepted, and never run. */
  lemma SubmitCanBeStranded() returns (es: seq<Event>)
    ensures CanRun(START, es)
    ensures var s := After(START, es); s.owner == Down && s.queue == [0] && s.jobs == [NEW_JOB.(phase := Enqueued)]
  {
    hide CanRun, After;
    var s1 := START.(owner := Cleared);
    var s2 := START.(owner := Spawned, worker := Idle);
    var s3 := s2.(owner := Up, running := true);
    es := CheckedThenStopped(s3);
    StepThen(s2, GoUp, es);
    es := [GoUp] + es;
    StepThen(s1, Spawn, es);
    es := [Spawn] + es;
    StepThen(START, ClearStop, es);
    es := [ClearStop] + es;
  }

  /** The submit passes its check, then the executor shuts down under it. */
  lemma CheckedThenStopped(s3: Sys) returns (es: seq<Event>)
    requires s3 == START.(owner := Up, worker := Idle, running := true)
    ensures CanRun(s3, es)
    ensures var s := After(s3, es); s.owner == Down && s.queue == [0] && s.jobs == [NEW_JOB.(phase := Enqueued)]
  {
    hide CanRun, After;
    var s4 := s3.(jobs := [NEW_JOB]);
    var s5 := s4.(owner := Stopping, stop := true);
    var s6 := s5.(worker := Exited);
    var s7 := s6.(owner := Joined);
    es := LateSubmit(s7);
    StepThen(s6, Join, es);
    StepThen(s5, Exit, [Join] + es);
    es := [Exit] + ([Join] + es);
    StepThen(s4, SetStop, es);
    es := [SetStop] + es;
    assert [] + [NEW_JOB] == [NEW_JOB];
    StepThen(s3, Check, es);
    es := [Check] + es;
  }

  // ------------------------------------------------------------- progress

  function Rank(w: Worker): nat {
    match w
    case NoWorker => 0
    case Exited => 0
    case Idle => 1
    case Got(_) => 10
    case Starting(_) => 9
    case Opening(_) => 8
    case InTask(_) => 7
    case Returned(_, _) => 6
    case Finishing(_, _) => 5
    case Published(_) => 4
    case Threw(_, _) => 4
    case Reported(_) => 3
    case Cancelling(_) => 3
  }

  /** Worker sections left before everything queued is finished, at most. */
  function Work(s: Sys): nat {
    11 * |s.queue| + Rank(s.worker)
  }

  /** Whenever there is something to do a section of the worker is enabled, and all but a progress report reduce the
      work left: a shutdown's join waits for task bodies only. */
  lemma WorkerMoves(s: Sys)
    requires Inv(s) && s.worker !in {NoWorker, Exited} && (s.worker.Busy() || s.queue != [] || s.stop)
    ensures exists e ::
      !OfOwner(e) && !OfClient(e) && e != IdleClose && WellTyped(s) && Enabled(s, e) && Work(Next(s, e)) < Work(s)
  {
    hide Jobs, Order, Next, Work, Queues;
    InvTypes(s);
    var e := match s.worker
      case Got(_) => CheckBefore
      case Starting(_) => SetRunning
      case Opening(_) => Open(true)
      case InTask(_) => Return("")
      case Returned(_, _) => CheckAfter
      case Finishing(_, _) => SetResult
      case Published(_) => SetComplete
      case Threw(_, _) => SetError
      case Reported(_) => SetFailed
      case Cancelling(_) => SetCancelled
      case _ => if s.queue != [] then Take else Exit;
    assert Enabled(s, e) && !e.Progress?;
    WorkShrinks(s, e);
  }

  /** Starting the worker and queuing a task add work, a progress report and closing idle hardware leave it as it is,
      and every other step of the worker takes some away. */
  lemma WorkShrinks(s: Sys, e: Event)
    requires WellTyped(s) && Enabled(s, e) && (s.owner == Cleared ==> s.worker in {NoWorker, Exited})
    ensures Work(Next(s, e)) <= Work(s) + (if e == Spawn then 1 else if e.Enqueue? then 11 else 0)
    ensures e == Spawn || e.Enqueue? ==> Work(Next(s, e)) > Work(s)
    ensures e.Progress? || e == IdleClose ==> Work(Next(s, e)) == Work(s)
    ensures !OfOwner(e) && !OfClient(e) && e != IdleClose && !e.Progress? ==> Work(Next(s, e)) < Work(s)
  {
    hide Next, Enabled, WellTyped, Work;
    if OfOwner(e) { OwnerWork(s, e); }
    else if OfClient(e) { ClientWork(s, e); }
    else if OfQueue(e) { QueueWork(s, e); }
    else { WorkerWork(s, e); }
  }

  lemma OwnerWork(s: Sys, e: Event)
    requires WellTyped(s) && Enabled(s, e) && (s.owner == Cleared ==> s.worker in {NoWorker, Exited}) && OfOwner(e)
    ensures Work(Next(s, e)) == Work(s) + if e == Spawn then 1 else 0
  {
  }

  lemma ClientWork(s: Sys, e: Event)
    requires WellTyped(s) && Enabled(s, e) && OfClient(e)
    ensures Work(Next(s, e)) == Work(s) + if e.Enqueue? then 11 else 0
  {
  }

  lemma QueueWork(s: Sys, e: Event)
    requires WellTyped(s) && Enabled(s, e) && OfQueue(e)
    ensures if e == IdleClose then Work(Next(s, e)) == Work(s) else Work(Next(s, e)) < Work(s)
  {
  }

  lemma WorkerWork(s: Sys, e: Event)
    requires WellTyped(s) && Enabled(s, e) && !OfOwner(e) && !OfClient(e) && !OfQueue(e)
    ensures if e.Progress? then Work(Next(s, e)) == Work(s) else Work(Next(s, e)) < Work(s)
  {
  }
}
