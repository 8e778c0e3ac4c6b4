/** The asynchronous read worker of src/api.cpp as a state machine.

    One mutex guards every field, so each critical section is one step; a thread that waits on a
    condition variable is either awake (it will take the lock and test its predicate) or asleep
    (only a notification or a spurious wakeup moves it). Notifications sent after the lock is
    released, the unlocked stores to the abort flag, the reads and the callbacks are steps of
    their own, so every interleaving the source allows is a run of this model. */
module Worker {
  import opened Options

  type DepotId = nat

  /** A queued read. `id` is the position in the order of acceptance, `segments` the number of
      segments of the part it names; an archive is immutable, so that number is fixed. */
  datatype Job = Job(id: nat, depot: DepotId, segments: nat)

  /** Who made a call: a client thread of its own, the completion callback that the worker is
      running, or a cancellation callback fired by an earlier call. */
  datatype Caller = Client | FromCompletion | FromCancellation(parent: nat)

  /** Where a call stands. Drain, the two waits of stop and cancel_for, and the lists of jobs that
      those two have taken off the queue but not yet reported. */
  datatype CallPc =
    | PostNotify
    | DrainWait
    | StopRaise
    | StopEnter
    | StopWait(dropped: seq<Job>)
    | StopNotify(joins: bool, dropped: seq<Job>)
    | StopJoin(joins: bool, dropped: seq<Job>)
    | StopFire(dropped: seq<Job>)
    | StopLower
    | StopWake
    | CloseEnter(depot: DepotId)
    | CloseWait(depot: DepotId, dropped: seq<Job>)
    | CloseFire(depot: DepotId, dropped: seq<Job>)
    | Returned

  datatype Call = Call(pc: CallPc, caller: Caller, onWorker: bool)

  /** Where the worker thread stands; `Exited` is a thread that has returned and is not joined. */
  datatype WorkerPc =
    | NoThread
    | Checking
    | Sleeping
    | Sizing(job: Job)
    | Reading(job: Job, left: nat)
    | Decoding(job: Job, left: nat)
    | InCallback(job: Job)
    | Clearing(job: Job)
    | Notifying
    | Exited

  /** The fields of the source's class, the program counters, and history: the jobs accepted and
      reported so far, the depots whose close has begun or ended, the one shutdown in progress,
      and the decodes finished since that shutdown raised the abort flag. */
  datatype State = State(
    queue: seq<Job>,
    joinable: bool,
    quiescing: bool,
    busy: bool,
    busyDepot: Option<DepotId>,
    abort: bool,
    worker: WorkerPc,
    calls: seq<Call>,
    asleep: set<nat>,
    accepted: seq<Job>,
    fired: seq<Job>,
    closing: set<DepotId>,
    deleted: set<DepotId>,
    stopper: Option<nat>,
    lateDecodes: nat,
    abortIntact: bool)

  const Init: State :=
    State([], false, false, false, None, false, NoThread, [], {}, [], [], {}, {}, None, 0, false)

  datatype Action =
    | Post(caller: Caller, depot: DepotId, segments: nat, spawnFails: bool)
    | Drain(caller: Caller)
    | Shutdown(caller: Caller)
    | CloseDepot(caller: Caller, depot: DepotId)
    | SpuriousWorker
    | SpuriousCall(i: nat)
    | CallStep(i: nat)
    | WorkerStep(succeeds: bool)

  // ---------------------------------------------------------------- the queue purge of cancel_for

  function Naming(jobs: seq<Job>, d: DepotId): seq<Job> {
    if jobs == [] then []
    else if jobs[0].depot == d then [jobs[0]] + Naming(jobs[1..], d)
    else Naming(jobs[1..], d)
  }

  function NotNaming(jobs: seq<Job>, d: DepotId): seq<Job> {
    if jobs == [] then []
    else if jobs[0].depot == d then NotNaming(jobs[1..], d)
    else [jobs[0]] + NotNaming(jobs[1..], d)
  }

  // ---------------------------------------------------------------- guards

  predicate Live(s: State, i: nat) {
    i < |s.calls| && !s.calls[i].pc.Returned?
  }

  ghost predicate HasLiveChild(s: State, i: nat) {
    exists k: nat :: Live(s, k) && s.calls[k].caller == FromCancellation(i)
  }

  ghost predicate WorkerStackEmpty(s: State) {
    forall k: nat :: Live(s, k) ==> !s.calls[k].onWorker
  }

  predicate RunsOnWorker(s: State, c: Caller) {
    match c
    case Client => false
    case FromCompletion => true
    case FromCancellation(p) => p < |s.calls| && s.calls[p].onWorker
  }

  /** A callback exists to make the call from. */
  predicate CallerReady(s: State, c: Caller) {
    match c
    case Client => true
    case FromCompletion => s.worker.InCallback?
    case FromCancellation(p) => p < |s.calls| && (s.calls[p].pc.StopFire? || s.calls[p].pc.CloseFire?)
  }

  /** The predicate a call waits for on `done_`. */
  predicate WaitOver(s: State, pc: CallPc) {
    match pc
    case DrainWait => s.queue == [] && !s.busy
    case StopWait(_) => !s.busy
    case CloseWait(d, _) => !s.busy || s.busyDepot != Some(d)
    case _ => true
  }

  predicate Waiting(pc: CallPc) {
    pc.DrainWait? || pc.StopWait? || pc.CloseWait?
  }

  /** The next step of call `i` takes cancel_for out of its wait, which clears the abort flag. */
  predicate LeavesWait(s: State, i: nat) {
    i < |s.calls| && s.calls[i].pc.CloseWait? && WaitOver(s, s.calls[i].pc)
  }

  /** The predicate the worker waits for on `cv_`. */
  predicate WorkReady(s: State) {
    s.quiescing || s.queue != []
  }

  ghost predicate Enabled(s: State, a: Action) {
    match a
    // No client posts against a depot whose close has begun.
    case Post(c, d, _, _) => CallerReady(s, c) && d !in s.closing
    case Drain(c) => CallerReady(s, c)
    // At most one shutdown is in progress; from the worker the call is refused anyway.
    case Shutdown(c) => CallerReady(s, c) && (RunsOnWorker(s, c) || s.stopper == None)
    case CloseDepot(c, d) => CallerReady(s, c) && d !in s.closing
    case SpuriousWorker => s.worker.Sleeping?
    case SpuriousCall(i) => i in s.asleep
    case CallStep(i) =>
      && Live(s, i) && i !in s.asleep
      && (s.calls[i].pc.StopFire? || s.calls[i].pc.CloseFire? ==> !HasLiveChild(s, i))
      && (s.calls[i].pc.StopJoin? && s.calls[i].pc.joins ==> s.worker.Exited?)
    case WorkerStep(_) =>
      && !s.worker.NoThread? && !s.worker.Sleeping? && !s.worker.Exited?
      && (s.worker.InCallback? ==> WorkerStackEmpty(s))
  }

  // ---------------------------------------------------------------- steps

  function At(s: State, i: nat, pc: CallPc): State
    requires i < |s.calls|
  {
    s.(calls := s.calls[i := s.calls[i].(pc := pc)])
  }

  /** Both condition variables: notify_all on `done_`, any notify on `cv_` (one thread waits there). */
  function WakeDone(s: State): State {
    s.(asleep := {})
  }

  function WakeWorker(s: State): State {
    s.(worker := if s.worker.Sleeping? then Checking else s.worker)
  }

  function Begin(s: State, c: Caller, pc: CallPc): State {
    s.(calls := s.calls + [Call(pc, c, RunsOnWorker(s, c))])
  }

  function DoPost(s: State, c: Caller, d: DepotId, segments: nat, spawnFails: bool): State {
    if s.quiescing then s
    else
      var job := Job(|s.accepted|, d, segments);
      var pushed := s.(queue := s.queue + [job]);
      if !s.joinable && spawnFails then
        pushed.(queue := pushed.queue[..|pushed.queue| - 1])
      else
        var started := if s.joinable then pushed else pushed.(joinable := true, worker := Checking);
        Begin(started.(accepted := s.accepted + [job]), c, PostNotify)
  }

  function DoShutdown(s: State, c: Caller): State {
    if RunsOnWorker(s, c) then s
    else Begin(s, c, StopRaise).(stopper := Some(|s.calls|))
  }

  /** The tail of stop's critical section: wait for the read in flight, or take the thread. */
  function StopTest(s: State, i: nat, dropped: seq<Job>): State
    requires i < |s.calls|
  {
    if s.busy then At(s, i, StopWait(dropped)).(asleep := s.asleep + {i})
    else At(s, i, StopNotify(s.joinable, dropped)).(joinable := false)
  }

  function StopEnterStep(s: State, i: nat): State
    requires i < |s.calls|
  {
    StopTest(WakeDone(WakeWorker(s.(quiescing := true, queue := []))), i, s.queue)
  }

  function CloseEnterStep(s: State, i: nat, d: DepotId): State
    requires i < |s.calls|
  {
    var dropped := Naming(s.queue, d);
    var purged := s.(queue := NotNaming(s.queue, d));
    if !s.calls[i].onWorker && s.busy && s.busyDepot == Some(d) then
      At(WakeWorker(purged.(abort := true)), i, CloseWait(d, dropped)).(asleep := s.asleep + {i})
    else
      At(WakeDone(purged), i, CloseFire(d, dropped))
  }

  function CloseWaitStep(s: State, i: nat, d: DepotId, dropped: seq<Job>): State
    requires i < |s.calls|
  {
    if WaitOver(s, CloseWait(d, dropped)) then
      At(WakeDone(s.(abort := false, abortIntact := false)), i, CloseFire(d, dropped))
    else s.(asleep := s.asleep + {i})
  }

  /** The cancellation callback of one job fires. */
  function Cancel(s: State, i: nat, job: Job, pc: CallPc): State
    requires i < |s.calls|
  {
    At(s.(fired := s.fired + [job]), i, pc)
  }

  function DoCallStep(s: State, i: nat): State
    requires Live(s, i)
  {
    match s.calls[i].pc
    case PostNotify => At(WakeWorker(s), i, Returned)
    case DrainWait =>
      if WaitOver(s, DrainWait) then At(s, i, Returned) else s.(asleep := s.asleep + {i})
    case StopRaise => At(s.(abort := true, abortIntact := true, lateDecodes := 0), i, StopEnter)
    case StopEnter => StopEnterStep(s, i)
    case StopWait(dropped) => StopTest(s, i, dropped)
    case StopNotify(joins, dropped) => At(WakeWorker(s), i, StopJoin(joins, dropped))
    case StopJoin(joins, dropped) =>
      At(if joins then s.(worker := NoThread) else s, i, StopFire(dropped))
    case StopFire(dropped) =>
      if dropped == [] then At(s.(quiescing := false), i, StopLower)
      else Cancel(s, i, dropped[0], StopFire(dropped[1..]))
    case StopLower => At(s.(abort := false), i, StopWake)
    case StopWake => At(WakeDone(s), i, Returned).(stopper := None)
    case CloseEnter(d) => CloseEnterStep(s, i, d)
    case CloseWait(d, dropped) => CloseWaitStep(s, i, d, dropped)
    case CloseFire(d, dropped) =>
      if dropped == [] then At(s.(deleted := s.deleted + {d}), i, Returned)
      else Cancel(s, i, dropped[0], CloseFire(d, dropped[1..]))
  }

  function Report(s: State, job: Job): State {
    s.(worker := InCallback(job), fired := s.fired + [job])
  }

  function WorkerCheck(s: State): State {
    if !WorkReady(s) then s.(worker := Sleeping)
    else if s.queue == [] then s.(worker := Exited)
    else
      var job := s.queue[0];
      s.(queue := s.queue[1..], busy := true, busyDepot := Some(job.depot), worker := Sizing(job))
  }

  /** `succeeds` is the outcome of the sizing pass, of the allocation, or of one segment decode. */
  function DoWorkerStep(s: State, succeeds: bool): State {
    match s.worker
    case Checking => WorkerCheck(s)
    case Sizing(job) =>
      if succeeds then s.(worker := Reading(job, job.segments)) else Report(s, job)
    case Reading(job, left) =>
      if left == 0 || s.abort then Report(s, job) else s.(worker := Decoding(job, left))
    case Decoding(job, left) =>
      var counted := s.(lateDecodes := s.lateDecodes + 1);
      if succeeds && left > 0 then counted.(worker := Reading(job, left - 1)) else Report(counted, job)
    case InCallback(job) => s.(worker := Clearing(job))
    case Clearing(_) => s.(busy := false, busyDepot := None, worker := Notifying)
    case Notifying => WakeDone(s).(worker := Checking)
    case _ => s
  }

  function Apply(s: State, a: Action): State {
    match a
    case Post(c, d, n, fails) => DoPost(s, c, d, n, fails)
    case Drain(c) => if RunsOnWorker(s, c) then s else Begin(s, c, DrainWait)
    case Shutdown(c) => DoShutdown(s, c)
    case CloseDepot(c, d) => Begin(s, c, CloseEnter(d)).(closing := s.closing + {d})
    case SpuriousWorker => WakeWorker(s)
    case SpuriousCall(i) => s.(asleep := s.asleep - {i})
    case CallStep(i) => if Live(s, i) then DoCallStep(s, i) else s
    case WorkerStep(succeeds) => DoWorkerStep(s, succeeds)
  }

  // ---------------------------------------------------------------- runs

  ghost predicate ValidRun(s: State, acts: seq<Action>)
    decreases |acts|
  {
    acts == [] || (Enabled(s, acts[0]) && ValidRun(Apply(s, acts[0]), acts[1..]))
  }

  function Exec(s: State, acts: seq<Action>): State
    decreases |acts|
  {
    if acts == [] then s else Exec(Apply(s, acts[0]), acts[1..])
  }

  ghost predicate Reachable(s: State) {
    exists acts :: ValidRun(Init, acts) && Exec(Init, acts) == s
  }
}
