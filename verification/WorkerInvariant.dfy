/** What every step of the worker protocol keeps. */
module WorkerInvariant {
  import opened Worker
  import opened Options

  // ---------------------------------------------------------------- control

  predicate StopPhase(pc: CallPc) {
    pc.StopRaise? || pc.StopEnter? || Quiesced(pc) || pc.StopLower? || pc.StopWake?
  }

  predicate Quiesced(pc: CallPc) {
    pc.StopWait? || pc.StopNotify? || pc.StopJoin? || pc.StopFire?
  }

  predicate Unfired(w: WorkerPc) {
    w.Sizing? || w.Reading? || w.Decoding?
  }

  predicate Occupied(w: WorkerPc) {
    Unfired(w) || w.InCallback? || w.Clearing?
  }

  function StopPc(s: State): CallPc {
    if s.stopper.Some? && s.stopper.value < |s.calls| then s.calls[s.stopper.value].pc else Returned
  }

  /** `busy_` and `busy_depot_` say exactly what the worker has in hand. */
  predicate BusyOk(s: State) {
    && s.busy == Occupied(s.worker)
    && s.busyDepot == (if Occupied(s.worker) then Some(s.worker.job.depot) else None)
  }

  predicate StopperOk(s: State) {
    && (s.stopper.Some? ==> s.stopper.value < |s.calls|)
    && forall i :: 0 <= i < |s.calls| ==> (StopPhase(s.calls[i].pc) <==> s.stopper == Some(i))
  }

  predicate QuiesceOk(s: State) {
    && (s.quiescing <==> Quiesced(StopPc(s)))
    && (s.quiescing ==> s.queue == [])
  }

  predicate ThreadOk(s: State) {
    && (s.queue != [] ==> s.joinable)
    && (s.worker.Exited? ==> s.quiescing)
    && (s.worker.Sleeping? ==> !s.quiescing)
    && match StopPc(s)
       case StopNotify(joins, _) => !s.joinable && !s.busy && (joins <==> !s.worker.NoThread?)
       case StopJoin(joins, _) => !s.joinable && !s.busy && (joins <==> !s.worker.NoThread?)
       case StopFire(_) => !s.joinable && s.worker.NoThread?
       case _ => s.joinable <==> !s.worker.NoThread?
  }

  /** Calls made on the worker thread are made from its callback and never wait. */
  predicate CallsOk(s: State) {
    forall i :: 0 <= i < |s.calls| && s.calls[i].onWorker && !s.calls[i].pc.Returned? ==>
      && s.worker.InCallback?
      && (s.calls[i].pc.PostNotify? || s.calls[i].pc.CloseEnter? || s.calls[i].pc.CloseFire?)
  }

  /** A call made from a cancellation callback is younger than the call that fired it and runs on
      the same thread. */
  predicate NestOk(s: State) {
    forall i :: 0 <= i < |s.calls| && s.calls[i].caller.FromCancellation? ==>
      && s.calls[i].caller.parent < i
      && s.calls[i].onWorker == s.calls[s.calls[i].caller.parent].onWorker
  }

  predicate Control(s: State) {
    BusyOk(s) && StopperOk(s) && QuiesceOk(s) && ThreadOk(s) && CallsOk(s)
  }

  // ---------------------------------------------------------------- sleepers

  /** A call asleep on `done_` whose predicate holds is owed a notification by the worker. */
  predicate SleepersOk(s: State) {
    forall i :: i in s.asleep ==>
      && i < |s.calls|
      && Waiting(s.calls[i].pc)
      && (WaitOver(s, s.calls[i].pc) ==> s.worker.Notifying?)
  }

  predicate OwesNotify(s: State, i: nat) {
    i < |s.calls| && s.calls[i].pc.PostNotify?
  }

  /** A worker asleep on `cv_` whose predicate holds is owed a notification by a poster. */
  ghost predicate WorkerSleepOk(s: State) {
    s.worker.Sleeping? && s.queue != [] ==> exists i: nat :: OwesNotify(s, i)
  }

  // ---------------------------------------------------------------- depots

  predicate NoneNames(jobs: seq<Job>, d: DepotId) {
    forall k :: 0 <= k < |jobs| ==> jobs[k].depot != d
  }

  /** Past its purge a close finds no queued job of its depot; past its wait, no read of it. */
  predicate CloseOk(s: State, pc: CallPc) {
    && (pc.CloseEnter? || pc.CloseWait? || pc.CloseFire? ==> pc.depot in s.closing)
    && (pc.CloseWait? || pc.CloseFire? ==> NoneNames(s.queue, pc.depot))
    && (pc.CloseFire? && Unfired(s.worker) ==> s.worker.job.depot != pc.depot)
  }

  predicate DepotsOk(s: State) {
    && s.deleted <= s.closing
    && (forall k :: 0 <= k < |s.queue| ==> s.queue[k].depot !in s.deleted)
    && (Unfired(s.worker) ==> s.worker.job.depot !in s.deleted)
    && (forall i :: 0 <= i < |s.calls| ==> CloseOk(s, s.calls[i].pc))
  }

  // ---------------------------------------------------------------- abort flag

  predicate Raised(pc: CallPc) {
    pc.StopEnter? || Quiesced(pc) || pc.StopLower?
  }

  /** Unless a cancel_for clears it, the flag a shutdown raised stays up until the shutdown lowers
      it, and no more than the decode already begun finishes meanwhile. */
  predicate AbortOk(s: State) {
    Raised(StopPc(s)) && s.abortIntact ==>
      s.abort && s.lateDecodes + (if s.worker.Decoding? then 1 else 0) <= 1
  }

  // ---------------------------------------------------------------- jobs

  function Dropped(pc: CallPc): seq<Job> {
    match pc
    case StopWait(js) => js
    case StopNotify(_, js) => js
    case StopJoin(_, js) => js
    case StopFire(js) => js
    case CloseWait(_, js) => js
    case CloseFire(_, js) => js
    case _ => []
  }

  function Count(jobs: seq<Job>, j: Job): nat {
    if jobs == [] then 0 else (if jobs[0] == j then 1 else 0) + Count(jobs[1..], j)
  }

  /** How often a job stands in the lists that calls have taken off the queue and not yet reported. */
  function CountDropped(calls: seq<Call>, j: Job): nat {
    if calls == [] then 0
    else CountDropped(calls[..|calls| - 1], j) + Count(Dropped(calls[|calls| - 1].pc), j)
  }

  function CountInHand(w: WorkerPc, j: Job): nat {
    if Unfired(w) && w.job == j then 1 else 0
  }

  function Held(s: State, j: Job): nat {
    Count(s.queue, j) + CountInHand(s.worker, j) + CountDropped(s.calls, j) + Count(s.fired, j)
  }

  /** Every accepted job is in exactly one place: conservation, with distinct ids. */
  ghost predicate JobsOk(s: State) {
    && (forall k :: 0 <= k < |s.accepted| ==> s.accepted[k].id == k)
    && forall j :: Held(s, j) == Count(s.accepted, j)
  }

  predicate Safe(s: State) {
    Control(s) && SleepersOk(s) && DepotsOk(s) && AbortOk(s)
  }

  ghost predicate Inv(s: State) {
    Safe(s) && NestOk(s) && WorkerSleepOk(s) && JobsOk(s)
  }

  // ---------------------------------------------------------------- lemmas on the purge and the lists

  lemma {:induction false} PurgeSplits(jobs: seq<Job>, d: DepotId)
    ensures NoneNames(NotNaming(jobs, d), d)
    ensures forall j :: j in Naming(jobs, d) ==> j.depot == d
    ensures forall j :: j in NotNaming(jobs, d) ==> j in jobs
  {
    if jobs != [] {
      PurgeSplits(jobs[1..], d);
    }
  }

  // ---------------------------------------------------------------- one step of a stop call

  lemma StopEnterKeepsControl(s: State, i: nat)
    requires Control(s) && AbortOk(s) && i < |s.calls| && s.calls[i].pc.StopEnter?
    ensures Control(StopEnterStep(s, i)) && AbortOk(StopEnterStep(s, i))
  {
  }

  lemma StopEnterKeepsSafe(s: State, i: nat)
    requires Safe(s) && Live(s, i) && s.calls[i].pc.StopEnter?
    ensures Safe(DoCallStep(s, i))
  {
    StopEnterKeepsControl(s, i);
  }

  lemma StopWaitKeepsSafe(s: State, i: nat)
    requires Safe(s) && Live(s, i) && i !in s.asleep && s.calls[i].pc.StopWait?
    ensures Safe(DoCallStep(s, i))
  {
  }

  lemma StopFireKeepsSafe(s: State, i: nat)
    requires Safe(s) && Live(s, i) && s.calls[i].pc.StopFire?
    ensures Safe(DoCallStep(s, i))
  {
  }

  lemma StopFlagKeepsSafe(s: State, i: nat)
    requires Safe(s) && Live(s, i) && (s.calls[i].pc.StopRaise? || s.calls[i].pc.StopLower?)
    ensures Safe(DoCallStep(s, i))
  {
  }

  lemma StopNotifyKeepsSafe(s: State, i: nat)
    requires Safe(s) && Live(s, i) && (s.calls[i].pc.StopNotify? || s.calls[i].pc.StopWake?)
    ensures Safe(DoCallStep(s, i))
  {
  }

  // ---------------------------------------------------------------- one step of any other call

  /** What a step of a post, drain or close call leaves alone. */
  predicate Beside(s: State, t: State, i: nat) {
    && i < |s.calls| && |t.calls| == |s.calls|
    && t.calls == s.calls[i := t.calls[i]]
    && t.calls[i].caller == s.calls[i].caller && t.calls[i].onWorker == s.calls[i].onWorker
    && !StopPhase(s.calls[i].pc) && !StopPhase(t.calls[i].pc)
    && t.joinable == s.joinable && t.quiescing == s.quiescing && t.stopper == s.stopper
    && t.busy == s.busy && t.busyDepot == s.busyDepot
    && (t.worker == s.worker || (s.worker.Sleeping? && t.worker.Checking?))
    && (t.queue != [] ==> s.queue != [])
    && (t.calls[i].onWorker ==> !s.calls[i].pc.Returned?)
    && (t.calls[i].onWorker ==>
          t.calls[i].pc.Returned? || t.calls[i].pc.PostNotify? || t.calls[i].pc.CloseFire?)
    && t.lateDecodes == s.lateDecodes && (t.abortIntact ==> s.abortIntact && (s.abort ==> t.abort))
  }

  lemma BesideKeepsControl(s: State, t: State, i: nat)
    requires Control(s) && AbortOk(s) && Beside(s, t, i)
    ensures Control(t) && AbortOk(t)
  {
    assert forall k :: 0 <= k < |s.calls| && k != i ==> t.calls[k] == s.calls[k];
    assert StopPc(t) == StopPc(s);
  }

  lemma PostNotifyKeepsSafe(s: State, i: nat)
    requires Safe(s) && Live(s, i) && s.calls[i].pc.PostNotify?
    ensures Safe(DoCallStep(s, i))
  {
    BesideKeepsControl(s, DoCallStep(s, i), i);
  }

  lemma DrainOverKeepsSafe(s: State, i: nat)
    requires Safe(s) && Live(s, i) && i !in s.asleep && s.calls[i].pc.DrainWait?
    ensures Safe(At(s, i, Returned))
  {
    BesideKeepsControl(s, At(s, i, Returned), i);
  }

  lemma DrainWaitKeepsSafe(s: State, i: nat)
    requires Safe(s) && Live(s, i) && i !in s.asleep && s.calls[i].pc.DrainWait?
    ensures Safe(DoCallStep(s, i))
  {
    if WaitOver(s, DrainWait) {
      DrainOverKeepsSafe(s, i);
    }
  }

  lemma CloseEnterKeepsDepots(s: State, t: State, i: nat, d: DepotId)
    requires Control(s) && DepotsOk(s) && Live(s, i) && s.calls[i].pc == CloseEnter(d)
    requires t.queue == NotNaming(s.queue, d) && t.closing == s.closing && t.deleted == s.deleted
    requires Unfired(t.worker) ==> t.worker == s.worker
    requires |t.calls| == |s.calls| && forall k :: 0 <= k < |s.calls| && k != i ==> t.calls[k] == s.calls[k]
    requires t.calls[i].pc.CloseWait? || (t.calls[i].pc.CloseFire? && (Unfired(s.worker) ==> s.worker.job.depot != d))
    requires t.calls[i].pc.depot == d
    ensures DepotsOk(t)
  {
    PurgeSplits(s.queue, d);
    assert CloseOk(s, s.calls[i].pc);
    assert forall k :: 0 <= k < |t.queue| ==> t.queue[k] in s.queue;
    forall k | 0 <= k < |t.calls| && k != i
      ensures CloseOk(t, t.calls[k].pc)
    {
      assert CloseOk(s, s.calls[k].pc);
    }
  }

  /** The purge may empty the queue, but while the worker is busy no wait ends by that. */
  lemma CloseEnterWaitsSleepers(s: State, t: State, i: nat, d: DepotId)
    requires SleepersOk(s) && Live(s, i) && s.calls[i].pc == CloseEnter(d)
    requires s.busy && t.busy && t.busyDepot == s.busyDepot == Some(d)
    requires |t.calls| == |s.calls| && forall k :: 0 <= k < |s.calls| && k != i ==> t.calls[k] == s.calls[k]
    requires t.calls[i].pc.CloseWait? && t.calls[i].pc.depot == d && t.asleep == s.asleep + {i}
    requires s.worker.Notifying? ==> t.worker.Notifying?
    ensures SleepersOk(t)
  {
    forall k | k in t.asleep && k != i
      ensures k < |t.calls| && Waiting(t.calls[k].pc) && (WaitOver(t, t.calls[k].pc) ==> t.worker.Notifying?)
    {
      assert k in s.asleep && t.calls[k] == s.calls[k];
    }
  }

  lemma CloseEnterKeepsSleepers(s: State, i: nat, d: DepotId)
    requires SleepersOk(s) && Live(s, i) && s.calls[i].pc == CloseEnter(d)
    ensures SleepersOk(CloseEnterStep(s, i, d))
  {
    if !s.calls[i].onWorker && s.busy && s.busyDepot == Some(d) {
      CloseEnterWaitsSleepers(s, CloseEnterStep(s, i, d), i, d);
    }
  }

  lemma CloseEnterWaitsBeside(s: State, i: nat, d: DepotId, dropped: seq<Job>, rest: seq<Job>)
    requires CallsOk(s) && Live(s, i) && s.calls[i].pc == CloseEnter(d) && !s.calls[i].onWorker
    requires rest != [] ==> s.queue != []
    ensures var t := At(WakeWorker(s.(queue := rest, abort := true)), i, CloseWait(d, dropped));
      Beside(s, t.(asleep := s.asleep + {i}), i)
  {
  }

  lemma CloseEnterPassesBeside(s: State, i: nat, d: DepotId, dropped: seq<Job>, rest: seq<Job>)
    requires CallsOk(s) && Live(s, i) && s.calls[i].pc == CloseEnter(d)
    requires rest != [] ==> s.queue != []
    ensures Beside(s, At(WakeDone(s.(queue := rest)), i, CloseFire(d, dropped)), i)
  {
  }

  lemma CloseEnterStandsBeside(s: State, i: nat, d: DepotId)
    requires CallsOk(s) && Live(s, i) && s.calls[i].pc == CloseEnter(d)
    ensures Beside(s, CloseEnterStep(s, i, d), i)
  {
    if !s.calls[i].onWorker {
      CloseEnterWaitsBeside(s, i, d, Naming(s.queue, d), NotNaming(s.queue, d));
    }
    CloseEnterPassesBeside(s, i, d, Naming(s.queue, d), NotNaming(s.queue, d));
  }

  lemma CloseEnterKeepsSafe(s: State, i: nat)
    requires Safe(s) && Live(s, i) && s.calls[i].pc.CloseEnter?
    ensures Safe(DoCallStep(s, i))
  {
    var d := s.calls[i].pc.depot;
    CloseEnterSafe(s, i, d, CloseEnterStep(s, i, d));
  }

  lemma CloseEnterSafe(s: State, i: nat, d: DepotId, t: State)
    requires Safe(s) && Live(s, i) && s.calls[i].pc == CloseEnter(d) && t == CloseEnterStep(s, i, d)
    ensures Safe(t)
  {
    CloseEnterKeepsSleepers(s, i, d);
    CloseEnterDepots(s, i, d);
    CloseEnterStandsBeside(s, i, d);
    BesideKeepsControl(s, t, i);
  }

  lemma CloseEnterDepots(s: State, i: nat, d: DepotId)
    requires Control(s) && DepotsOk(s) && Live(s, i) && s.calls[i].pc == CloseEnter(d)
    ensures DepotsOk(CloseEnterStep(s, i, d))
  {
    CloseEnterKeepsDepots(s, CloseEnterStep(s, i, d), i, d);
  }

  /** The wait of a close is over: the flag falls and the waiters wake. */
  lemma CloseWaitOverKeepsSafe(s: State, i: nat)
    requires Safe(s) && Live(s, i) && s.calls[i].pc.CloseWait? && WaitOver(s, s.calls[i].pc)
    ensures Safe(DoCallStep(s, i))
  {
    assert CloseOk(s, s.calls[i].pc);
    BesideKeepsControl(s, DoCallStep(s, i), i);
  }

  lemma CloseWaitKeepsSafe(s: State, i: nat)
    requires Safe(s) && Live(s, i) && i !in s.asleep && s.calls[i].pc.CloseWait?
    ensures Safe(DoCallStep(s, i))
  {
    if WaitOver(s, s.calls[i].pc) {
      CloseWaitOverKeepsSafe(s, i);
    }
  }

  lemma DeleteKeepsDepots(s: State, i: nat, d: DepotId)
    requires DepotsOk(s) && i < |s.calls| && s.calls[i].pc == CloseFire(d, [])
    ensures DepotsOk(At(s.(deleted := s.deleted + {d}), i, Returned))
  {
    assert CloseOk(s, s.calls[i].pc);
  }

  lemma CancelKeepsDepots(s: State, i: nat, d: DepotId, dropped: seq<Job>)
    requires DepotsOk(s) && i < |s.calls| && s.calls[i].pc == CloseFire(d, dropped) && dropped != []
    ensures DepotsOk(Cancel(s, i, dropped[0], CloseFire(d, dropped[1..])))
  {
    assert CloseOk(s, s.calls[i].pc);
  }

  /** A step of a firing close wakes nobody and moves nothing but its own list and the logs. */
  lemma CloseFireStandsBeside(s: State, t: State, i: nat, pc: CallPc)
    requires Live(s, i) && s.calls[i].pc.CloseFire? && (pc.Returned? || pc.CloseFire?)
    requires t == At(s.(fired := t.fired, deleted := t.deleted), i, pc)
    ensures Beside(s, t, i)
  {
  }

  lemma CloseFireKeepsSleepers(s: State, t: State, i: nat, pc: CallPc)
    requires SleepersOk(s) && Live(s, i) && s.calls[i].pc.CloseFire?
    requires t == At(s.(fired := t.fired, deleted := t.deleted), i, pc)
    ensures SleepersOk(t)
  {
    assert i !in s.asleep;
  }

  lemma CloseFireKeepsRest(s: State, t: State, i: nat, pc: CallPc)
    requires Safe(s) && Live(s, i) && s.calls[i].pc.CloseFire? && (pc.Returned? || pc.CloseFire?)
    requires t == At(s.(fired := t.fired, deleted := t.deleted), i, pc)
    ensures Control(t) && AbortOk(t) && SleepersOk(t)
  {
    CloseFireStandsBeside(s, t, i, pc);
    BesideKeepsControl(s, t, i);
    CloseFireKeepsSleepers(s, t, i, pc);
  }

  lemma CloseFireKeepsSafe(s: State, i: nat)
    requires Safe(s) && Live(s, i) && s.calls[i].pc.CloseFire?
    ensures Safe(DoCallStep(s, i))
  {
    var t, d, dropped := DoCallStep(s, i), s.calls[i].pc.depot, s.calls[i].pc.dropped;
    if dropped == [] {
      DeleteKeepsDepots(s, i, d);
      CloseFireKeepsRest(s, t, i, Returned);
    } else {
      CancelKeepsDepots(s, i, d, dropped);
      CloseFireKeepsRest(s, t, i, CloseFire(d, dropped[1..]));
    }
  }

  lemma CallKeepsSafe(s: State, i: nat)
    requires Safe(s) && Enabled(s, CallStep(i))
    ensures Safe(Apply(s, CallStep(i)))
  {
    match s.calls[i].pc
    case PostNotify => PostNotifyKeepsSafe(s, i);
    case DrainWait => DrainWaitKeepsSafe(s, i);
    case StopRaise => StopFlagKeepsSafe(s, i);
    case StopEnter => StopEnterKeepsSafe(s, i);
    case StopWait(_) => StopWaitKeepsSafe(s, i);
    case StopNotify(_, _) => StopNotifyKeepsSafe(s, i);
    case StopJoin(_, _) =>
    case StopFire(_) => StopFireKeepsSafe(s, i);
    case StopLower => StopFlagKeepsSafe(s, i);
    case StopWake => StopNotifyKeepsSafe(s, i);
    case CloseEnter(_) => CloseEnterKeepsSafe(s, i);
    case CloseWait(_, _) => CloseWaitKeepsSafe(s, i);
    case CloseFire(_, _) => CloseFireKeepsSafe(s, i);
  }

  // ---------------------------------------------------------------- one step of the worker

  lemma ReadingKeepsSafe(s: State, ok: bool)
    requires Safe(s) && (s.worker.Reading? || s.worker.Sizing?)
    ensures Safe(DoWorkerStep(s, ok))
  {
  }

  lemma DecodingKeepsSafe(s: State, ok: bool)
    requires Safe(s) && s.worker.Decoding?
    ensures Safe(DoWorkerStep(s, ok))
  {
  }

  lemma FinishingKeepsSafe(s: State, ok: bool)
    requires Safe(s) && (s.worker.InCallback? || s.worker.Clearing? || s.worker.Notifying?)
    requires s.worker.InCallback? ==> WorkerStackEmpty(s)
    ensures Safe(DoWorkerStep(s, ok))
  {
    assert forall i: nat :: i < |s.calls| && !s.calls[i].pc.Returned? ==> Live(s, i);
  }

  lemma WorkerKeepsSafe(s: State, ok: bool)
    requires Safe(s) && Enabled(s, WorkerStep(ok))
    ensures Safe(Apply(s, WorkerStep(ok)))
  {
    match s.worker
    case Checking =>
    case Sizing(_) => ReadingKeepsSafe(s, ok);
    case Reading(_, _) => ReadingKeepsSafe(s, ok);
    case Decoding(_, _) => DecodingKeepsSafe(s, ok);
    case InCallback(_) => FinishingKeepsSafe(s, ok);
    case Clearing(_) => FinishingKeepsSafe(s, ok);
    case Notifying => FinishingKeepsSafe(s, ok);
  }

  // ---------------------------------------------------------------- what clients start

  /** A call that has just begun disturbs nothing but the depot it closes. */
  lemma BeginKeepsSafe(s: State, c: Caller, pc: CallPc)
    requires Safe(s) && CallerReady(s, c)
    requires !StopPhase(pc) && (RunsOnWorker(s, c) ==> pc.CloseEnter? || pc.PostNotify?) && Dropped(pc) == []
    requires CloseOk(s, pc)
    ensures Safe(Begin(s, c, pc))
  {
    var t := Begin(s, c, pc);
    assert forall i :: 0 <= i < |s.calls| ==> t.calls[i] == s.calls[i] && CloseOk(s, s.calls[i].pc);
    assert StopPc(t) == StopPc(s);
    assert RunsOnWorker(s, c) ==> s.worker.InCallback?;
    assert CallsOk(t);
  }

  lemma RefusedSpawnChangesNothing(s: State, c: Caller, d: DepotId, n: nat)
    requires !s.joinable
    ensures DoPost(s, c, d, n, true) == s
  {
    if !s.quiescing {
      assert (s.queue + [Job(|s.accepted|, d, n)])[..|s.queue|] == s.queue;
    }
  }

  lemma PostKeepsSafe(s: State, c: Caller, d: DepotId, n: nat, fails: bool)
    requires Safe(s) && Enabled(s, Post(c, d, n, fails))
    ensures Safe(DoPost(s, c, d, n, fails))
  {
    if s.quiescing {
    } else if !s.joinable && fails {
      RefusedSpawnChangesNothing(s, c, d, n);
    } else {
      var job := Job(|s.accepted|, d, n);
      var queued := s.(queue := s.queue + [job], accepted := s.accepted + [job], joinable := true,
                       worker := if s.joinable then s.worker else Checking);
      assert forall i :: 0 <= i < |s.calls| ==> CloseOk(s, s.calls[i].pc);
      assert Control(queued);
      assert DepotsOk(queued);
      BeginKeepsSafe(queued, c, PostNotify);
    }
  }

  lemma ShutdownKeepsSafe(s: State, c: Caller)
    requires Safe(s) && Enabled(s, Shutdown(c))
    ensures Safe(DoShutdown(s, c))
  {
  }

  lemma MarkedKeepsSafe(s: State, d: DepotId)
    requires Safe(s)
    ensures Safe(s.(closing := s.closing + {d}))
  {
    assert forall i :: 0 <= i < |s.calls| ==> CloseOk(s, s.calls[i].pc);
  }

  lemma CloseDepotKeepsSafe(s: State, c: Caller, d: DepotId)
    requires Safe(s) && Enabled(s, CloseDepot(c, d))
    ensures Safe(Apply(s, CloseDepot(c, d)))
  {
    MarkedKeepsSafe(s, d);
    BeginKeepsSafe(s.(closing := s.closing + {d}), c, CloseEnter(d));
  }

  lemma KeepsSafe(s: State, a: Action)
    requires Safe(s) && Enabled(s, a)
    ensures Safe(Apply(s, a))
  {
    match a
    case Post(c, d, n, fails) => PostKeepsSafe(s, c, d, n, fails);
    case Drain(c) =>
      if !RunsOnWorker(s, c) {
        BeginKeepsSafe(s, c, DrainWait);
      }
    case Shutdown(c) => ShutdownKeepsSafe(s, c);
    case CloseDepot(c, d) => CloseDepotKeepsSafe(s, c, d);
    case SpuriousWorker =>
    case SpuriousCall(_) =>
    case CallStep(i) => CallKeepsSafe(s, i);
    case WorkerStep(ok) => WorkerKeepsSafe(s, ok);
  }
}
