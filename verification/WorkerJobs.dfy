/** Conservation of jobs and the worker's own wakeup, step by step, and the invariant over runs. */
module WorkerJobs {
  import opened Worker
  import opened WorkerInvariant
  import opened Options

  // ---------------------------------------------------------------- counting

  lemma {:induction false} CountAppend(a: seq<Job>, b: seq<Job>, j: Job)
    ensures Count(a + b, j) == Count(a, j) + Count(b, j)
  {
    if a == [] {
      assert a + b == b;
    } else {
      assert (a + b)[1..] == a[1..] + b;
      CountAppend(a[1..], b, j);
    }
  }

  lemma {:induction false} CountPurge(jobs: seq<Job>, d: DepotId, j: Job)
    ensures Count(jobs, j) == Count(Naming(jobs, d), j) + Count(NotNaming(jobs, d), j)
  {
    if jobs != [] {
      CountPurge(jobs[1..], d, j);
      if jobs[0].depot == d {
        CountAppend([jobs[0]], Naming(jobs[1..], d), j);
      } else {
        CountAppend([jobs[0]], NotNaming(jobs[1..], d), j);
      }
    }
  }

  lemma {:induction false} DroppedUpdate(calls: seq<Call>, i: nat, c: Call, j: Job)
    requires i < |calls|
    ensures CountDropped(calls[i := c], j) + Count(Dropped(calls[i].pc), j)
         == CountDropped(calls, j) + Count(Dropped(c.pc), j)
  {
    var n := |calls| - 1;
    if i < n {
      assert calls[i := c][..n] == calls[..n][i := c];
      DroppedUpdate(calls[..n], i, c, j);
    } else {
      assert calls[i := c][..n] == calls[..n];
    }
  }

  // ---------------------------------------------------------------- a step of one call

  /** The frame of a call's step: no other call changes, nothing is accepted, the worker keeps
      what it has in hand, and the only call that settles a debt to the worker wakes it. */
  predicate OnlyCall(s: State, t: State, i: nat) {
    && i < |s.calls| && |t.calls| == |s.calls|
    && t.calls == s.calls[i := s.calls[i].(pc := t.calls[i].pc)]
    && t.accepted == s.accepted
    && (t.worker == s.worker || (!Unfired(s.worker) && !Unfired(t.worker)))
    && (t.worker.Sleeping? ==> s.worker.Sleeping? && !s.calls[i].pc.PostNotify?)
    && (t.queue == s.queue || t.queue == [] || (s.calls[i].pc.CloseEnter? && s.queue != []))
    && (s.abortIntact && !t.abortIntact ==> LeavesWait(s, i))
    && (t.stopper == s.stopper || s.calls[i].pc.StopWake?)
    && (Raised(s.calls[i].pc) && !s.calls[i].pc.StopLower? ==> Raised(t.calls[i].pc))
    && s.deleted <= t.deleted
  }

  /** Jobs only move between the queue, the log and the list of the stepping call. */
  predicate Balanced(s: State, t: State, i: nat, j: Job)
    requires i < |s.calls| && i < |t.calls|
  {
    Count(t.queue, j) + Count(t.fired, j) + Count(Dropped(t.calls[i].pc), j)
      == Count(s.queue, j) + Count(s.fired, j) + Count(Dropped(s.calls[i].pc), j)
  }

  ghost predicate Moves(s: State, t: State, i: nat) {
    OnlyCall(s, t, i) && forall j :: Balanced(s, t, i, j)
  }

  lemma MovesKeepJobs(s: State, t: State, i: nat)
    requires JobsOk(s) && Moves(s, t, i)
    ensures JobsOk(t)
  {
    forall j
      ensures Held(t, j) == Held(s, j)
    {
      assert Balanced(s, t, i, j);
      DroppedUpdate(s.calls, i, t.calls[i], j);
    }
  }

  lemma StopFlagMoves(s: State, i: nat)
    requires i < |s.calls|
    requires s.calls[i].pc.StopRaise? || s.calls[i].pc.StopLower? || s.calls[i].pc.StopWake?
    ensures Moves(s, DoCallStep(s, i), i)
  {
  }

  lemma StopWaitMoves(s: State, i: nat)
    requires i < |s.calls| && (s.calls[i].pc.StopWait? || s.calls[i].pc.StopNotify?)
    ensures Moves(s, DoCallStep(s, i), i)
  {
  }

  lemma PostNotifyMoves(s: State, i: nat)
    requires i < |s.calls| && s.calls[i].pc.PostNotify?
    ensures Moves(s, DoCallStep(s, i), i)
  {
  }

  lemma ReturnMoves(s: State, i: nat)
    requires i < |s.calls| && s.calls[i].pc.DrainWait?
    ensures Moves(s, At(s, i, Returned), i)
  {
  }

  lemma SleepMoves(s: State, i: nat)
    requires i < |s.calls| && Waiting(s.calls[i].pc)
    ensures Moves(s, s.(asleep := s.asleep + {i}), i)
  {
    assert s.calls == s.calls[i := s.calls[i]];
  }

  lemma DrainWaitMoves(s: State, i: nat)
    requires i < |s.calls| && s.calls[i].pc.DrainWait?
    ensures Moves(s, DoCallStep(s, i), i)
  {
    ReturnMoves(s, i);
    SleepMoves(s, i);
  }

  lemma CloseLeavesMoves(s: State, i: nat)
    requires LeavesWait(s, i)
    ensures Moves(s, DoCallStep(s, i), i)
  {
  }

  lemma CloseWaitMoves(s: State, i: nat)
    requires i < |s.calls| && s.calls[i].pc.CloseWait?
    ensures Moves(s, DoCallStep(s, i), i)
  {
    if LeavesWait(s, i) {
      CloseLeavesMoves(s, i);
    } else {
      SleepMoves(s, i);
    }
  }

  lemma StopEnterMoves(s: State, i: nat)
    requires i < |s.calls| && s.calls[i].pc.StopEnter?
    ensures Moves(s, DoCallStep(s, i), i)
  {
    var t := DoCallStep(s, i);
    assert t.queue == [] && Dropped(t.calls[i].pc) == s.queue && t.fired == s.fired;
  }

  predicate Purged(s: State, t: State, i: nat, d: DepotId)
    requires i < |t.calls|
  {
    && t.fired == s.fired && t.queue == NotNaming(s.queue, d)
    && Dropped(t.calls[i].pc) == Naming(s.queue, d)
  }

  lemma CloseEnterPurgesAndWaits(s: State, i: nat, d: DepotId)
    requires i < |s.calls| && s.calls[i].pc == CloseEnter(d)
    requires !s.calls[i].onWorker && s.busy && s.busyDepot == Some(d)
    ensures OnlyCall(s, CloseEnterStep(s, i, d), i) && Purged(s, CloseEnterStep(s, i, d), i, d)
  {
  }

  lemma CloseEnterPurges(s: State, i: nat, d: DepotId)
    requires i < |s.calls| && s.calls[i].pc == CloseEnter(d)
    ensures OnlyCall(s, CloseEnterStep(s, i, d), i) && Purged(s, CloseEnterStep(s, i, d), i, d)
  {
    if !s.calls[i].onWorker && s.busy && s.busyDepot == Some(d) {
      CloseEnterPurgesAndWaits(s, i, d);
    }
  }

  lemma PurgedMoves(s: State, t: State, i: nat, d: DepotId)
    requires OnlyCall(s, t, i) && Purged(s, t, i, d) && Dropped(s.calls[i].pc) == []
    ensures Moves(s, t, i)
  {
    forall j
      ensures Balanced(s, t, i, j)
    {
      CountPurge(s.queue, d, j);
    }
  }

  lemma CloseEnterMoves(s: State, i: nat)
    requires i < |s.calls| && s.calls[i].pc.CloseEnter?
    ensures Moves(s, DoCallStep(s, i), i)
  {
    var d := s.calls[i].pc.depot;
    CloseEnterPurges(s, i, d);
    PurgedMoves(s, CloseEnterStep(s, i, d), i, d);
  }

  lemma CancelMoves(s: State, i: nat, job: Job, pc: CallPc)
    requires i < |s.calls| && (s.calls[i].pc.StopFire? || s.calls[i].pc.CloseFire?)
    requires s.calls[i].pc.StopFire? ==> pc.StopFire?
    requires Dropped(s.calls[i].pc) == [job] + Dropped(pc)
    ensures Moves(s, Cancel(s, i, job, pc), i)
  {
    var t := Cancel(s, i, job, pc);
    forall j
      ensures Balanced(s, t, i, j)
    {
      CountAppend(s.fired, [job], j);
      CountAppend([job], Dropped(pc), j);
    }
  }

  lemma StopFireMoves(s: State, i: nat)
    requires i < |s.calls| && s.calls[i].pc.StopFire?
    ensures Moves(s, DoCallStep(s, i), i)
  {
    var dropped := s.calls[i].pc.dropped;
    if dropped != [] {
      CancelMoves(s, i, dropped[0], StopFire(dropped[1..]));
    }
  }

  lemma CloseFireMoves(s: State, i: nat)
    requires i < |s.calls| && s.calls[i].pc.CloseFire?
    ensures Moves(s, DoCallStep(s, i), i)
  {
    var d, dropped := s.calls[i].pc.depot, s.calls[i].pc.dropped;
    if dropped != [] {
      CancelMoves(s, i, dropped[0], CloseFire(d, dropped[1..]));
    }
  }

  lemma CallMoves(s: State, i: nat)
    requires Enabled(s, CallStep(i))
    ensures Moves(s, Apply(s, CallStep(i)), i)
  {
    match s.calls[i].pc
    case PostNotify => PostNotifyMoves(s, i);
    case DrainWait => DrainWaitMoves(s, i);
    case StopRaise => StopFlagMoves(s, i);
    case StopEnter => StopEnterMoves(s, i);
    case StopWait(_) => StopWaitMoves(s, i);
    case StopNotify(_, _) => StopWaitMoves(s, i);
    case StopJoin(_, _) =>
    case StopFire(_) => StopFireMoves(s, i);
    case StopLower => StopFlagMoves(s, i);
    case StopWake => StopFlagMoves(s, i);
    case CloseEnter(_) => CloseEnterMoves(s, i);
    case CloseWait(_, _) => CloseWaitMoves(s, i);
    case CloseFire(_, _) => CloseFireMoves(s, i);
  }

  // ---------------------------------------------------------------- a step of the worker

  /** The worker moves jobs from the queue into its hand and from its hand into the log. */
  predicate Handed(s: State, t: State, j: Job) {
    Count(t.queue, j) + CountInHand(t.worker, j) + Count(t.fired, j)
      == Count(s.queue, j) + CountInHand(s.worker, j) + Count(s.fired, j)
  }

  ghost predicate WorkerMoves(s: State, t: State) {
    && t.calls == s.calls && t.accepted == s.accepted && t.abortIntact == s.abortIntact
    && t.deleted == s.deleted && t.abort == s.abort && t.stopper == s.stopper
    && forall j :: Handed(s, t, j)
  }

  lemma ReportMoves(s: State, job: Job)
    requires Unfired(s.worker) && s.worker.job == job
    ensures WorkerMoves(s, Report(s, job))
  {
    forall j
      ensures Handed(s, Report(s, job), j)
    {
      CountAppend(s.fired, [job], j);
    }
  }

  lemma ReadMoves(s: State, ok: bool)
    requires s.worker.Sizing? || s.worker.Reading?
    ensures WorkerMoves(s, DoWorkerStep(s, ok)) && !DoWorkerStep(s, ok).worker.Sleeping?
  {
    ReportMoves(s, s.worker.job);
  }

  lemma DecodeMoves(s: State, ok: bool)
    requires s.worker.Decoding?
    ensures WorkerMoves(s, DoWorkerStep(s, ok)) && !DoWorkerStep(s, ok).worker.Sleeping?
  {
    var counted := s.(lateDecodes := s.lateDecodes + 1);
    ReportMoves(counted, s.worker.job);
    forall j
      ensures Handed(s, DoWorkerStep(s, ok), j)
    {
      assert Handed(counted, Report(counted, s.worker.job), j);
    }
  }

  lemma FinishMoves(s: State, ok: bool)
    requires s.worker.InCallback? || s.worker.Clearing? || s.worker.Notifying?
    ensures WorkerMoves(s, DoWorkerStep(s, ok)) && !DoWorkerStep(s, ok).worker.Sleeping?
  {
  }

  lemma WorkerStepMoves(s: State, ok: bool)
    requires Enabled(s, WorkerStep(ok))
    ensures WorkerMoves(s, Apply(s, WorkerStep(ok))) && WorkerSleepOk(Apply(s, WorkerStep(ok)))
  {
    match s.worker
    case Checking =>
    case Sizing(_) => ReadMoves(s, ok);
    case Reading(_, _) => ReadMoves(s, ok);
    case Decoding(_, _) => DecodeMoves(s, ok);
    case InCallback(_) => FinishMoves(s, ok);
    case Clearing(_) => FinishMoves(s, ok);
    case Notifying => FinishMoves(s, ok);
  }

  lemma WorkerKeepsJobs(s: State, t: State)
    requires JobsOk(s) && WorkerMoves(s, t)
    ensures JobsOk(t)
  {
    forall j
      ensures Held(t, j) == Held(s, j)
    {
      assert Handed(s, t, j);
    }
  }

  // ---------------------------------------------------------------- what clients start

  /** A sleeping worker with work keeps its debtor unless the debtor wakes it. */
  lemma DebtorStays(s: State, t: State)
    requires WorkerSleepOk(s)
    requires t.worker.Sleeping? && t.queue != [] ==> s.worker.Sleeping? && s.queue != []
    requires t.worker.Sleeping? ==> forall k: nat :: OwesNotify(s, k) ==> OwesNotify(t, k)
    ensures WorkerSleepOk(t)
  {
    if t.worker.Sleeping? && t.queue != [] {
      var k: nat :| OwesNotify(s, k);
      assert OwesNotify(t, k);
    }
  }

  /** An accepted post adds one job to the queue and to the jobs accepted, and owes a wakeup. */
  lemma AcceptKeepsJobs(s: State, t: State, job: Job, call: Call)
    requires JobsOk(s) && job.id == |s.accepted| && call.pc == PostNotify
    requires t.queue == s.queue + [job] && t.accepted == s.accepted + [job] && t.fired == s.fired
    requires t.calls == s.calls + [call] && (t.worker == s.worker || (!Unfired(s.worker) && !Unfired(t.worker)))
    ensures JobsOk(t) && WorkerSleepOk(t)
  {
    assert OwesNotify(t, |s.calls|);
    forall j
      ensures Held(t, j) == Count(t.accepted, j)
    {
      CountAppend(s.queue, [job], j);
      CountAppend(s.accepted, [job], j);
    }
  }

  lemma PostKeepsJobs(s: State, c: Caller, d: DepotId, n: nat, fails: bool)
    requires Inv(s)
    ensures JobsOk(DoPost(s, c, d, n, fails)) && WorkerSleepOk(DoPost(s, c, d, n, fails))
  {
    if s.quiescing {
    } else if !s.joinable && fails {
      RefusedSpawnChangesNothing(s, c, d, n);
    } else {
      AcceptKeepsJobs(s, DoPost(s, c, d, n, fails), Job(|s.accepted|, d, n),
                      Call(PostNotify, c, RunsOnWorker(s, c)));
    }
  }

  lemma BeginKeepsJobs(s: State, t: State, call: Call)
    requires JobsOk(s) && WorkerSleepOk(s) && Dropped(call.pc) == []
    requires t.calls == s.calls + [call] && t.queue == s.queue && t.worker == s.worker
    requires t.accepted == s.accepted && t.fired == s.fired
    ensures JobsOk(t) && WorkerSleepOk(t)
  {
    forall j
      ensures Held(t, j) == Held(s, j)
    {
    }
    DebtorStays(s, t);
  }

  lemma KeepsJobs(s: State, a: Action)
    requires Inv(s) && Enabled(s, a)
    ensures JobsOk(Apply(s, a)) && WorkerSleepOk(Apply(s, a))
  {
    var t := Apply(s, a);
    match a
    case Post(c, d, n, fails) => PostKeepsJobs(s, c, d, n, fails);
    case Drain(c) =>
      if !RunsOnWorker(s, c) {
        BeginKeepsJobs(s, t, Call(DrainWait, c, RunsOnWorker(s, c)));
      }
    case Shutdown(c) =>
      if !RunsOnWorker(s, c) {
        BeginKeepsJobs(s, t, Call(StopRaise, c, RunsOnWorker(s, c)));
      }
    case CloseDepot(c, d) => BeginKeepsJobs(s, t, Call(CloseEnter(d), c, RunsOnWorker(s, c)));
    case SpuriousWorker =>
      assert forall j :: Held(t, j) == Held(s, j);
    case SpuriousCall(_) =>
      assert forall j :: Held(t, j) == Held(s, j);
      DebtorStays(s, t);
    case CallStep(i) =>
      CallMoves(s, i);
      MovesKeepJobs(s, t, i);
      DebtorStays(s, t);
    case WorkerStep(ok) =>
      WorkerStepMoves(s, ok);
      WorkerKeepsJobs(s, t);
  }

  // ---------------------------------------------------------------- runs

  lemma BeginKeepsNest(s: State, c: Caller, pc: CallPc)
    requires NestOk(s) && CallerReady(s, c)
    ensures NestOk(Begin(s, c, pc))
  {
  }

  lemma CallKeepsNest(s: State, t: State, i: nat)
    requires NestOk(s) && OnlyCall(s, t, i)
    ensures NestOk(t)
  {
  }

  lemma KeepsNest(s: State, a: Action)
    requires NestOk(s) && Enabled(s, a)
    ensures NestOk(Apply(s, a))
  {
    match a
    case Post(c, _, _, _) => BeginKeepsNest(s, c, PostNotify);
    case Drain(c) => BeginKeepsNest(s, c, DrainWait);
    case Shutdown(c) => BeginKeepsNest(s, c, StopRaise);
    case CloseDepot(c, d) => BeginKeepsNest(s, c, CloseEnter(d));
    case SpuriousWorker =>
    case SpuriousCall(_) =>
    case CallStep(i) =>
      CallMoves(s, i);
      CallKeepsNest(s, Apply(s, a), i);
    case WorkerStep(ok) => WorkerStepMoves(s, ok);
  }

  lemma StepKeepsInv(s: State, a: Action)
    requires Inv(s) && Enabled(s, a)
    ensures Inv(Apply(s, a))
  {
    KeepsSafe(s, a);
    KeepsNest(s, a);
    KeepsJobs(s, a);
  }

  lemma {:induction false} RunKeepsInv(s: State, acts: seq<Action>)
    requires Inv(s) && ValidRun(s, acts)
    ensures Inv(Exec(s, acts))
    decreases |acts|
  {
    if acts != [] {
      StepKeepsInv(s, acts[0]);
      RunKeepsInv(Apply(s, acts[0]), acts[1..]);
    }
  }

  lemma ReachableInv(s: State)
    requires Reachable(s)
    ensures Inv(s)
  {
    var acts :| ValidRun(Init, acts) && Exec(Init, acts) == s;
    RunKeepsInv(Init, acts);
  }
}
