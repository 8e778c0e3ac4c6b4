/** What the worker protocol guarantees in every reachable state of every interleaving. */
module WorkerTheorems {
  import opened Worker
  import opened WorkerInvariant
  import opened WorkerJobs
  import opened Options

  // ---------------------------------------------------------------- exactly once

  lemma {:induction false} CountZero(jobs: seq<Job>, j: Job)
    ensures Count(jobs, j) == 0 <==> j !in jobs
  {
    if jobs != [] {
      CountZero(jobs[1..], j);
      assert j in jobs <==> j == jobs[0] || j in jobs[1..];
    }
  }

  lemma {:induction false} CountTwice(jobs: seq<Job>, a: nat, b: nat)
    requires a < b < |jobs| && jobs[a] == jobs[b]
    ensures Count(jobs, jobs[a]) >= 2
  {
    if a == 0 {
      CountZero(jobs[1..], jobs[a]);
      assert jobs[1..][b - 1] == jobs[a];
    } else {
      CountTwice(jobs[1..], a - 1, b - 1);
    }
  }

  lemma {:induction false} CountDistinct(jobs: seq<Job>, j: Job)
    requires forall a, b :: 0 <= a < b < |jobs| ==> jobs[a] != jobs[b]
    ensures Count(jobs, j) == if j in jobs then 1 else 0
  {
    if jobs != [] {
      CountDistinct(jobs[1..], j);
      assert j in jobs <==> j == jobs[0] || j in jobs[1..];
    }
  }

  /** Each accepted job is in exactly one of the queue, the worker's hand, some caller's list of
      cancelled jobs, or the log of callbacks fired, and there once; no other job is anywhere. */
  lemma ExactlyOnce(s: State, j: Job)
    requires Reachable(s)
    ensures Count(s.queue, j) + CountInHand(s.worker, j) + CountDropped(s.calls, j) + Count(s.fired, j)
         == if j in s.accepted then 1 else 0
    ensures forall a, b :: 0 <= a < b < |s.fired| ==> s.fired[a].id != s.fired[b].id
  {
    ReachableInv(s);
    CountDistinct(s.accepted, j);
    assert Held(s, j) == Count(s.accepted, j);
    forall a, b | 0 <= a < b < |s.fired|
      ensures s.fired[a].id != s.fired[b].id
    {
      FiredOnce(s, a, b);
    }
  }

  lemma FiredOnce(s: State, a: nat, b: nat)
    requires JobsOk(s) && a < b < |s.fired|
    ensures s.fired[a].id != s.fired[b].id
  {
    FiredWasAccepted(s, a);
    FiredWasAccepted(s, b);
    CountDistinct(s.accepted, s.fired[a]);
    assert Held(s, s.fired[a]) == Count(s.accepted, s.fired[a]);
    if s.fired[a] == s.fired[b] {
      CountTwice(s.fired, a, b);
    }
  }

  lemma FiredWasAccepted(s: State, k: nat)
    requires JobsOk(s) && k < |s.fired|
    ensures s.fired[k] in s.accepted
  {
    assert Held(s, s.fired[k]) == Count(s.accepted, s.fired[k]);
    CountZero(s.fired, s.fired[k]);
    CountZero(s.accepted, s.fired[k]);
  }

  /** A post that is refused, or whose thread cannot be spawned, leaves no trace that could fire;
      any other post is accepted and its wakeup is owed. That a job never accepted never fires, on
      any continuation of the run, is ExactlyOnce. */
  lemma RefusedPostsNeverFire(s: State, c: Caller, d: DepotId, n: nat, fails: bool)
    ensures var t := Apply(s, Post(c, d, n, fails));
      && (s.quiescing || (!s.joinable && fails) <==> t.accepted == s.accepted)
      && (t.accepted == s.accepted ==> t == s)
      && (t.accepted != s.accepted ==>
            t.accepted[..|s.accepted|] == s.accepted && |t.accepted| == |s.accepted| + 1
            && t.queue == s.queue + [t.accepted[|s.accepted|]] && t.joinable && OwesNotify(t, |s.calls|))
  {
    if !s.quiescing && !s.joinable && fails {
      RefusedSpawnChangesNothing(s, c, d, n);
    }
  }

  // ---------------------------------------------------------------- wakeups

  /** The worker has no job in hand: neither a read nor a callback nor what follows it. */
  predicate Idle(w: WorkerPc) {
    w.NoThread? || w.Checking? || w.Sleeping? || w.Notifying? || w.Exited?
  }

  /** The worker has a job of depot `d` in hand. */
  predicate HasInHand(w: WorkerPc, d: DepotId) {
    !Idle(w) && w.job.depot == d
  }

  /** What a waiting call waits for, read off the queue and the worker: a drain for nothing queued and
      nothing in hand, a shutdown for nothing in hand, a close for nothing of its depot in hand. */
  predicate Satisfied(s: State, pc: CallPc) {
    match pc
    case DrainWait => s.queue == [] && Idle(s.worker)
    case StopWait(_) => Idle(s.worker)
    case CloseWait(d, _) => !HasInHand(s.worker, d)
    case _ => true
  }

  lemma SatisfiedIsOver(s: State, pc: CallPc)
    requires BusyOk(s)
    ensures Satisfied(s, pc) <==> WaitOver(s, pc)
  {
  }

  /** Whenever a thread sleeps on a condition that already holds, some thread that can step owes it
      the notification: the worker for `done_`, a poster for `cv_`. */
  lemma NoLostWakeup(s: State)
    requires Reachable(s)
    ensures forall i :: i in s.asleep ==> i < |s.calls| && Waiting(s.calls[i].pc)
    ensures forall i :: i in s.asleep && i < |s.calls| && Satisfied(s, s.calls[i].pc) ==>
      s.worker.Notifying? && Enabled(s, WorkerStep(true)) && Apply(s, WorkerStep(true)).asleep == {}
    ensures s.worker.Sleeping? && WorkReady(s) ==>
      exists i: nat :: OwesNotify(s, i) && Enabled(s, CallStep(i)) && Apply(s, CallStep(i)).worker.Checking?
  {
    ReachableInv(s);
    forall i | i in s.asleep
      ensures i < |s.calls| && (Satisfied(s, s.calls[i].pc) ==> s.worker.Notifying?)
    {
      SatisfiedIsOver(s, s.calls[i].pc);
    }
    if s.worker.Sleeping? && WorkReady(s) {
      var i: nat :| OwesNotify(s, i);
      assert Enabled(s, CallStep(i)) && Apply(s, CallStep(i)).worker.Checking?;
    }
  }

  /** A call made from a completion callback never waits, and shutdown and drain do nothing there. */
  lemma NeverWaitsOnItself(s: State, c: Caller)
    requires Reachable(s)
    ensures forall i: nat :: Live(s, i) && s.calls[i].onWorker ==>
      i !in s.asleep && !Waiting(s.calls[i].pc) && !StopPhase(s.calls[i].pc)
    ensures RunsOnWorker(s, c) ==> Apply(s, Drain(c)) == s && Apply(s, Shutdown(c)) == s
  {
    ReachableInv(s);
  }

  // ---------------------------------------------------------------- what a wait waits for

  lemma {:induction false} DroppedSomewhere(calls: seq<Call>, j: Job)
    requires CountDropped(calls, j) > 0
    ensures exists i :: 0 <= i < |calls| && j in Dropped(calls[i].pc)
  {
    var n := |calls| - 1;
    CountZero(Dropped(calls[n].pc), j);
    if Count(Dropped(calls[n].pc), j) == 0 {
      DroppedSomewhere(calls[..n], j);
      var i :| 0 <= i < n && j in Dropped(calls[..n][i].pc);
      assert j in Dropped(calls[i].pc);
    }
  }

  /** With an empty queue and an idle worker, every job ever accepted has fired or is about to be
      reported as cancelled by the call that took it off the queue. */
  lemma NothingOutstanding(s: State, j: Job)
    requires Reachable(s) && s.queue == [] && Idle(s.worker) && j in s.accepted
    ensures j in s.fired || exists i :: 0 <= i < |s.calls| && j in Dropped(s.calls[i].pc)
  {
    ExactlyOnce(s, j);
    CountZero(s.fired, j);
    if j !in s.fired {
      DroppedSomewhere(s.calls, j);
    }
  }

  /** A drain returns exactly when the queue is empty and the worker has nothing in hand, so that
      every job accepted by then has fired or is being cancelled; otherwise it goes to sleep. */
  lemma DrainReturnsIff(s: State, i: nat)
    requires Reachable(s) && Enabled(s, CallStep(i)) && s.calls[i].pc == DrainWait
    ensures var t := Apply(s, CallStep(i));
      if s.queue == [] && Idle(s.worker) then
        && t == s.(calls := s.calls[i := s.calls[i].(pc := Returned)])
        && forall j :: j in s.accepted ==>
             j in t.fired || exists k :: 0 <= k < |t.calls| && j in Dropped(t.calls[k].pc)
      else t == s.(asleep := s.asleep + {i})
  {
    ReachableInv(s);
    if s.queue == [] && Idle(s.worker) {
      var t := Apply(s, CallStep(i));
      forall j | j in s.accepted
        ensures j in t.fired || exists k :: 0 <= k < |t.calls| && j in Dropped(t.calls[k].pc)
      {
        NothingOutstanding(s, j);
        if j !in s.fired {
          var k :| 0 <= k < |s.calls| && j in Dropped(s.calls[k].pc);
          assert t.calls[k] == s.calls[k];
        }
      }
    }
  }

  /** A shutdown takes the thread over exactly when the worker has nothing in hand, and sleeps
      otherwise; the jobs it has taken off the queue stay on its list. */
  lemma ShutdownProceedsIff(s: State, i: nat)
    requires Reachable(s) && Enabled(s, CallStep(i)) && (s.calls[i].pc.StopEnter? || s.calls[i].pc.StopWait?)
    ensures var t := Apply(s, CallStep(i));
      var dropped := if s.calls[i].pc.StopEnter? then s.queue else s.calls[i].pc.dropped;
      && |t.calls| == |s.calls| && t.queue == []
      && t.calls[i].pc == (if Idle(s.worker) then StopNotify(!s.worker.NoThread?, dropped) else StopWait(dropped))
      && (i in t.asleep <==> !Idle(s.worker))
  {
    ReachableInv(s);
  }

  lemma InHandIsBusy(s: State, d: DepotId)
    requires BusyOk(s)
    ensures HasInHand(s.worker, d) <==> s.busy && s.busyDepot == Some(d)
  {
  }

  /** A close waits exactly when it runs off the worker and the worker has a job of its depot in
      hand; the jobs it takes off the queue are those of its depot, in order. */
  lemma CloseWaitsIff(s: State, i: nat, d: DepotId)
    requires Reachable(s) && Enabled(s, CallStep(i)) && s.calls[i].pc == CloseEnter(d)
    ensures var t := Apply(s, CallStep(i));
      && |t.calls| == |s.calls| && t.queue == NotNaming(s.queue, d)
      && t.calls[i].pc == (if !s.calls[i].onWorker && HasInHand(s.worker, d) then CloseWait(d, Naming(s.queue, d))
                           else CloseFire(d, Naming(s.queue, d)))
      && (i in t.asleep <==> !s.calls[i].onWorker && HasInHand(s.worker, d))
  {
    ReachableInv(s);
    InHandIsBusy(s, d);
    assert Apply(s, CallStep(i)) == CloseEnterStep(s, i, d);
  }

  lemma CloseLeavesIff(s: State, i: nat, d: DepotId, dropped: seq<Job>)
    requires Reachable(s) && Enabled(s, CallStep(i)) && s.calls[i].pc == CloseWait(d, dropped)
    ensures var t := Apply(s, CallStep(i));
      && |t.calls| == |s.calls|
      && t.calls[i].pc == (if HasInHand(s.worker, d) then CloseWait(d, dropped) else CloseFire(d, dropped))
      && (i in t.asleep <==> HasInHand(s.worker, d))
  {
    ReachableInv(s);
  }

  // ---------------------------------------------------------------- depots

  /** When a close reaches the delete, no queued job names the depot and the worker is not reading
      it; this holds also when the close runs inside a callback of that very depot. */
  lemma DeleteIsSafe(s: State, i: nat, d: DepotId)
    requires Reachable(s) && Live(s, i) && s.calls[i].pc == CloseFire(d, [])
    ensures NoneNames(s.queue, d) && (Unfired(s.worker) ==> s.worker.job.depot != d)
    ensures d in Apply(s, CallStep(i)).deleted
  {
    ReachableInv(s);
    assert CloseOk(s, s.calls[i].pc);
  }

  lemma StepKeepsDeleted(s: State, a: Action)
    requires Enabled(s, a)
    ensures s.deleted <= Apply(s, a).deleted
  {
    match a
    case CallStep(i) => CallMoves(s, i);
    case WorkerStep(ok) => WorkerStepMoves(s, ok);
    case _ =>
  }

  lemma {:induction false} RunKeepsDeleted(s: State, acts: seq<Action>)
    requires ValidRun(s, acts)
    ensures s.deleted <= Exec(s, acts).deleted
    decreases |acts|
  {
    if acts != [] {
      StepKeepsDeleted(s, acts[0]);
      RunKeepsDeleted(Apply(s, acts[0]), acts[1..]);
    }
  }

  /** A deleted depot is never read again: not now and not after any continuation of the run. */
  lemma DeletedIsNeverRead(s: State, acts: seq<Action>, d: DepotId)
    requires Reachable(s) && d in s.deleted && ValidRun(s, acts)
    ensures var t := Exec(s, acts);
      NoneNames(t.queue, d) && (Unfired(t.worker) ==> t.worker.job.depot != d)
  {
    ReachableInv(s);
    RunKeepsInv(s, acts);
    RunKeepsDeleted(s, acts);
  }

  // ---------------------------------------------------------------- quiescence

  predicate HoldsForClose(pc: CallPc) {
    (pc.CloseWait? || pc.CloseFire?) && pc.dropped != []
  }

  lemma {:induction false} NothingDropped(calls: seq<Call>, j: Job)
    requires forall i :: 0 <= i < |calls| ==> Dropped(calls[i].pc) == []
    ensures CountDropped(calls, j) == 0
  {
    if calls != [] {
      NothingDropped(calls[..|calls| - 1], j);
    }
  }

  lemma AllFiredAtReopening(s: State, i: nat)
    requires Reachable(s) && Inv(s) && Live(s, i) && s.calls[i].pc == StopFire([])
    requires forall k :: 0 <= k < |s.calls| ==> !HoldsForClose(s.calls[k].pc)
    ensures forall j :: j in s.accepted ==> Count(s.fired, j) == 1
  {
    forall k | 0 <= k < |s.calls|
      ensures Dropped(s.calls[k].pc) == []
    {
      assert StopPhase(s.calls[k].pc) ==> k == i;
    }
    forall j | j in s.accepted
      ensures Count(s.fired, j) == 1
    {
      NothingDropped(s.calls, j);
      ExactlyOnce(s, j);
    }
  }

  /** From the start of the critical section until the shutdown reopens, the queue stays empty. At
      the reopening there is no worker thread, and every job ever accepted has fired unless a
      concurrent close still has it on its list. */
  lemma QuietUntilReopened(s: State, i: nat)
    requires Reachable(s)
    ensures s.quiescing ==> s.queue == []
    ensures Live(s, i) && s.calls[i].pc == StopFire([]) ==>
      && s.quiescing && s.worker.NoThread? && !s.joinable
      && !Apply(s, CallStep(i)).quiescing
      && ((forall k :: 0 <= k < |s.calls| ==> !HoldsForClose(s.calls[k].pc)) ==>
            forall j :: j in s.accepted ==> Count(s.fired, j) == 1)
  {
    ReachableInv(s);
    if Live(s, i) && s.calls[i].pc == StopFire([]) {
      if forall k :: 0 <= k < |s.calls| ==> !HoldsForClose(s.calls[k].pc) {
        AllFiredAtReopening(s, i);
      }
    }
  }

  // ---------------------------------------------------------------- the abort flag of a shutdown

  /** No step of the run takes a close out of its wait. */
  predicate NoCloseLeaves(s: State, acts: seq<Action>)
    decreases |acts|
  {
    acts == [] ||
    (!(acts[0].CallStep? && LeavesWait(s, acts[0].i)) && NoCloseLeaves(Apply(s, acts[0]), acts[1..]))
  }

  lemma StepKeepsIntact(s: State, a: Action)
    requires Enabled(s, a) && s.abortIntact && !(a.CallStep? && LeavesWait(s, a.i))
    ensures Apply(s, a).abortIntact
  {
    match a
    case CallStep(i) => CallMoves(s, i);
    case WorkerStep(ok) => WorkerStepMoves(s, ok);
    case _ =>
  }

  lemma {:induction false} RunKeepsIntact(s: State, acts: seq<Action>)
    requires s.abortIntact && ValidRun(s, acts) && NoCloseLeaves(s, acts)
    ensures Exec(s, acts).abortIntact
    decreases |acts|
  {
    if acts != [] {
      StepKeepsIntact(s, acts[0]);
      RunKeepsIntact(Apply(s, acts[0]), acts[1..]);
    }
  }

  /** At most one segment decode finishes between the moment a shutdown raises the abort flag and the
      moment it lowers it, whatever was queued and whatever closes begin, as long as none of them
      leaves its wait meanwhile. */
  lemma AtMostOneLateDecode(s: State, i: nat, acts: seq<Action>)
    requires Reachable(s) && Live(s, i) && s.calls[i].pc == StopRaise
    requires ValidRun(Apply(s, CallStep(i)), acts) && NoCloseLeaves(Apply(s, CallStep(i)), acts)
    ensures var t := Exec(Apply(s, CallStep(i)), acts);
      Raised(StopPc(t)) ==> t.abort && t.lateDecodes <= 1
  {
    ReachableInv(s);
    assert Enabled(s, CallStep(i));
    StepKeepsInv(s, CallStep(i));
    RunKeepsIntact(Apply(s, CallStep(i)), acts);
    RunKeepsInv(Apply(s, CallStep(i)), acts);
  }
}
