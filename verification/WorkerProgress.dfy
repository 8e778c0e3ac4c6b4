/** The protocol always comes to rest: left to itself it takes boundedly many steps, and when no
    step is left every call has returned and every accepted job has fired. */
module WorkerProgress {
  import opened Worker
  import opened WorkerInvariant
  import opened WorkerJobs
  import opened WorkerTheorems
  import opened Options

  /** The steps that need nothing new from a client. */
  predicate Internal(a: Action) {
    a.CallStep? || a.WorkerStep?
  }

  // ---------------------------------------------------------------- a bound on the steps left

  function QueueWork(jobs: seq<Job>): nat {
    if jobs == [] then 0 else 2 * jobs[0].segments + 8 + QueueWork(jobs[1..])
  }

  function CallWork(pc: CallPc): nat {
    match pc
    case PostNotify => 1
    case DrainWait => 1
    case StopRaise => 8
    case StopEnter => 7
    case StopWait(js) => 6 + |js|
    case StopNotify(_, js) => 5 + |js|
    case StopJoin(_, js) => 4 + |js|
    case StopFire(js) => 3 + |js|
    case StopLower => 2
    case StopWake => 1
    case CloseEnter(_) => 3
    case CloseWait(_, js) => 2 + |js|
    case CloseFire(_, js) => 1 + |js|
    case Returned => 0
  }

  function CallsWork(calls: seq<Call>): nat {
    if calls == [] then 0 else CallsWork(calls[..|calls| - 1]) + CallWork(calls[|calls| - 1].pc)
  }

  function WorkerWork(w: WorkerPc): nat {
    match w
    case Sizing(job) => 2 * job.segments + 7
    case Reading(_, left) => 2 * left + 6
    case Decoding(_, left) => 2 * left + 5
    case InCallback(_) => 3
    case Clearing(_) => 2
    case Notifying => 1
    case _ => 0
  }

  function Work(s: State): nat {
    QueueWork(s.queue) + CallsWork(s.calls) + WorkerWork(s.worker)
  }

  predicate Bounded(s: State) {
    forall i :: i in s.asleep ==> i < |s.calls|
  }

  /** Threads awake at a wait, counted generously. */
  function Awake(s: State): int {
    |s.calls| - |s.asleep| + (if s.worker.Checking? then 1 else 0)
  }

  function Measure(s: State): int {
    Work(s) * (|s.calls| + 2) + Awake(s)
  }

  lemma {:induction false} AtMost(a: set<nat>, n: nat)
    requires forall i :: i in a ==> i < n
    ensures |a| <= n
  {
    if n == 0 {
      assert a == {};
    } else if n - 1 in a {
      AtMost(a - {n - 1}, n - 1);
    } else {
      AtMost(a, n - 1);
    }
  }

  lemma {:induction false} CallsWorkUpdate(calls: seq<Call>, i: nat, c: Call)
    requires i < |calls|
    ensures CallsWork(calls[i := c]) + CallWork(calls[i].pc) == CallsWork(calls) + CallWork(c.pc)
  {
    var n := |calls| - 1;
    if i < n {
      assert calls[i := c][..n] == calls[..n][i := c];
      CallsWorkUpdate(calls[..n], i, c);
    } else {
      assert calls[i := c][..n] == calls[..n];
    }
  }

  lemma {:induction false} PurgeWork(jobs: seq<Job>, d: DepotId)
    ensures QueueWork(NotNaming(jobs, d)) + 8 * |Naming(jobs, d)| <= QueueWork(jobs)
  {
    if jobs != [] {
      PurgeWork(jobs[1..], d);
    }
  }

  lemma {:induction false} QueueWorkAtLeast(jobs: seq<Job>)
    ensures QueueWork(jobs) >= 8 * |jobs|
  {
    if jobs != [] {
      QueueWorkAtLeast(jobs[1..]);
    }
  }

  /** A step either does work, or puts one more thread to sleep. */
  predicate Advances(s: State, t: State) {
    && |t.calls| == |s.calls|
    && (Work(t) < Work(s) || (Work(t) == Work(s) && Awake(t) < Awake(s)))
  }

  /** A call step that lowers the step's own share of the work. */
  predicate Lowers(s: State, t: State, i: nat) {
    && i < |s.calls| && |t.calls| == |s.calls| && t.calls == s.calls[i := t.calls[i]]
    && WorkerWork(t.worker) == WorkerWork(s.worker)
    && QueueWork(t.queue) + CallWork(t.calls[i].pc) < QueueWork(s.queue) + CallWork(s.calls[i].pc)
  }

  predicate FallsAsleep(s: State, t: State, i: nat) {
    t == s.(asleep := s.asleep + {i}) && i !in s.asleep
  }

  lemma LowersAdvances(s: State, t: State, i: nat)
    requires Lowers(s, t, i)
    ensures Advances(s, t)
  {
    CallsWorkUpdate(s.calls, i, t.calls[i]);
  }

  lemma StopFlagLowers(s: State, i: nat)
    requires i < |s.calls|
    requires s.calls[i].pc.StopRaise? || s.calls[i].pc.StopLower? || s.calls[i].pc.StopWake?
    ensures Lowers(s, DoCallStep(s, i), i)
  {
  }

  lemma StopWaitLowers(s: State, i: nat)
    requires i < |s.calls| && i !in s.asleep && s.calls[i].pc.StopWait?
    ensures Lowers(s, DoCallStep(s, i), i) || FallsAsleep(s, DoCallStep(s, i), i)
  {
    assert s.calls == s.calls[i := s.calls[i]];
  }

  lemma StopJoinLowers(s: State, i: nat)
    requires Enabled(s, CallStep(i)) && (s.calls[i].pc.StopJoin? || s.calls[i].pc.StopNotify?)
    ensures Lowers(s, DoCallStep(s, i), i)
  {
  }

  lemma PostNotifyLowers(s: State, i: nat)
    requires i < |s.calls| && s.calls[i].pc.PostNotify?
    ensures Lowers(s, DoCallStep(s, i), i)
  {
  }

  lemma DrainWaitLowers(s: State, i: nat)
    requires i < |s.calls| && i !in s.asleep && s.calls[i].pc.DrainWait?
    ensures Lowers(s, DoCallStep(s, i), i) || FallsAsleep(s, DoCallStep(s, i), i)
  {
  }

  lemma CloseWaitLowers(s: State, i: nat)
    requires i < |s.calls| && i !in s.asleep && s.calls[i].pc.CloseWait?
    ensures Lowers(s, DoCallStep(s, i), i) || FallsAsleep(s, DoCallStep(s, i), i)
  {
  }

  lemma StopEnterLowers(s: State, i: nat)
    requires i < |s.calls| && s.calls[i].pc.StopEnter?
    ensures Lowers(s, DoCallStep(s, i), i)
  {
    QueueWorkAtLeast(s.queue);
  }

  lemma CloseEnterLowers(s: State, i: nat)
    requires i < |s.calls| && s.calls[i].pc.CloseEnter?
    ensures Lowers(s, DoCallStep(s, i), i)
  {
    var d := s.calls[i].pc.depot;
    PurgeWork(s.queue, d);
    PurgeAndWaitLowers(s, i, d, Naming(s.queue, d), NotNaming(s.queue, d));
    PurgeAndPassLowers(s, i, d, Naming(s.queue, d), NotNaming(s.queue, d));
  }

  /** The jobs a close takes over weigh less on its list than they did in the queue. */
  lemma PurgeAndWaitLowers(s: State, i: nat, d: DepotId, dropped: seq<Job>, rest: seq<Job>)
    requires i < |s.calls| && s.calls[i].pc == CloseEnter(d)
    requires QueueWork(rest) + 8 * |dropped| <= QueueWork(s.queue)
    ensures var t := At(WakeWorker(s.(queue := rest, abort := true)), i, CloseWait(d, dropped));
      Lowers(s, t.(asleep := s.asleep + {i}), i)
  {
  }

  lemma PurgeAndPassLowers(s: State, i: nat, d: DepotId, dropped: seq<Job>, rest: seq<Job>)
    requires i < |s.calls| && s.calls[i].pc == CloseEnter(d)
    requires QueueWork(rest) + 8 * |dropped| <= QueueWork(s.queue)
    ensures Lowers(s, At(WakeDone(s.(queue := rest)), i, CloseFire(d, dropped)), i)
  {
  }

  lemma CancelLowers(s: State, i: nat, job: Job, pc: CallPc)
    requires i < |s.calls| && CallWork(pc) < CallWork(s.calls[i].pc)
    ensures Lowers(s, Cancel(s, i, job, pc), i)
  {
  }

  lemma StopFireLowers(s: State, i: nat)
    requires i < |s.calls| && s.calls[i].pc.StopFire?
    ensures Lowers(s, DoCallStep(s, i), i)
  {
    var dropped := s.calls[i].pc.dropped;
    if dropped != [] {
      CancelLowers(s, i, dropped[0], StopFire(dropped[1..]));
    }
  }

  lemma CloseFireLowers(s: State, i: nat)
    requires i < |s.calls| && s.calls[i].pc.CloseFire?
    ensures Lowers(s, DoCallStep(s, i), i)
  {
    var d, dropped := s.calls[i].pc.depot, s.calls[i].pc.dropped;
    if dropped != [] {
      CancelLowers(s, i, dropped[0], CloseFire(d, dropped[1..]));
    }
  }

  lemma CallLowers(s: State, i: nat)
    requires Enabled(s, CallStep(i))
    ensures Lowers(s, DoCallStep(s, i), i) || FallsAsleep(s, DoCallStep(s, i), i)
  {
    match s.calls[i].pc
    case PostNotify => PostNotifyLowers(s, i);
    case DrainWait => DrainWaitLowers(s, i);
    case StopRaise => StopFlagLowers(s, i);
    case StopEnter => StopEnterLowers(s, i);
    case StopWait(_) => StopWaitLowers(s, i);
    case StopNotify(_, _) => StopJoinLowers(s, i);
    case StopJoin(_, _) => StopJoinLowers(s, i);
    case StopFire(_) => StopFireLowers(s, i);
    case StopLower => StopFlagLowers(s, i);
    case StopWake => StopFlagLowers(s, i);
    case CloseEnter(_) => CloseEnterLowers(s, i);
    case CloseWait(_, _) => CloseWaitLowers(s, i);
    case CloseFire(_, _) => CloseFireLowers(s, i);
  }

  lemma CallAdvances(s: State, i: nat)
    requires Enabled(s, CallStep(i))
    ensures Advances(s, Apply(s, CallStep(i)))
  {
    CallLowers(s, i);
    if Lowers(s, Apply(s, CallStep(i)), i) {
      LowersAdvances(s, Apply(s, CallStep(i)), i);
    }
  }

  lemma CheckAdvances(s: State)
    requires s.worker.Checking?
    ensures Advances(s, WorkerCheck(s))
  {
  }

  lemma ReadAdvances(s: State, ok: bool)
    requires s.worker.Sizing? || s.worker.Reading? || s.worker.Decoding?
    ensures Advances(s, DoWorkerStep(s, ok))
  {
  }

  lemma FinishAdvances(s: State, ok: bool)
    requires s.worker.InCallback? || s.worker.Clearing? || s.worker.Notifying?
    ensures Advances(s, DoWorkerStep(s, ok))
  {
  }

  lemma WorkerAdvances(s: State, ok: bool)
    requires Enabled(s, WorkerStep(ok))
    ensures Advances(s, Apply(s, WorkerStep(ok)))
  {
    match s.worker
    case Checking => CheckAdvances(s);
    case Sizing(_) => ReadAdvances(s, ok);
    case Reading(_, _) => ReadAdvances(s, ok);
    case Decoding(_, _) => ReadAdvances(s, ok);
    case InCallback(_) => FinishAdvances(s, ok);
    case Clearing(_) => FinishAdvances(s, ok);
    case Notifying => FinishAdvances(s, ok);
  }

  lemma Lexicographic(work: nat, work': nat, awake: int, awake': int, n: nat)
    requires 0 <= awake && 0 <= awake' <= n + 1
    requires work' < work || (work' == work && awake' < awake)
    ensures 0 <= work' * (n + 2) + awake' < work * (n + 2) + awake
  {
    if work' < work {
      assert (work' + 1) * (n + 2) <= work * (n + 2);
    }
  }

  lemma AdvancesLowersMeasure(s: State, t: State)
    requires Advances(s, t) && Bounded(s) && Bounded(t)
    ensures 0 <= Measure(t) < Measure(s)
  {
    AtMost(s.asleep, |s.calls|);
    AtMost(t.asleep, |t.calls|);
    Lexicographic(Work(s), Work(t), Awake(s), Awake(t), |s.calls|);
  }

  lemma StepAdvances(s: State, a: Action)
    requires Internal(a) && Enabled(s, a)
    ensures Advances(s, Apply(s, a))
  {
    match a
    case CallStep(i) => CallAdvances(s, i);
    case WorkerStep(ok) => WorkerAdvances(s, ok);
  }

  /** Every internal step lowers the measure, which is never negative. */
  lemma StepLowersMeasure(s: State, a: Action)
    requires Inv(s) && Internal(a) && Enabled(s, a)
    ensures 0 <= Measure(Apply(s, a)) < Measure(s)
  {
    StepAdvances(s, a);
    StepKeepsInv(s, a);
    AdvancesLowersMeasure(s, Apply(s, a));
  }

  // ---------------------------------------------------------------- at rest

  predicate Settled(s: State) {
    && s.queue == [] && !s.busy && !s.quiescing && s.asleep == {}
    && (s.worker.NoThread? || s.worker.Sleeping?)
    && (forall i :: 0 <= i < |s.calls| ==> s.calls[i].pc.Returned?)
  }

  ghost predicate Stuck(s: State) {
    forall a :: Internal(a) ==> !Enabled(s, a)
  }

  /** The innermost of a call's open cancellation callbacks: it waits for no other call. */
  lemma {:induction false} Innermost(s: State, i: nat) returns (k: nat)
    requires NestOk(s) && Live(s, i)
    ensures Live(s, k) && !HasLiveChild(s, k) && s.calls[k].onWorker == s.calls[i].onWorker
    decreases |s.calls| - i
  {
    if HasLiveChild(s, i) {
      var c: nat :| Live(s, c) && s.calls[c].caller == FromCancellation(i);
      k := Innermost(s, c);
    } else {
      k := i;
    }
  }

  /** A call that cannot step although it waits for no other call is asleep or joins the worker. */
  lemma StuckCall(s: State, k: nat)
    requires Stuck(s) && Live(s, k) && !HasLiveChild(s, k)
    ensures k in s.asleep || (s.calls[k].pc.StopJoin? && s.calls[k].pc.joins && !s.worker.Exited?)
  {
    assert !Enabled(s, CallStep(k));
  }

  lemma WorkerStackClears(s: State)
    requires Inv(s) && Stuck(s)
    ensures WorkerStackEmpty(s) && !Occupied(s.worker) && !s.worker.Checking? && !s.worker.Notifying?
  {
    forall i: nat | Live(s, i) && s.calls[i].onWorker
      ensures false
    {
      var k := Innermost(s, i);
      StuckCall(s, k);
    }
    assert !Enabled(s, WorkerStep(true));
  }

  /** A worker asleep over a nonempty queue is owed a wakeup, so something can still step. */
  lemma QueueDrains(s: State)
    requires Inv(s) && Stuck(s)
    ensures s.queue == []
  {
    WorkerStackClears(s);
    if s.queue != [] {
      assert s.worker.Sleeping?;
      var k: nat :| OwesNotify(s, k);
      assert Enabled(s, CallStep(k));
    }
  }

  lemma SleeperHasReason(s: State, k: nat)
    requires Inv(s) && s.queue == [] && !s.worker.Notifying? && k in s.asleep
    ensures s.busy
  {
    assert !WaitOver(s, s.calls[k].pc);
  }

  lemma JoinerHasReason(s: State, k: nat)
    requires Inv(s) && k < |s.calls| && s.calls[k].pc.StopJoin? && s.calls[k].pc.joins
    ensures s.quiescing && !s.worker.NoThread? && !s.worker.Sleeping?
  {
    assert s.stopper == Some(k);
  }

  lemma CallsReturn(s: State, i: nat)
    requires Inv(s) && Stuck(s)
    ensures !Live(s, i)
  {
    WorkerStackClears(s);
    QueueDrains(s);
    if Live(s, i) {
      var k := Innermost(s, i);
      StuckCall(s, k);
      if k in s.asleep {
        SleeperHasReason(s, k);
      } else {
        JoinerHasReason(s, k);
      }
    }
  }

  /** When no internal step is left, nothing waits and nothing is owed: the queue is empty, every
      call has returned, and the worker is absent or idle. */
  lemma StuckIsSettled(s: State)
    requires Reachable(s) && Stuck(s)
    ensures Settled(s)
  {
    ReachableInv(s);
    WorkerStackClears(s);
    QueueDrains(s);
    forall i | 0 <= i < |s.calls|
      ensures s.calls[i].pc.Returned?
    {
      CallsReturn(s, i);
    }
  }

  lemma SettledHasFired(s: State, j: Job)
    requires Reachable(s) && Settled(s)
    ensures Count(s.fired, j) == if j in s.accepted then 1 else 0
  {
    ExactlyOnce(s, j);
    NothingDropped(s.calls, j);
  }

  lemma {:induction false} RunBound(s: State, acts: seq<Action>)
    requires Inv(s) && ValidRun(s, acts)
    requires forall k :: 0 <= k < |acts| ==> Internal(acts[k])
    ensures 0 <= |acts| <= Measure(s)
    decreases |acts|
  {
    if acts == [] {
      AtMost(s.asleep, |s.calls|);
    } else {
      StepLowersMeasure(s, acts[0]);
      StepKeepsInv(s, acts[0]);
      RunBound(Apply(s, acts[0]), acts[1..]);
    }
  }

  lemma {:induction false} RunsConcatenate(s: State, a: seq<Action>, b: seq<Action>)
    requires ValidRun(s, a) && ValidRun(Exec(s, a), b)
    ensures ValidRun(s, a + b) && Exec(s, a + b) == Exec(Exec(s, a), b)
    decreases |a|
  {
    if a == [] {
      assert a + b == b;
    } else {
      assert (a + b)[1..] == a[1..] + b;
      RunsConcatenate(Apply(s, a[0]), a[1..], b);
    }
  }

  /** Drain, shutdown and close never sleep forever: from any reachable state, the internal steps
      alone number at most Measure(s), and once they run out every call has returned and each
      accepted job has fired exactly once. */
  lemma AlwaysComesToRest(s: State, acts: seq<Action>)
    requires Reachable(s) && ValidRun(s, acts)
    requires forall k :: 0 <= k < |acts| ==> Internal(acts[k])
    ensures |acts| <= Measure(s)
    ensures Stuck(Exec(s, acts)) ==>
      && Settled(Exec(s, acts))
      && forall j :: j in Exec(s, acts).accepted ==> Count(Exec(s, acts).fired, j) == 1
  {
    ReachableInv(s);
    RunBound(s, acts);
    var t := Exec(s, acts);
    var before :| ValidRun(Init, before) && Exec(Init, before) == s;
    RunsConcatenate(Init, before, acts);
    assert Reachable(t);
    if Stuck(t) {
      StuckIsSettled(t);
      forall j | j in t.accepted
        ensures Count(t.fired, j) == 1
      {
        SettledHasFired(t, j);
      }
    }
  }
}
