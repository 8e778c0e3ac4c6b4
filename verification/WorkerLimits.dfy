/** Where the protocol stops short of its own comments, and the one loop of its critical sections. */
module WorkerLimits {
  import opened Worker
  import opened WorkerInvariant
  import opened WorkerAbort
  import opened Options

  lemma {:induction false} RunSnoc(s: State, acts: seq<Action>, a: Action)
    requires ValidRun(s, acts) && Enabled(Exec(s, acts), a)
    ensures ValidRun(s, acts + [a]) && Exec(s, acts + [a]) == Apply(Exec(s, acts), a)
    decreases |acts|
  {
    if acts == [] {
      assert acts + [a] == [a];
      assert [a][1..] == [];
    } else {
      assert (acts + [a])[1..] == acts[1..] + [a];
      RunSnoc(Apply(s, acts[0]), acts[1..], a);
    }
  }

  lemma ReachableStep(s: State, a: Action)
    requires Reachable(s) && Enabled(s, a)
    ensures Reachable(Apply(s, a))
  {
    var acts :| ValidRun(Init, acts) && Exec(Init, acts) == s;
    RunSnoc(Init, acts, a);
  }

  // ---------------------------------------------------------------- a close whose wait is already over

  const JobA: Job := Job(0, 0, 1)

  function JobB(n: nat): Job {
    Job(1, 1, n)
  }

  const Posts: seq<Call> := [Call(PostNotify, Client, false), Call(PostNotify, Client, false)]

  /** Two reads are accepted, the second of n segments, and the worker has taken the first. */
  function TwoPosted(n: nat): State {
    State([JobB(n)], true, false, true, Some(0), false, Sizing(JobA), Posts, {}, [JobA, JobB(n)], [], {}, {}, None, 0,
          false)
  }

  function CloseBegun(n: nat): State {
    TwoPosted(n).(calls := Posts + [Call(CloseEnter(0), Client, false)], closing := {0})
  }

  const WithClose: seq<Call> := Posts + [Call(CloseWait(0, []), Client, false)]

  /** The close of depot 0 has raised the flag and sleeps until the read in flight is over. */
  function CloseAsleep(n: nat): State {
    TwoPosted(n).(calls := WithClose, asleep := {2}, closing := {0}, abort := true)
  }

  /** The worker is past that read and has woken the close, which has not run yet. */
  function CloseWoken(n: nat): State {
    CloseAsleep(n).(busy := false, busyDepot := None, worker := Checking, asleep := {}, fired := [JobA])
  }

  /** The worker has taken the read of depot 1. */
  function SecondTaken(n: nat): State {
    CloseWoken(n).(queue := [], busy := true, busyDepot := Some(1), worker := Sizing(JobB(n)))
  }

  lemma TwoPostedReached(n: nat)
    ensures Reachable(TwoPosted(n))
  {
    assert ValidRun(Init, []) && Exec(Init, []) == Init;
    ReachableStep(Init, Post(Client, 0, 1, false));
    var s1 := Apply(Init, Post(Client, 0, 1, false));
    ReachableStep(s1, Post(Client, 1, n, false));
    var s2 := Apply(s1, Post(Client, 1, n, false));
    ReachableStep(s2, WorkerStep(true));
    assert Apply(s2, WorkerStep(true)) == TwoPosted(n);
  }

  lemma CloseBegunReached(n: nat)
    ensures Reachable(CloseBegun(n))
  {
    TwoPostedReached(n);
    ReachableStep(TwoPosted(n), CloseDepot(Client, 0));
  }

  lemma CloseFallsAsleep(n: nat)
    ensures CloseEnterStep(CloseBegun(n), 2, 0) == CloseAsleep(n)
  {
    assert Naming([JobB(n)], 0) == [] && NotNaming([JobB(n)], 0) == [JobB(n)];
  }

  lemma CloseAsleepReached(n: nat)
    ensures Reachable(CloseAsleep(n))
  {
    CloseBegunReached(n);
    CloseFallsAsleep(n);
    assert Enabled(CloseBegun(n), CallStep(2));
    ReachableStep(CloseBegun(n), CallStep(2));
  }

  /** A failing sizing pass, the callback and the two steps after it. */
  lemma ReadEnds(s: State, job: Job)
    requires Reachable(s) && s.worker == Sizing(job) && WorkerStackEmpty(s)
    ensures Reachable(s.(busy := false, busyDepot := None, worker := Checking, asleep := {}, fired := s.fired + [job]))
  {
    ReachableStep(s, WorkerStep(false));
    var s1 := s.(worker := InCallback(job), fired := s.fired + [job]);
    assert forall k: nat :: Live(s1, k) ==> Live(s, k);
    ReachableStep(s1, WorkerStep(true));
    var s2 := s1.(worker := Clearing(job));
    ReachableStep(s2, WorkerStep(true));
    var s3 := s2.(busy := false, busyDepot := None, worker := Notifying);
    ReachableStep(s3, WorkerStep(true));
  }

  lemma CloseWokenReached(n: nat)
    ensures Reachable(CloseWoken(n))
  {
    CloseAsleepReached(n);
    ReadEnds(CloseAsleep(n), JobA);
  }

  lemma SecondTakenReached(n: nat)
    ensures Reachable(SecondTaken(n))
  {
    CloseWokenReached(n);
    ReachableStep(CloseWoken(n), WorkerStep(true));
  }

  /** cancel_for clears the abort flag under the lock, but only after the worker may already have
      taken the next job: here the read of depot 1, which nobody closes, finds the flag raised by
      the close of depot 0 and is reported without being decoded. */
  lemma StaleAbortIsPossible(n: nat) returns (s: State)
    ensures Reachable(s)
    ensures s.worker == Reading(JobB(n), n) && JobB(n).depot !in s.closing && s.stopper == None && s.abort
    ensures Apply(s, WorkerStep(true)) == Report(s, JobB(n))
  {
    SecondTakenReached(n);
    ReachableStep(SecondTaken(n), WorkerStep(true));
    s := Apply(SecondTaken(n), WorkerStep(true));
  }

  // ---------------------------------------------------------------- that close clears the flag of another

  function DecodeAll(n: nat): seq<Action> {
    if n == 0 then [] else [WorkerStep(true), WorkerStep(true)] + DecodeAll(n - 1)
  }

  lemma RunCons(s: State, a: Action, acts: seq<Action>)
    requires Enabled(s, a) && ValidRun(Apply(s, a), acts)
    ensures ValidRun(s, [a] + acts) && Exec(s, [a] + acts) == Exec(Apply(s, a), acts)
    ensures Decodes(s, [a] + acts)
         == (if a.WorkerStep? && s.worker.Decoding? then 1 else 0) + Decodes(Apply(s, a), acts)
  {
    assert ([a] + acts)[1..] == acts;
  }

  lemma {:induction false} DecodesAll(s: State, job: Job, n: nat)
    requires s.worker == Reading(job, n) && !s.abort
    ensures ValidRun(s, DecodeAll(n)) && Decodes(s, DecodeAll(n)) == n
    ensures Exec(s, DecodeAll(n)) == s.(worker := Reading(job, 0), lateDecodes := s.lateDecodes + n)
    decreases n
  {
    if n > 0 {
      var s1 := s.(worker := Decoding(job, n));
      var s2 := s.(worker := Reading(job, n - 1), lateDecodes := s.lateDecodes + 1);
      DecodesAll(s2, job, n - 1);
      RunCons(s1, WorkerStep(true), DecodeAll(n - 1));
      RunCons(s, WorkerStep(true), [WorkerStep(true)] + DecodeAll(n - 1));
      assert DecodeAll(n) == [WorkerStep(true)] + ([WorkerStep(true)] + DecodeAll(n - 1));
    }
  }

  function ReadAll(n: nat): seq<Action> {
    [WorkerStep(true)] + DecodeAll(n)
  }

  lemma ReadsAll(s: State, job: Job)
    requires s.worker == Sizing(job) && !s.abort
    ensures ValidRun(s, ReadAll(job.segments)) && Decodes(s, ReadAll(job.segments)) == job.segments
    ensures Exec(s, ReadAll(job.segments))
         == s.(worker := Reading(job, 0), lateDecodes := s.lateDecodes + job.segments)
  {
    DecodesAll(s.(worker := Reading(job, job.segments)), job, job.segments);
    RunCons(s, WorkerStep(true), DecodeAll(job.segments));
  }

  /** A sizing pass or a decode that fails ends the read at once: it is reported with what was decoded
      by then, and nothing more of it is. */
  lemma FailureEndsRead(s: State)
    requires s.worker.Sizing? || s.worker.Decoding?
    ensures var t := Apply(s, WorkerStep(false));
      t.worker == InCallback(s.worker.job) && t.fired == s.fired + [s.worker.job]
  {
  }

  /** A read that nothing cuts short decodes each of its segments once and only then reports. */
  lemma WholeReadDecodesAll(s: State, job: Job)
    requires s.worker == Sizing(job) && !s.abort
    ensures ValidRun(s, ReadAll(job.segments)) && Decodes(s, ReadAll(job.segments)) == job.segments
    ensures var t := Exec(s, ReadAll(job.segments));
      t.fired == s.fired && Apply(t, WorkerStep(true)).worker == InCallback(job)
      && Apply(t, WorkerStep(true)).fired == s.fired + [job]
  {
    ReadsAll(s, job);
  }

  /** The close of depot 0 leaves its wait, and the worker goes on to decode its read. */
  function ClearAndDecode(n: nat): seq<Action> {
    [CallStep(2)] + ReadAll(n)
  }

  lemma FirstCloseLeaves(s: State)
    requires |s.calls| == 4 && s.calls[2] == Call(CloseWait(0, []), Client, false) && 2 !in s.asleep
    requires s.busyDepot == Some(1)
    ensures Enabled(s, CallStep(2)) && Apply(s, CallStep(2)) == CloseWaitStep(s, 2, 0, [])
    ensures CloseWaitStep(s, 2, 0, [])
         == s.(abort := false, abortIntact := false, asleep := {}, calls := CloseWaitStep(s, 2, 0, []).calls)
    ensures |CloseWaitStep(s, 2, 0, []).calls| == 4 && CloseWaitStep(s, 2, 0, []).calls[3] == s.calls[3]
  {
  }

  lemma ClearedThenDecodes(s: State, n: nat)
    requires |s.calls| == 4 && s.calls[2] == Call(CloseWait(0, []), Client, false) && 2 !in s.asleep
    requires s.busyDepot == Some(1) && s.worker == Sizing(JobB(n))
    ensures var t := Exec(s, ClearAndDecode(n));
      && ValidRun(s, ClearAndDecode(n)) && Decodes(s, ClearAndDecode(n)) == n
      && t.lateDecodes == s.lateDecodes + n && t.busy == s.busy && t.busyDepot == s.busyDepot
      && t.stopper == s.stopper && |t.calls| == 4 && t.calls[3] == s.calls[3]
  {
    FirstCloseLeaves(s);
    ReadsAll(CloseWaitStep(s, 2, 0, []), JobB(n));
    RunCons(s, CallStep(2), ReadAll(n));
  }

  /** A shutdown begins while the worker has the second read in hand. */
  function StopBegun(n: nat): State {
    SecondTaken(n).(calls := WithClose + [Call(StopRaise, Client, false)], stopper := Some(3))
  }

  /** Without the condition of AtMostOneLateDecode its bound fails by any amount: the close of depot
      0 clears the flag the shutdown has raised, and n decodes finish before the shutdown ends. */
  lemma LateDecodesUnbounded(n: nat)
    ensures Reachable(StopBegun(n)) && Enabled(StopBegun(n), CallStep(3)) && StopBegun(n).calls[3].pc == StopRaise
    ensures var s := Apply(StopBegun(n), CallStep(3));
      && ValidRun(s, ClearAndDecode(n)) && Decodes(s, ClearAndDecode(n)) == n
      && Raised(StopPc(Exec(s, ClearAndDecode(n)))) && Exec(s, ClearAndDecode(n)).lateDecodes == n
  {
    SecondTakenReached(n);
    ReachableStep(SecondTaken(n), Shutdown(Client));
    assert Apply(SecondTaken(n), Shutdown(Client)) == StopBegun(n);
    var s := Apply(StopBegun(n), CallStep(3));
    assert s.calls == WithClose + [Call(StopEnter, Client, false)];
    ClearedThenDecodes(s, n);
  }

  /** A close of depot 1 begins while the worker reads that depot. */
  function SecondClose(n: nat): State {
    SecondTaken(n).(calls := WithClose + [Call(CloseEnter(1), Client, false)], closing := {0, 1})
  }

  lemma SecondCloseReached(n: nat)
    ensures Reachable(SecondClose(n)) && Enabled(SecondClose(n), CallStep(3)) && MustWait(SecondClose(n), 3)
  {
    SecondTakenReached(n);
    ReachableStep(SecondTaken(n), CloseDepot(Client, 1));
    assert {0} + {1} == {0, 1};
    assert Apply(SecondTaken(n), CloseDepot(Client, 1)) == SecondClose(n);
  }

  /** The wait of a close is not bounded by one decode when another close is still at its wait: that
      one clears the flag, and the whole read, however long, is decoded with the wait not over. */
  lemma CloseMayOutwaitTheRead(n: nat)
    ensures Reachable(SecondClose(n)) && Enabled(SecondClose(n), CallStep(3)) && MustWait(SecondClose(n), 3)
    ensures var s := Apply(SecondClose(n), CallStep(3));
      var t := Exec(s, ClearAndDecode(n));
      && s.abort && ValidRun(s, ClearAndDecode(n)) && Decodes(s, ClearAndDecode(n)) == n
      && |t.calls| == 4 && t.calls[3].pc == CloseWait(1, []) && !WaitOver(t, t.calls[3].pc)
  {
    SecondCloseReached(n);
    var s := Apply(SecondClose(n), CallStep(3));
    assert s.calls == WithClose + [Call(CloseWait(1, []), Client, false)];
    ClearedThenDecodes(s, n);
  }

  // ---------------------------------------------------------------- between reopening and lowering

  /** The one call of a shutdown that finds nothing to stop, with the flag raised. */
  function Stopping(pc: CallPc): State {
    Init.(calls := [Call(pc, Client, false)], stopper := Some(0), quiescing := !pc.StopEnter?, abort := true,
          abortIntact := true)
  }

  lemma StopEntered()
    ensures Reachable(Stopping(StopEnter))
  {
    assert ValidRun(Init, []) && Exec(Init, []) == Init;
    ReachableStep(Init, Shutdown(Client));
    var s1 := Apply(Init, Shutdown(Client));
    ReachableStep(s1, CallStep(0));
    assert Apply(s1, CallStep(0)) == Stopping(StopEnter);
  }

  lemma StopTookNothing()
    ensures Reachable(Stopping(StopJoin(false, [])))
  {
    StopEntered();
    ReachableStep(Stopping(StopEnter), CallStep(0));
    assert Apply(Stopping(StopEnter), CallStep(0)) == Stopping(StopNotify(false, []));
    ReachableStep(Stopping(StopNotify(false, [])), CallStep(0));
    assert Apply(Stopping(StopNotify(false, [])), CallStep(0)) == Stopping(StopJoin(false, []));
  }

  lemma StopFires()
    ensures Reachable(Stopping(StopFire([])))
  {
    StopTookNothing();
    ReachableStep(Stopping(StopJoin(false, [])), CallStep(0));
    assert Apply(Stopping(StopJoin(false, [])), CallStep(0)) == Stopping(StopFire([]));
  }

  /** A shutdown admits posts before it lowers the flag: a read accepted in between can be cut short
      before its first decode, although it was queued after the shutdown had cancelled everything. */
  lemma ReopenedReadIsCutShort(n: nat) returns (s: State)
    requires n > 0
    ensures Reachable(s) && !s.quiescing && s.closing == {} && s.queue == [Job(0, 1, n)] && s.accepted == s.queue
    ensures ValidRun(s, TakeAndTest) && Exec(s, TakeAndTest).fired == [Job(0, 1, n)]
    ensures Decodes(s, TakeAndTest) == 0
  {
    StopFires();
    assert !HasLiveChild(Stopping(StopFire([])), 0);
    ReachableStep(Stopping(StopFire([])), CallStep(0));
    var open := Apply(Stopping(StopFire([])), CallStep(0));
    assert !open.quiescing && open.abort;
    ReachableStep(open, Post(Client, 1, n, false));
    s := Apply(open, Post(Client, 1, n, false));
    NextReadCutIff(s);
    AtMostTheDecodeBegun(s, TakeAndTest);
  }

  // ---------------------------------------------------------------- the erase loop

  lemma {:induction false} NotNamingSnoc(jobs: seq<Job>, job: Job, d: DepotId)
    ensures NotNaming(jobs + [job], d) == NotNaming(jobs, d) + (if job.depot == d then [] else [job])
    ensures Naming(jobs + [job], d) == Naming(jobs, d) + (if job.depot == d then [job] else [])
  {
    if jobs == [] {
      assert jobs + [job] == [job];
      assert [job][1..] == [];
    } else {
      assert (jobs + [job])[1..] == jobs[1..] + [job];
      NotNamingSnoc(jobs[1..], job, d);
    }
  }

  /** The erase loop of cancel_for takes exactly the jobs of one depot off the queue and keeps both
      the removed and the remaining jobs in their order. */
  method PurgeQueue(queue: seq<Job>, depot: DepotId) returns (kept: seq<Job>, cancelled: seq<Job>)
    ensures kept == NotNaming(queue, depot)
    ensures cancelled == Naming(queue, depot)
  {
    kept, cancelled := queue, [];
    var it := 0;
    ghost var n := 0;
    while it < |kept|
      invariant it <= |kept| && n <= |queue| && kept[it..] == queue[n..]
      invariant kept[..it] == NotNaming(queue[..n], depot) && cancelled == Naming(queue[..n], depot)
      decreases |kept| - it
    {
      var job := kept[it];
      assert job == kept[it..][0] && queue[n..][0] == queue[n];
      assert kept[it..][1..] == kept[it + 1..] && queue[n..][1..] == queue[n + 1..];
      assert queue[..n + 1] == queue[..n] + [job];
      NotNamingSnoc(queue[..n], job, depot);
      n := n + 1;
      if job.depot == depot {
        cancelled := cancelled + [job];
        kept := kept[..it] + kept[it + 1..];
      } else {
        it := it + 1;
      }
    }
    assert queue[..n] == queue;
  }
}
