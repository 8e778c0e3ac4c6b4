/** The abort flag: when it rises and falls, who owns it, and what a raised flag bounds. */
module WorkerAbort {
  import opened Worker
  import opened WorkerInvariant
  import opened WorkerJobs
  import opened Options

  // ---------------------------------------------------------------- what a step leaves alone

  /** The frame of what is neither a step of a call nor one of the worker. */
  predicate OnlyBegins(s: State, t: State) {
    && s.calls <= t.calls && t.abort == s.abort
    && (t.stopper == s.stopper || s.stopper == None)
    && (t.worker.Decoding? ==> s.worker.Decoding?)
  }

  lemma ClientOnlyBegins(s: State, a: Action)
    requires Enabled(s, a) && !a.CallStep? && !a.WorkerStep?
    ensures OnlyBegins(s, Apply(s, a))
  {
  }

  lemma CallPersists(s: State, a: Action, k: nat)
    requires Enabled(s, a) && k < |s.calls| && a != CallStep(k)
    ensures k < |Apply(s, a).calls| && Apply(s, a).calls[k] == s.calls[k]
  {
    match a
    case CallStep(i) => CallMoves(s, i);
    case WorkerStep(ok) => WorkerStepMoves(s, ok);
    case _ => ClientOnlyBegins(s, a);
  }

  // ---------------------------------------------------------------- when the flag moves

  /** cancel_for finds the worker reading the depot it closes, and is not on the worker itself. */
  predicate MustWait(s: State, i: nat) {
    && i < |s.calls| && s.calls[i].pc.CloseEnter?
    && !s.calls[i].onWorker && s.busy && s.busyDepot == Some(s.calls[i].pc.depot)
  }

  predicate RaisesFlag(s: State, a: Action) {
    a.CallStep? && Live(s, a.i) && (s.calls[a.i].pc.StopRaise? || MustWait(s, a.i))
  }

  predicate LowersFlag(s: State, a: Action) {
    a.CallStep? && Live(s, a.i) && (s.calls[a.i].pc.StopLower? || LeavesWait(s, a.i))
  }

  lemma CloseMovesFlag(s: State, i: nat)
    requires Live(s, i) && (s.calls[i].pc.CloseEnter? || s.calls[i].pc.CloseWait?)
    ensures DoCallStep(s, i).abort
       <==> RaisesFlag(s, CallStep(i)) || (s.abort && !LowersFlag(s, CallStep(i)))
  {
  }

  lemma StopMovesFlag(s: State, i: nat)
    requires Live(s, i) && (s.calls[i].pc.StopRaise? || s.calls[i].pc.StopLower? || s.calls[i].pc.StopWake?)
    ensures DoCallStep(s, i).abort
       <==> RaisesFlag(s, CallStep(i)) || (s.abort && !LowersFlag(s, CallStep(i)))
  {
  }

  lemma StopHoldsFlag(s: State, i: nat)
    requires Live(s, i) && (s.calls[i].pc.StopEnter? || Quiesced(s.calls[i].pc))
    ensures DoCallStep(s, i).abort == s.abort
  {
  }

  lemma CallMovesFlag(s: State, i: nat)
    requires Live(s, i)
    ensures DoCallStep(s, i).abort
       <==> RaisesFlag(s, CallStep(i)) || (s.abort && !LowersFlag(s, CallStep(i)))
  {
    match s.calls[i].pc
    case PostNotify =>
    case DrainWait =>
    case CloseEnter(_) => CloseMovesFlag(s, i);
    case CloseWait(_, _) => CloseMovesFlag(s, i);
    case CloseFire(_, _) =>
    case StopRaise => StopMovesFlag(s, i);
    case StopLower => StopMovesFlag(s, i);
    case StopWake => StopMovesFlag(s, i);
    case _ => StopHoldsFlag(s, i);
  }

  /** The flag rises when a shutdown begins or a close finds its depot being read, and falls when a
      shutdown ends or any close leaves its wait: by nothing else, whoever raised it. */
  lemma FlagMoves(s: State, a: Action)
    requires Enabled(s, a)
    ensures Apply(s, a).abort <==> RaisesFlag(s, a) || (s.abort && !LowersFlag(s, a))
  {
    match a
    case CallStep(i) => CallMovesFlag(s, i);
    case WorkerStep(ok) => WorkerStepMoves(s, ok);
    case _ => ClientOnlyBegins(s, a);
  }

  // ---------------------------------------------------------------- what stays while it is up

  predicate ClosingWaits(s: State, i: nat) {
    i < |s.calls| && s.calls[i].pc.CloseWait?
  }

  lemma WaiterPersists(s: State, a: Action, k: nat)
    requires Enabled(s, a) && ClosingWaits(s, k) && !LowersFlag(s, a)
    ensures k < |Apply(s, a).calls| && Apply(s, a).calls[k] == s.calls[k]
  {
    if a != CallStep(k) {
      CallPersists(s, a, k);
    }
  }

  lemma FrameStaysRaised(s: State, t: State, i: nat)
    requires StopperOk(s) && Raised(StopPc(s)) && OnlyCall(s, t, i) && !s.calls[i].pc.StopLower?
    ensures Raised(StopPc(t))
  {
    assert s.stopper == Some(i) || !StopPhase(s.calls[i].pc);
  }

  lemma CallStaysRaised(s: State, i: nat)
    requires StopperOk(s) && Enabled(s, CallStep(i)) && Raised(StopPc(s)) && !s.calls[i].pc.StopLower?
    ensures Raised(StopPc(Apply(s, CallStep(i))))
  {
    CallMoves(s, i);
    FrameStaysRaised(s, Apply(s, CallStep(i)), i);
  }

  lemma StaysRaised(s: State, a: Action)
    requires StopperOk(s) && Enabled(s, a) && Raised(StopPc(s)) && !LowersFlag(s, a)
    ensures Raised(StopPc(Apply(s, a)))
  {
    match a
    case CallStep(i) => CallStaysRaised(s, i);
    case WorkerStep(ok) => WorkerStepMoves(s, ok);
    case _ => ClientOnlyBegins(s, a);
  }

  // ---------------------------------------------------------------- the owner

  /** A raised flag belongs to the shutdown in progress or to a close that is still at its wait. */
  ghost predicate Owned(s: State) {
    s.abort ==> Raised(StopPc(s)) || exists i: nat :: ClosingWaits(s, i)
  }

  lemma RaiseIsOwned(s: State, i: nat)
    requires StopperOk(s) && RaisesFlag(s, CallStep(i))
    ensures Owned(DoCallStep(s, i))
  {
    var t := DoCallStep(s, i);
    if MustWait(s, i) {
      assert ClosingWaits(t, i);
    } else {
      assert s.stopper == Some(i) && t.stopper == Some(i);
    }
  }

  lemma StepKeepsOwned(s: State, a: Action)
    requires StopperOk(s) && Owned(s) && Enabled(s, a)
    ensures Owned(Apply(s, a))
  {
    FlagMoves(s, a);
    if RaisesFlag(s, a) {
      RaiseIsOwned(s, a.i);
    } else if s.abort && !LowersFlag(s, a) {
      if Raised(StopPc(s)) {
        StaysRaised(s, a);
      } else {
        var k: nat :| ClosingWaits(s, k);
        WaiterPersists(s, a, k);
        assert ClosingWaits(Apply(s, a), k);
      }
    }
  }

  lemma {:induction false} RunKeepsOwned(s: State, acts: seq<Action>)
    requires Inv(s) && Owned(s) && ValidRun(s, acts)
    ensures Owned(Exec(s, acts))
    decreases |acts|
  {
    if acts != [] {
      StepKeepsOwned(s, acts[0]);
      StepKeepsInv(s, acts[0]);
      RunKeepsOwned(Apply(s, acts[0]), acts[1..]);
    }
  }

  /** A close at its wait: for the read in hand, or with its wait already over. */
  predicate CutsShort(s: State, i: nat) {
    && ClosingWaits(s, i)
    && (Unfired(s.worker) ==>
          s.calls[i].pc.depot == s.worker.job.depot || WaitOver(s, s.calls[i].pc))
  }

  /** A read is cut short by the flag only during a shutdown, or on behalf of a close: of its own
      depot, or of another whose wait is already over but which has not run since. Without a
      shutdown and without a close at its wait, no read sees the flag. */
  lemma AbortHasOwner(s: State)
    requires Reachable(s) && s.abort && !Raised(StopPc(s))
    ensures exists i: nat :: CutsShort(s, i)
  {
    ReachableInv(s);
    var acts :| ValidRun(Init, acts) && Exec(Init, acts) == s;
    RunKeepsOwned(Init, acts);
    var i: nat :| ClosingWaits(s, i);
    assert CutsShort(s, i);
  }

  // ---------------------------------------------------------------- what a raised flag bounds

  /** Segment decodes that finish in a run. */
  function Decodes(s: State, acts: seq<Action>): nat
    decreases |acts|
  {
    if acts == [] then 0
    else
      (if acts[0].WorkerStep? && s.worker.Decoding? then 1 else 0) + Decodes(Apply(s, acts[0]), acts[1..])
  }


  /** No step of the run lowers the flag. */
  predicate FlagHeld(s: State, acts: seq<Action>)
    decreases |acts|
  {
    acts == [] || (!LowersFlag(s, acts[0]) && FlagHeld(Apply(s, acts[0]), acts[1..]))
  }

  lemma NoDecodeBeginsByCall(s: State, t: State, i: nat)
    requires OnlyCall(s, t, i) && t.worker.Decoding?
    ensures s.worker.Decoding?
  {
  }

  lemma NoDecodeBeginsByWorker(s: State, ok: bool)
    requires s.abort
    ensures s.worker.Decoding? || !DoWorkerStep(s, ok).worker.Decoding?
    ensures s.worker.Decoding? ==> !DoWorkerStep(s, ok).worker.Decoding?
  {
  }

  /** Under the flag no decode begins. */
  lemma NoDecodeBegins(s: State, a: Action)
    requires Enabled(s, a) && s.abort && Apply(s, a).worker.Decoding?
    ensures s.worker.Decoding? && !a.WorkerStep?
  {
    match a
    case CallStep(i) =>
      CallMoves(s, i);
      NoDecodeBeginsByCall(s, Apply(s, a), i);
    case WorkerStep(ok) => NoDecodeBeginsByWorker(s, ok);
    case _ => ClientOnlyBegins(s, a);
  }

  /** As long as nobody lowers a raised flag, the decode already begun is the last: a job taken from
      the queue meanwhile, by whomever it was posted, is not decoded at all. */
  lemma {:induction false} AtMostTheDecodeBegun(s: State, acts: seq<Action>)
    requires s.abort && ValidRun(s, acts) && FlagHeld(s, acts)
    ensures Exec(s, acts).abort
    ensures Decodes(s, acts) + (if Exec(s, acts).worker.Decoding? then 1 else 0)
         <= if s.worker.Decoding? then 1 else 0
    decreases |acts|
  {
    if acts != [] {
      var t := Apply(s, acts[0]);
      FlagMoves(s, acts[0]);
      if t.worker.Decoding? {
        NoDecodeBegins(s, acts[0]);
      }
      AtMostTheDecodeBegun(t, acts[1..]);
    }
  }

  lemma {:induction false} RunKeepsWaiter(s: State, acts: seq<Action>, k: nat)
    requires ValidRun(s, acts) && FlagHeld(s, acts) && ClosingWaits(s, k)
    ensures k < |Exec(s, acts).calls| && Exec(s, acts).calls[k] == s.calls[k]
    decreases |acts|
  {
    if acts != [] {
      WaiterPersists(s, acts[0], k);
      RunKeepsWaiter(Apply(s, acts[0]), acts[1..], k);
    }
  }

  /** The wait of a close is bounded by one segment decode as long as nobody lowers the flag it
      raised, that is until its own wait ends, another close leaves its wait, or a shutdown ends. */
  lemma CloseWaitsOneDecode(s: State, i: nat, acts: seq<Action>)
    requires Enabled(s, CallStep(i)) && MustWait(s, i)
    requires ValidRun(Apply(s, CallStep(i)), acts) && FlagHeld(Apply(s, CallStep(i)), acts)
    ensures var t := Exec(Apply(s, CallStep(i)), acts);
      && Decodes(Apply(s, CallStep(i)), acts) <= 1
      && t.abort && ClosingWaits(t, i)
      && t.calls[i].pc == CloseWait(s.calls[i].pc.depot, Naming(s.queue, s.calls[i].pc.depot))
  {
    var u := Apply(s, CallStep(i));
    FlagMoves(s, CallStep(i));
    AtMostTheDecodeBegun(u, acts);
    assert u.calls[i].pc == CloseWait(s.calls[i].pc.depot, Naming(s.queue, s.calls[i].pc.depot));
    RunKeepsWaiter(u, acts, i);
  }

  /** Three steps of the worker alone, from the test of its queue to the test of the flag. */
  const TakeAndTest: seq<Action> := [WorkerStep(true), WorkerStep(true), WorkerStep(true)]

  /** A job the worker is about to take is cut short before its first decode exactly when the flag is
      up, whoever raised it and whatever depot the job names. */
  lemma NextReadCutIff(s: State)
    requires s.worker.Checking? && s.queue != [] && s.queue[0].segments > 0
    ensures ValidRun(s, TakeAndTest)
    ensures var job, t := s.queue[0], Exec(s, TakeAndTest);
      && (s.abort <==> t.worker == InCallback(job) && t.fired == s.fired + [job])
      && (!s.abort <==> t.worker == Decoding(job, job.segments) && t.fired == s.fired)
  {
    var job := s.queue[0];
    var s1 := Apply(s, WorkerStep(true));
    var s2 := Apply(s1, WorkerStep(true));
    assert s1.worker == Sizing(job) && s2.worker == Reading(job, job.segments);
    var tail := TakeAndTest[1..];
    assert tail == [WorkerStep(true), WorkerStep(true)] && tail[1..] == [WorkerStep(true)] && tail[1..][1..] == [];
    assert Exec(s2, tail[1..]) == Exec(Apply(s2, WorkerStep(true)), []);
    assert Exec(s1, tail) == Exec(s2, tail[1..]);
    assert ValidRun(Apply(s2, WorkerStep(true)), []);
    assert ValidRun(s2, tail[1..]);
    assert ValidRun(s1, tail);
  }
}
