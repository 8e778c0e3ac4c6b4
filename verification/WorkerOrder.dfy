/** The worker serves the queue in the order of acceptance, and decodes what it serves in full. */
module WorkerOrder {
  import opened Worker
  import opened WorkerInvariant
  import opened WorkerJobs

  // ---------------------------------------------------------------- how the queue moves

  /** The worker has the same job in hand as before, or none. */
  predicate SameHand(s: State, t: State) {
    Unfired(t.worker) ==> Unfired(s.worker) && t.worker.job == s.worker.job
  }

  predicate Shrinks(s: State, t: State) {
    SameHand(s, t) && t.accepted == s.accepted && (t.queue == s.queue || t.queue == [])
  }

  predicate Purges(s: State, t: State, d: DepotId) {
    SameHand(s, t) && t.accepted == s.accepted && t.queue == NotNaming(s.queue, d)
  }

  predicate Takes(s: State, t: State) {
    && s.queue != [] && t.accepted == s.accepted && t.queue == s.queue[1..]
    && (Unfired(t.worker) ==> t.worker.job == s.queue[0])
  }

  predicate Accepts(s: State, t: State, job: Job) {
    && SameHand(s, t) && job.id == |s.accepted|
    && t.accepted == s.accepted + [job] && t.queue == s.queue + [job]
  }

  ghost predicate QueueMoves(s: State, t: State) {
    Shrinks(s, t) || Takes(s, t) || (exists d :: Purges(s, t, d)) || exists job :: Accepts(s, t, job)
  }

  lemma FrameShrinks(s: State, t: State, i: nat)
    requires OnlyCall(s, t, i) && !s.calls[i].pc.CloseEnter?
    ensures Shrinks(s, t)
  {
  }

  lemma FramePurges(s: State, t: State, i: nat, d: DepotId)
    requires OnlyCall(s, t, i) && Purged(s, t, i, d)
    ensures Purges(s, t, d)
  {
  }

  lemma CloseMovesQueue(s: State, i: nat, d: DepotId)
    requires Live(s, i) && s.calls[i].pc == CloseEnter(d)
    ensures Purges(s, DoCallStep(s, i), d)
  {
    CloseEnterPurges(s, i, d);
    FramePurges(s, CloseEnterStep(s, i, d), i, d);
  }

  lemma OtherMovesQueue(s: State, i: nat)
    requires Enabled(s, CallStep(i)) && !s.calls[i].pc.CloseEnter?
    ensures Shrinks(s, Apply(s, CallStep(i)))
  {
    CallMoves(s, i);
    FrameShrinks(s, Apply(s, CallStep(i)), i);
  }

  lemma CallMovesQueue(s: State, i: nat)
    requires Enabled(s, CallStep(i))
    ensures QueueMoves(s, Apply(s, CallStep(i)))
  {
    if s.calls[i].pc.CloseEnter? {
      CloseMovesQueue(s, i, s.calls[i].pc.depot);
    } else {
      OtherMovesQueue(s, i);
    }
  }

  lemma PostMovesQueue(s: State, c: Caller, d: DepotId, n: nat, fails: bool)
    ensures QueueMoves(s, DoPost(s, c, d, n, fails))
  {
    if s.quiescing {
    } else if !s.joinable && fails {
      RefusedSpawnChangesNothing(s, c, d, n);
    } else {
      assert Accepts(s, DoPost(s, c, d, n, fails), Job(|s.accepted|, d, n));
    }
  }

  lemma CheckTakes(s: State)
    ensures Shrinks(s, WorkerCheck(s)) || Takes(s, WorkerCheck(s))
  {
  }

  lemma ReadTakesNothing(s: State, ok: bool)
    requires Unfired(s.worker)
    ensures Shrinks(s, DoWorkerStep(s, ok))
  {
  }

  lemma WorkerMovesQueue(s: State, ok: bool)
    requires Enabled(s, WorkerStep(ok))
    ensures Shrinks(s, DoWorkerStep(s, ok)) || Takes(s, DoWorkerStep(s, ok))
  {
    match s.worker
    case Checking => CheckTakes(s);
    case InCallback(_) =>
    case Clearing(_) =>
    case Notifying =>
    case _ => ReadTakesNothing(s, ok);
  }

  lemma OthersMoveNothing(s: State, a: Action)
    requires Enabled(s, a) && !a.Post? && !a.CallStep? && !a.WorkerStep?
    ensures Shrinks(s, Apply(s, a))
  {
  }

  lemma StepMovesQueue(s: State, a: Action)
    requires Enabled(s, a)
    ensures QueueMoves(s, Apply(s, a))
  {
    match a
    case Post(c, d, n, fails) => PostMovesQueue(s, c, d, n, fails);
    case CallStep(i) => CallMovesQueue(s, i);
    case WorkerStep(ok) => WorkerMovesQueue(s, ok);
    case _ => OthersMoveNothing(s, a);
  }

  // ---------------------------------------------------------------- oldest first

  predicate Ascending(jobs: seq<Job>) {
    forall a, b :: 0 <= a < b < |jobs| ==> jobs[a].id < jobs[b].id
  }

  predicate Above(jobs: seq<Job>, id: nat) {
    forall j :: j in jobs ==> id < j.id
  }

  predicate Below(jobs: seq<Job>, bound: nat) {
    forall j :: j in jobs ==> j.id < bound
  }

  /** Jobs wait in the order of acceptance, and the one being read is older than all of them. */
  predicate InOrder(s: State) {
    && Ascending(s.queue) && Below(s.queue, |s.accepted|)
    && (Unfired(s.worker) ==> Above(s.queue, s.worker.job.id) && s.worker.job.id < |s.accepted|)
  }

  lemma {:induction false} PurgeAscends(jobs: seq<Job>, d: DepotId)
    requires Ascending(jobs)
    ensures Ascending(NotNaming(jobs, d))
    ensures forall j :: j in NotNaming(jobs, d) ==> j in jobs
  {
    if jobs != [] {
      var rest := NotNaming(jobs[1..], d);
      PurgeAscends(jobs[1..], d);
      forall k | 0 <= k < |rest|
        ensures jobs[0].id < rest[k].id
      {
        assert rest[k] in jobs[1..];
      }
    }
  }

  lemma MoveKeepsOrder(s: State, t: State)
    requires InOrder(s) && QueueMoves(s, t)
    ensures InOrder(t)
  {
    if d :| Purges(s, t, d) {
      PurgeAscends(s.queue, d);
    } else if Takes(s, t) {
      assert forall k :: 0 <= k < |t.queue| ==> t.queue[k] == s.queue[k + 1] && t.queue[k] in s.queue;
    } else if job :| Accepts(s, t, job) {
      assert forall k :: 0 <= k < |s.queue| ==> s.queue[k] in s.queue;
    }
  }

  /** Every job queued later is younger than `id`. */
  predicate AllYounger(s: State, id: nat) {
    id < |s.accepted| && Above(s.queue, id)
  }

  lemma MoveKeepsYounger(s: State, t: State, id: nat)
    requires AllYounger(s, id) && QueueMoves(s, t)
    ensures AllYounger(t, id)
  {
    if d :| Purges(s, t, d) {
      PurgeSplits(s.queue, d);
    }
  }

  lemma {:induction false} RunKeepsOrder(s: State, acts: seq<Action>)
    requires InOrder(s) && ValidRun(s, acts)
    ensures InOrder(Exec(s, acts))
    decreases |acts|
  {
    if acts != [] {
      StepMovesQueue(s, acts[0]);
      MoveKeepsOrder(s, Apply(s, acts[0]));
      RunKeepsOrder(Apply(s, acts[0]), acts[1..]);
    }
  }

  lemma {:induction false} RunKeepsYounger(s: State, acts: seq<Action>, id: nat)
    requires AllYounger(s, id) && ValidRun(s, acts)
    ensures AllYounger(Exec(s, acts), id)
    decreases |acts|
  {
    if acts != [] {
      StepMovesQueue(s, acts[0]);
      MoveKeepsYounger(s, Apply(s, acts[0]), id);
      RunKeepsYounger(Apply(s, acts[0]), acts[1..], id);
    }
  }

  lemma ReachableInOrder(s: State)
    requires Reachable(s)
    ensures InOrder(s)
  {
    var acts :| ValidRun(Init, acts) && Exec(Init, acts) == s;
    RunKeepsOrder(Init, acts);
  }

  lemma TakesHead(s: State)
    requires s.worker.Checking? && s.queue != []
    ensures Apply(s, WorkerStep(true)).worker == Sizing(s.queue[0])
    ensures s.queue == [s.queue[0]] + Apply(s, WorkerStep(true)).queue
  {
  }

  /** The worker takes the job accepted first of those still queued, and on no continuation of the run
      is a job accepted before it queued again. */
  lemma OldestFirst(s: State, acts: seq<Action>)
    requires Reachable(s) && s.worker.Checking? && s.queue != []
    requires ValidRun(Apply(s, WorkerStep(true)), acts)
    ensures var taken := Apply(s, WorkerStep(true));
      && taken.worker == Sizing(s.queue[0]) && s.queue == [s.queue[0]] + taken.queue
      && Above(taken.queue, s.queue[0].id) && Above(Exec(taken, acts).queue, s.queue[0].id)
  {
    var taken := Apply(s, WorkerStep(true));
    TakesHead(s);
    ReachableInOrder(s);
    StepMovesQueue(s, WorkerStep(true));
    MoveKeepsOrder(s, taken);
    RunKeepsYounger(taken, acts, s.queue[0].id);
  }
}
