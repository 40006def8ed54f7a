/** The request deliverer as interleaved steps of one delivering thread and its workers: the
    counting barrier of waitFinish with the two locks it takes, and the shutdown by null requests. */
module AsyncDeliver {
  type Request = nat

  datatype Item = Req(req: Request) | Null

  /** Where a worker is in Task::run. A worker in Decremented holds the deliver mutex and is about
      to broadcast if the count is used up. */
  datatype Worker = Waiting | Running(req: Request) | HasRun(req: Request) | Decremented | Exited

  /** Where the delivering thread is. Enlisting holds the deliver mutex, Registering only the
      condition's own mutex; Blocked waits for its event; Stopping(k) has queued k nulls. */
  datatype Boss =
    | Idle | Counted(req: Request) | Enlisting | Registering | Blocked | Finished
    | Stopping(k: nat) | Joining | Stopped

  datatype State = State(
    boss: Boss, workers: seq<Worker>, queue: seq<Item>, count: int,
    enlisted: bool, event: bool,
    delivered: seq<Request>, completed: seq<Request>)

  const CAPACITY: nat := 20

  datatype Step =
    | Count(req: Request) | Enqueue | CheckWait | Register | EnterQueue | Wake
    | BeginStop | EnqueueNull | WaitEmpty | Join
    | Take(w: nat) | RunReq(w: nat) | Decrement(w: nat) | Broadcast(w: nat)

  /** The deliver mutex is held by nobody. */
  predicate MutexFree(s: State) {
    !s.boss.Enlisting? && forall i :: 0 <= i < |s.workers| ==> !s.workers[i].Decremented?
  }

  predicate Enabled(s: State, step: Step) {
    match step
    case Count(_) => (s.boss.Idle? || s.boss.Finished?) && MutexFree(s)
    case Enqueue => s.boss.Counted? && |s.queue| < CAPACITY
    case CheckWait => (s.boss.Idle? || s.boss.Finished?) && MutexFree(s)
    case Register => s.boss.Enlisting?
    case EnterQueue => s.boss.Registering?
    case Wake => s.boss.Blocked? && s.event && MutexFree(s)
    case BeginStop => s.boss.Idle? || s.boss.Finished?
    case EnqueueNull => s.boss.Stopping? && s.boss.k < |s.workers| && |s.queue| < CAPACITY
    case WaitEmpty => s.boss.Stopping? && s.boss.k == |s.workers| && s.queue == []
    case Join => s.boss.Joining? && forall i :: 0 <= i < |s.workers| ==> s.workers[i].Exited?
    case Take(w) => w < |s.workers| && s.workers[w].Waiting? && s.queue != []
    case RunReq(w) => w < |s.workers| && s.workers[w].Running?
    case Decrement(w) => w < |s.workers| && s.workers[w].HasRun? && MutexFree(s)
    case Broadcast(w) => w < |s.workers| && s.workers[w].Decremented? && !s.boss.Registering?
  }

  function Apply(s: State, step: Step): State
    requires Enabled(s, step)
  {
    match step
    case Count(r) => s.(boss := Counted(r), count := s.count + 1, delivered := s.delivered + [r])
    case Enqueue => s.(boss := Idle, queue := s.queue + [Req(s.boss.req)])
    case CheckWait => if s.count > 0 then s.(boss := Enlisting) else s.(boss := Finished)
    case Register => s.(boss := Registering)
    case EnterQueue => s.(boss := Blocked, enlisted := true)
    case Wake => s.(boss := Finished, event := false)
    case BeginStop => s.(boss := Stopping(0))
    case EnqueueNull => s.(boss := Stopping(s.boss.k + 1), queue := s.queue + [Null])
    case WaitEmpty => s.(boss := Joining)
    case Join => s.(boss := Stopped)
    case Take(w) =>
      var item := s.queue[0];
      s.(queue := s.queue[1..], workers := s.workers[w := if item.Req? then Running(item.req) else Exited])
    case RunReq(w) =>
      var r := s.workers[w].req;
      s.(workers := s.workers[w := HasRun(r)], completed := s.completed + [r])
    case Decrement(w) => s.(workers := s.workers[w := Decremented], count := s.count - 1)
    case Broadcast(w) =>
      var t := s.(workers := s.workers[w := Waiting]);
      if s.count <= 0 && s.enlisted then t.(event := true, enlisted := false) else t
  }

  predicate Init(s: State) {
    && s.boss == Idle && s.queue == [] && s.count == 0 && !s.enlisted && !s.event
    && s.delivered == [] && s.completed == [] && |s.workers| > 0
    && forall i :: 0 <= i < |s.workers| ==> s.workers[i] == Waiting
  }

  /** What a tally of the workers looks for. */
  datatype Pick = RunningReq(req: Request) | Busy | Gone

  function Hit(p: Pick, w: Worker): nat {
    match p
    case RunningReq(r) => if w == Running(r) then 1 else 0
    case Busy => if w.Running? || w.HasRun? then 1 else 0
    case Gone => if w.Exited? then 1 else 0
  }

  function Tally(p: Pick, ws: seq<Worker>): nat {
    if ws == [] then 0 else Tally(p, ws[..|ws| - 1]) + Hit(p, ws[|ws| - 1])
  }

  lemma {:induction false} TallyUpdate(p: Pick, ws: seq<Worker>, i: nat, w: Worker)
    requires i < |ws|
    ensures Tally(p, ws[i := w]) + Hit(p, ws[i]) == Tally(p, ws) + Hit(p, w)
  {
    var n := |ws| - 1;
    if i < n {
      TallyUpdate(p, ws[..n], i, w);
      assert ws[i := w][..n] == ws[..n][i := w];
    } else {
      assert ws[i := w][..n] == ws[..n];
    }
  }

  lemma {:induction false} TallyZero(p: Pick, ws: seq<Worker>)
    ensures Tally(p, ws) == 0 <==> forall i :: 0 <= i < |ws| ==> Hit(p, ws[i]) == 0
  {
    if ws != [] {
      var n := |ws| - 1;
      TallyZero(p, ws[..n]);
      assert forall i :: 0 <= i < n ==> ws[..n][i] == ws[i];
    }
  }

  lemma {:induction false} TallyFull(p: Pick, ws: seq<Worker>)
    ensures Tally(p, ws) <= |ws|
    ensures Tally(p, ws) == |ws| ==> forall i :: 0 <= i < |ws| ==> Hit(p, ws[i]) == 1
  {
    if ws != [] {
      var n := |ws| - 1;
      TallyFull(p, ws[..n]);
      assert forall i :: 0 <= i < n ==> ws[..n][i] == ws[i];
    }
  }

  /** How often request r is in the queue; how many requests there are; how many nulls. */
  function Queued(r: Request, q: seq<Item>): nat {
    if q == [] then 0 else (if q[0] == Req(r) then 1 else 0) + Queued(r, q[1..])
  }

  function Requests(q: seq<Item>): (n: nat)
    ensures n <= |q|
  {
    if q == [] then 0 else (if q[0].Req? then 1 else 0) + Requests(q[1..])
  }

  function Nulls(q: seq<Item>): nat { |q| - Requests(q) }

  lemma {:induction false} QueueSnoc(q: seq<Item>, item: Item)
    ensures Requests(q + [item]) == Requests(q) + (if item.Req? then 1 else 0)
  {
    if q != [] {
      QueueSnoc(q[1..], item);
      assert (q + [item])[1..] == q[1..] + [item];
    }
  }

  lemma {:induction false} QueuedSnoc(r: Request, q: seq<Item>, item: Item)
    ensures Queued(r, q + [item]) == Queued(r, q) + (if item == Req(r) then 1 else 0)
  {
    if q != [] {
      QueuedSnoc(r, q[1..], item);
      assert (q + [item])[1..] == q[1..] + [item];
    }
  }

  function Held(b: Boss): nat { if b.Counted? then 1 else 0 }

  /** Requests between deliver and delivered: counted but not queued, queued, running, or run and
      not yet taken off the count. */
  function Pending(s: State): nat {
    Held(s.boss) + Requests(s.queue) + Tally(Busy, s.workers)
  }

  /** Every delivery of r is held, queued, running, or has completed. */
  predicate Kept(s: State, r: Request) {
    multiset(s.delivered)[r] ==
      (if s.boss == Counted(r) then 1 else 0) + Queued(r, s.queue) + Tally(RunningReq(r), s.workers)
      + multiset(s.completed)[r]
  }

  /** Nulls queued by stop so far. */
  function NullsSent(s: State): nat {
    match s.boss
    case Stopping(k) => k
    case Joining => |s.workers|
    case Stopped => |s.workers|
    case _ => 0
  }

  predicate NullsLast(q: seq<Item>) { forall i, j :: 0 <= i < j < |q| && q[i].Null? ==> q[j].Null? }

  predicate SomeDecremented(ws: seq<Worker>) { exists i :: 0 <= i < |ws| && ws[i].Decremented? }

  /** The counter counts what is between deliver and delivered; nothing is lost or run twice. */
  ghost predicate Accounts(s: State) {
    s.count == Pending(s) && forall r {:trigger Kept(s, r)} :: Kept(s, r)
  }

  /** At most one thread holds the deliver mutex. */
  ghost predicate Locks(s: State) {
    && |s.workers| > 0
    && (forall i, j :: 0 <= i < j < |s.workers| ==> !(s.workers[i].Decremented? && s.workers[j].Decremented?))
    && (s.boss.Enlisting? ==> !SomeDecremented(s.workers))
  }

  /** The barrier: a wakeup still to come is never lost, and none comes before the count is used up. */
  ghost predicate Barrier(s: State) {
    && (s.enlisted <==> s.boss.Blocked? && !s.event)
    && (s.event ==> s.boss.Blocked? && s.count <= 0)
    && (s.boss.Enlisting? ==> s.count > 0)
    && (s.boss.Registering? || (s.boss.Blocked? && !s.event) ==> s.count > 0 || SomeDecremented(s.workers))
    && (s.boss.Finished? ==> s.count <= 0)
  }

  /** Shutdown: every null is queued or has ended one worker, and nothing is queued behind one. */
  ghost predicate Shutdown(s: State) {
    && |s.queue| <= CAPACITY && Nulls(s.queue) + Tally(Gone, s.workers) == NullsSent(s) <= |s.workers|
    && NullsLast(s.queue) && (Tally(Gone, s.workers) > 0 ==> Requests(s.queue) == 0)
    && (s.boss.Joining? || s.boss.Stopped? ==> s.queue == [])
  }

  /** The invariant of every interleaving. */
  ghost predicate Inv(s: State) { Accounts(s) && Locks(s) && Barrier(s) && Shutdown(s) }

  lemma InitInv(s: State)
    requires Init(s)
    ensures Inv(s)
  {
    TallyZero(Busy, s.workers);
    TallyZero(Gone, s.workers);
    forall r ensures Kept(s, r) { TallyZero(RunningReq(r), s.workers); }
  }

  predicate IsBossStep(step: Step) { !(step.Take? || step.RunReq? || step.Decrement? || step.Broadcast?) }

  lemma BossKept(s: State, step: Step, r: Request)
    requires Kept(s, r) && Enabled(s, step) && IsBossStep(step)
    ensures Kept(Apply(s, step), r)
  {
    if step.Enqueue? { QueuedSnoc(r, s.queue, Req(s.boss.req)); }
    if step.EnqueueNull? { QueuedSnoc(r, s.queue, Null); }
  }

  lemma BossAccounts(s: State, step: Step)
    requires Accounts(s) && Enabled(s, step) && IsBossStep(step)
    ensures Accounts(Apply(s, step))
  {
    var t := Apply(s, step);
    if step.Enqueue? { QueueSnoc(s.queue, Req(s.boss.req)); }
    if step.EnqueueNull? { QueueSnoc(s.queue, Null); }
    forall r ensures Kept(t, r) {
      assert Kept(s, r);
      BossKept(s, step, r);
    }
  }

  lemma BossShutdown(s: State, step: Step)
    requires Shutdown(s) && Enabled(s, step) && IsBossStep(step) && |s.workers| > 0
    ensures Shutdown(Apply(s, step))
  {
    if step.Enqueue? {
      QueueSnoc(s.queue, Req(s.boss.req));
      NoNulls(s.queue);
    }
    if step.EnqueueNull? { QueueSnoc(s.queue, Null); }
  }

  lemma {:induction false} NoNulls(q: seq<Item>)
    ensures Nulls(q) == 0 <==> forall i :: 0 <= i < |q| ==> q[i].Req?
  {
    if q != [] { NoNulls(q[1..]); }
  }

  lemma BossLocks(s: State, step: Step)
    requires Locks(s) && Barrier(s) && Enabled(s, step) && IsBossStep(step)
    ensures Locks(Apply(s, step)) && Barrier(Apply(s, step))
  {
  }

  lemma TakeStep(s: State, w: nat)
    requires Accounts(s) && Shutdown(s) && Enabled(s, Take(w))
    ensures Accounts(Apply(s, Take(w))) && Shutdown(Apply(s, Take(w)))
  {
    var item := s.queue[0];
    var to := if item.Req? then Running(item.req) else Exited;
    var t := Apply(s, Take(w));
    TallyUpdate(Busy, s.workers, w, to);
    TallyUpdate(Gone, s.workers, w, to);
    if item.Null? { NoRequests(t.queue); }
    forall r ensures Kept(t, r) {
      assert Kept(s, r);
      TallyUpdate(RunningReq(r), s.workers, w, to);
    }
  }

  lemma {:induction false} NoRequests(q: seq<Item>)
    ensures Requests(q) == 0 <==> forall i :: 0 <= i < |q| ==> q[i].Null?
  {
    if q != [] { NoRequests(q[1..]); }
  }

  lemma RunStep(s: State, w: nat)
    requires Accounts(s) && Enabled(s, RunReq(w))
    ensures Accounts(Apply(s, RunReq(w))) && Tally(Gone, Apply(s, RunReq(w)).workers) == Tally(Gone, s.workers)
  {
    var t := Apply(s, RunReq(w));
    var to := HasRun(s.workers[w].req);
    TallyUpdate(Busy, s.workers, w, to);
    TallyUpdate(Gone, s.workers, w, to);
    forall r ensures Kept(t, r) {
      assert Kept(s, r);
      TallyUpdate(RunningReq(r), s.workers, w, to);
    }
  }

  /** delivered(): first the decrement, then the broadcast; neither moves a request. */
  lemma DeliveredStep(s: State, t: State, w: nat, to: Worker)
    requires Accounts(s) && w < |s.workers| && t.workers == s.workers[w := to]
    requires (s.workers[w].HasRun? && to == Decremented && t.count == s.count - 1) ||
             (s.workers[w].Decremented? && to == Waiting && t.count == s.count)
    requires t.boss == s.boss && t.queue == s.queue && t.delivered == s.delivered && t.completed == s.completed
    ensures Accounts(t) && Tally(Gone, t.workers) == Tally(Gone, s.workers)
  {
    TallyUpdate(Busy, s.workers, w, to);
    TallyUpdate(Gone, s.workers, w, to);
    forall r ensures Kept(t, r) {
      assert Kept(s, r);
      TallyUpdate(RunningReq(r), s.workers, w, to);
    }
  }

  lemma WorkerLocks(s: State, step: Step)
    requires Locks(s) && Barrier(s) && Enabled(s, step) && !IsBossStep(step)
    ensures Locks(Apply(s, step)) && Barrier(Apply(s, step))
  {
    var t := Apply(s, step);
    if step.Decrement? { assert t.workers[step.w].Decremented?; }
    if SomeDecremented(s.workers) && !step.Broadcast? {
      var i :| 0 <= i < |s.workers| && s.workers[i].Decremented?;
      assert t.workers[i].Decremented?;
    }
    if step.Broadcast? {
      forall i | 0 <= i < |t.workers| ensures !t.workers[i].Decremented? {
        if i != step.w { assert s.workers[i] == t.workers[i]; }
      }
    }
  }

  /** Every step keeps the invariant. */
  lemma StepInv(s: State, step: Step)
    requires Inv(s) && Enabled(s, step)
    ensures Inv(Apply(s, step))
  {
    if IsBossStep(step) {
      BossAccounts(s, step);
      BossShutdown(s, step);
      BossLocks(s, step);
    } else {
      WorkerLocks(s, step);
      var t := Apply(s, step);
      match step {
        case Take(w) => TakeStep(s, w);
        case RunReq(w) => RunStep(s, w);
        case Decrement(w) => DeliveredStep(s, t, w, Decremented);
        case Broadcast(w) => DeliveredStep(s, t, w, Waiting);
      }
    }
  }

  /** A run: any interleaving of enabled steps. */
  ghost predicate Runs(s: State, steps: seq<Step>, t: State)
    decreases |steps|
  {
    if steps == [] then s == t
    else Enabled(s, steps[0]) && Runs(Apply(s, steps[0]), steps[1..], t)
  }

  lemma {:induction false} RunInv(s: State, steps: seq<Step>, t: State)
    requires Inv(s) && Runs(s, steps, t)
    ensures Inv(t)
    decreases |steps|
  {
    if steps != [] {
      StepInv(s, steps[0]);
      RunInv(Apply(s, steps[0]), steps[1..], t);
    }
  }

  lemma {:induction false} QueueEmptyOf(r: Request, q: seq<Item>)
    requires Requests(q) == 0
    ensures Queued(r, q) == 0
  {
    if q != [] { QueueEmptyOf(r, q[1..]); }
  }

  lemma {:induction false} NotBusyNotRunning(r: Request, ws: seq<Worker>)
    requires Tally(Busy, ws) == 0
    ensures Tally(RunningReq(r), ws) == 0
  {
    if ws != [] { NotBusyNotRunning(r, ws[..|ws| - 1]); }
  }

  /** With the count used up, the requests that have run are exactly those delivered. */
  lemma AllRun(s: State)
    requires Accounts(s) && s.count <= 0
    ensures multiset(s.completed) == multiset(s.delivered)
  {
    forall r ensures multiset(s.completed)[r] == multiset(s.delivered)[r] {
      assert Kept(s, r);
      QueueEmptyOf(r, s.queue);
      NotBusyNotRunning(r, s.workers);
    }
  }

  /** Safety of the barrier: in every interleaving, when waitFinish returns, every request
      delivered so far has run, as often as it was delivered. */
  lemma WaitFinishMeansDone(s0: State, steps: seq<Step>, s: State)
    requires Init(s0) && Runs(s0, steps, s) && s.boss.Finished?
    ensures s.count == 0 && multiset(s.completed) == multiset(s.delivered)
  {
    InitInv(s0);
    RunInv(s0, steps, s);
    AllRun(s);
  }

  /** Work left for the workers; every worker step uses some up. */
  function Work(s: State): nat { 4 * |s.queue| + Effort(s.workers) }

  function Effort(ws: seq<Worker>): nat {
    if ws == [] then 0 else Effort(ws[..|ws| - 1]) + EffortOf(ws[|ws| - 1])
  }

  function EffortOf(w: Worker): nat {
    match w
    case Running(_) => 3
    case HasRun(_) => 2
    case Decremented => 1
    case _ => 0
  }

  lemma {:induction false} EffortUpdate(ws: seq<Worker>, i: nat, w: Worker)
    requires i < |ws|
    ensures Effort(ws[i := w]) + EffortOf(ws[i]) == Effort(ws) + EffortOf(w)
  {
    var n := |ws| - 1;
    if i < n {
      EffortUpdate(ws[..n], i, w);
      assert ws[i := w][..n] == ws[..n][i := w];
    } else {
      assert ws[i := w][..n] == ws[..n];
    }
  }

  lemma WorkerStepsUseWork(s: State, step: Step)
    requires Enabled(s, step) && !IsBossStep(step)
    ensures Work(Apply(s, step)) < Work(s)
  {
    var t := Apply(s, step);
    EffortUpdate(s.workers, step.w, t.workers[step.w]);
    assert t.workers == s.workers[step.w := t.workers[step.w]];
  }

  /** As long as the delivering thread has to wait, for its event or for room in the queue, some
      worker can make a step. */
  lemma WaitingMakesProgress(s: State) returns (step: Step)
    requires Inv(s)
    requires (s.boss.Blocked? && !s.event) || ((s.boss.Counted? || s.boss.Stopping?) && s.queue != [])
             || (s.boss.Joining? && exists i :: 0 <= i < |s.workers| && !s.workers[i].Exited?)
    requires s.boss.Stopping? && s.boss.k == |s.workers| ==> s.queue != []
    ensures !IsBossStep(step) && Enabled(s, step)
  {
    if SomeDecremented(s.workers) {
      var i :| 0 <= i < |s.workers| && s.workers[i].Decremented?;
      step := Broadcast(i);
    } else if i :| 0 <= i < |s.workers| && s.workers[i].HasRun? {
      step := Decrement(i);
    } else if i :| 0 <= i < |s.workers| && s.workers[i].Running? {
      step := RunReq(i);
    } else {
      TallyZero(Busy, s.workers);
      QueueMatters(s);
      var i := NotGone(s);
      step := Take(i);
    }
  }

  /** With nobody busy, whoever waits waits for the queue. */
  lemma QueueMatters(s: State)
    requires Inv(s) && Tally(Busy, s.workers) == 0 && !SomeDecremented(s.workers)
    ensures s.boss.Blocked? && !s.event ==> s.queue != []
    ensures s.boss.Joining? ==> forall i :: 0 <= i < |s.workers| ==> s.workers[i].Exited?
  {
    if s.boss.Joining? {
      TallyFull(Gone, s.workers);
      forall i | 0 <= i < |s.workers| ensures s.workers[i].Exited? { assert Hit(Gone, s.workers[i]) == 1; }
    }
  }

  /** While something is queued some worker is still there to take it. */
  lemma NotGone(s: State) returns (i: nat)
    requires Inv(s) && s.queue != []
    ensures i < |s.workers| && !s.workers[i].Exited?
  {
    if forall i :: 0 <= i < |s.workers| ==> s.workers[i].Exited? {
      AllGone(s.workers);
      NoNulls(s.queue);
      NoRequests(s.queue);
    }
    i :| 0 <= i < |s.workers| && !s.workers[i].Exited?;
  }

  lemma {:induction false} AllGone(ws: seq<Worker>)
    requires forall i :: 0 <= i < |ws| ==> ws[i].Exited?
    ensures Tally(Gone, ws) == |ws|
  {
    if ws != [] { AllGone(ws[..|ws| - 1]); }
  }

  predicate WorkersOnly(steps: seq<Step>) { forall i :: 0 <= i < |steps| ==> !IsBossStep(steps[i]) }

  /** Left to themselves the workers make at most Work(s) steps. */
  lemma {:induction false} WorkersComeToRest(s: State, steps: seq<Step>, t: State)
    requires Runs(s, steps, t) && WorkersOnly(steps)
    ensures |steps| + Work(t) <= Work(s) && (s.boss.Blocked? ==> t.boss.Blocked?)
    decreases |steps|
  {
    if steps != [] {
      assert !IsBossStep(steps[0]);
      WorkerStepsUseWork(s, steps[0]);
      WorkersComeToRest(Apply(s, steps[0]), steps[1..], t);
    }
  }

  /** No worker can make a step. */
  ghost predicate AtRest(t: State) { forall step :: Enabled(t, step) ==> IsBossStep(step) }

  /** No wakeup is lost: when a blocked delivering thread leaves the workers to run until they come
      to rest, its event has been set and it can go on. */
  lemma NoLostWakeup(s: State, steps: seq<Step>, t: State)
    requires Inv(s) && s.boss.Blocked? && Runs(s, steps, t) && WorkersOnly(steps) && AtRest(t)
    ensures |steps| <= Work(s) && t.event && Enabled(t, Wake)
  {
    WorkersComeToRest(s, steps, t);
    RunInv(s, steps, t);
    if !t.event {
      var step := WaitingMakesProgress(t);
    }
    if i :| 0 <= i < |t.workers| && t.workers[i].Decremented? { assert Enabled(t, Broadcast(i)); }
  }

  /** Shutdown drains: once stop has seen the queue empty, every request delivered has run as often
      as it was delivered, and each worker has taken one null and left. */
  lemma ShutdownDrains(s0: State, steps: seq<Step>, s: State)
    requires Init(s0) && Runs(s0, steps, s) && (s.boss.Joining? || s.boss.Stopped?)
    ensures forall i :: 0 <= i < |s.workers| ==> s.workers[i].Exited?
    ensures s.queue == [] && Tally(Gone, s.workers) == NullsSent(s) == |s.workers|
    ensures s.count == 0 && multiset(s.completed) == multiset(s.delivered)
  {
    InitInv(s0);
    RunInv(s0, steps, s);
    TallyFull(Gone, s.workers);
    forall i | 0 <= i < |s.workers| ensures s.workers[i].Exited? { assert Hit(Gone, s.workers[i]) == 1; }
    TallyZero(Busy, s.workers);
    AllRun(s);
  }
}
