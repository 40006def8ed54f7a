/** Runs of the request deliverer that exist: no thread waits for ever, whatever is delivered can be
    waited for, the deliverer can always be stopped; and the order in which requests are taken. */
module AsyncRuns {
  import opened AsyncDeliver

  /** Whatever the state, as long as the deliverer is not stopped some thread can go on. The
      delivering thread itself can unless its queue of 20 is full, it waits for the queue to drain
      or for its event, or it joins. */
  lemma SomeStepEnabled(s: State) returns (step: Step)
    requires Inv(s) && !s.boss.Stopped?
    ensures Enabled(s, step)
    ensures (s.boss.Counted? || (s.boss.Stopping? && s.boss.k < |s.workers|)) && |s.queue| < 20 ==> IsBossStep(step)
    ensures s.boss.Idle? || s.boss.Finished? || s.boss.Enlisting? || s.boss.Registering? ==> IsBossStep(step)
  {
    match s.boss {
      case Idle => step := BeginStop;
      case Finished => step := BeginStop;
      case Enlisting => step := Register;
      case Registering => step := EnterQueue;
      case Counted(_) =>
        if |s.queue| < 20 { step := Enqueue; } else { step := WaitingMakesProgress(s); }
      case Stopping(k) =>
        if k < |s.workers| && |s.queue| < 20 {
          step := EnqueueNull;
        } else if k == |s.workers| && s.queue == [] {
          step := WaitEmpty;
        } else {
          step := WaitingMakesProgress(s);
        }
      case Blocked =>
        if !s.event {
          step := WaitingMakesProgress(s);
        } else if i :| 0 <= i < |s.workers| && s.workers[i].Decremented? {
          step := Broadcast(i);
        } else {
          step := Wake;
        }
      case Joining =>
        if forall i :: 0 <= i < |s.workers| ==> s.workers[i].Exited? {
          step := Join;
        } else {
          step := WaitingMakesProgress(s);
        }
    }
  }

  lemma {:induction false} RunsAppend(s: State, a: seq<Step>, m: State, b: seq<Step>, t: State)
    requires Runs(s, a, m) && Runs(m, b, t)
    ensures Runs(s, a + b, t)
    decreases |a|
  {
    if a == [] {
      assert a + b == b;
    } else {
      RunsAppend(Apply(s, a[0]), a[1..], m, b, t);
      assert (a + b)[1..] == a[1..] + b;
    }
  }

  lemma RunOne(s: State, step: Step)
    requires Enabled(s, step)
    ensures Runs(s, [step], Apply(s, step))
  {
    assert [step][1..] == [];
    assert Runs(Apply(s, step), [], Apply(s, step));
  }

  /** One more step at the end of a run. */
  lemma RunsThen(s: State, a: seq<Step>, m: State, step: Step)
    requires Runs(s, a, m) && Enabled(m, step)
    ensures Runs(s, a + [step], Apply(m, step))
  {
    RunOne(m, step);
    RunsAppend(s, a, m, [step], Apply(m, step));
  }

  /** The workers can always be left to come to rest, without the delivering thread. */
  lemma {:induction false} WorkersRest(s: State) returns (steps: seq<Step>, t: State)
    requires Inv(s)
    ensures Runs(s, steps, t) && WorkersOnly(steps) && AtRest(t) && Inv(t)
    ensures t.boss == s.boss && t.delivered == s.delivered && |t.workers| == |s.workers|
    decreases Work(s)
  {
    if step :| Enabled(s, step) && !IsBossStep(step) {
      StepInv(s, step);
      WorkerStepsUseWork(s, step);
      var rest: seq<Step>;
      rest, t := WorkersRest(Apply(s, step));
      steps := [step] + rest;
      assert steps[1..] == rest;
    } else {
      steps, t := [], s;
    }
  }

  lemma Resting(s: State, i: nat)
    requires AtRest(s) && i < |s.workers|
    ensures !s.workers[i].Running? && (s.workers[i].Waiting? ==> s.queue == [])
    ensures s.workers[i].Decremented? ==> s.boss.Registering?
    ensures s.workers[i].HasRun? ==> !MutexFree(s)
  {
    assert !Enabled(s, Broadcast(i)) && !Enabled(s, Decrement(i)) && !Enabled(s, RunReq(i)) && !Enabled(s, Take(i));
  }

  /** At rest nothing is queued, nobody is at work and the deliver mutex is free, unless the
      delivering thread is about to wait. */
  lemma RestIsIdle(s: State)
    requires Inv(s) && AtRest(s) && !s.boss.Enlisting? && !s.boss.Registering?
    ensures s.queue == [] && MutexFree(s) && s.count == Held(s.boss)
    ensures forall i :: 0 <= i < |s.workers| ==> s.workers[i].Waiting? || s.workers[i].Exited?
    ensures s.boss.Blocked? ==> s.event
    ensures s.boss.Joining? ==> forall i :: 0 <= i < |s.workers| ==> s.workers[i].Exited?
  {
    forall i | 0 <= i < |s.workers| ensures !s.workers[i].Decremented? { Resting(s, i); }
    assert MutexFree(s);
    if s.queue != [] {
      var i := NotGone(s);
      Resting(s, i);
    }
    forall i | 0 <= i < |s.workers| ensures s.workers[i].Waiting? || s.workers[i].Exited? { Resting(s, i); }
    TallyZero(Busy, s.workers);
    QueueMatters(s);
  }

  /** Steps the delivering thread is away from having stopped. */
  function Left(s: State): int {
    var n := |s.workers|;
    match s.boss
    case Enlisting => n + 6
    case Registering => n + 5
    case Blocked => n + 4
    case Counted(_) => n + 4
    case Idle => n + 3
    case Finished => n + 3
    case Stopping(k) => n - k + 2
    case Joining => 1
    case Stopped => 0
  }

  /** The step that brings the delivering thread nearer to the end once the workers are at rest. */
  function NextMove(s: State): Step
    requires !s.boss.Stopped?
  {
    match s.boss
    case Enlisting => Register
    case Registering => EnterQueue
    case Blocked => Wake
    case Counted(_) => Enqueue
    case Idle => BeginStop
    case Finished => BeginStop
    case Stopping(k) => if k < |s.workers| then EnqueueNull else WaitEmpty
    case Joining => Join
  }

  /** The delivering thread never waits for ever: after some steps of the workers it can go on. */
  lemma BossMoves(s: State) returns (steps: seq<Step>, t: State)
    requires Inv(s) && !s.boss.Stopped?
    ensures Runs(s, steps, t) && Inv(t) && 0 <= Left(t) < Left(s) && t.delivered == s.delivered
    ensures s.boss.Enlisting? ==> t.boss.Registering?
    ensures s.boss.Registering? ==> t.boss.Blocked?
    ensures s.boss.Blocked? ==> t.boss.Finished?
  {
    var m := s;
    steps := [];
    if !s.boss.Enlisting? && !s.boss.Registering? {
      steps, m := WorkersRest(s);
      RestIsIdle(m);
    }
    var step := NextMove(m);
    RunsThen(s, steps, m, step);
    StepInv(m, step);
    steps, t := steps + [step], Apply(m, step);
  }

  /** A wait that has begun comes back: all three stages of it lead to Finished. */
  lemma {:induction false} WaitReturns(s: State) returns (steps: seq<Step>, t: State)
    requires Inv(s) && (s.boss.Enlisting? || s.boss.Registering? || s.boss.Blocked? || s.boss.Finished?)
    ensures Runs(s, steps, t) && t.boss.Finished? && t.delivered == s.delivered
    ensures multiset(t.completed) == multiset(s.delivered)
    decreases Left(s)
  {
    if s.boss.Finished? {
      steps, t := [], s;
      AllRun(s);
    } else {
      var a, m := BossMoves(s);
      var b: seq<Step>;
      b, t := WaitReturns(m);
      steps := a + b;
      RunsAppend(s, a, m, b, t);
    }
  }

  /** The deliverer can be stopped from every state. */
  lemma {:induction false} CanStop(s: State) returns (steps: seq<Step>, t: State)
    requires Inv(s)
    ensures Runs(s, steps, t) && t.boss.Stopped? && t.delivered == s.delivered
    decreases Left(s)
  {
    if s.boss.Stopped? {
      steps, t := [], s;
    } else {
      var a, m := BossMoves(s);
      var b: seq<Step>;
      b, t := CanStop(m);
      steps := a + b;
      RunsAppend(s, a, m, b, t);
    }
  }

  /** deliver always comes back. */
  lemma DeliverOne(s: State, r: Request) returns (steps: seq<Step>, t: State)
    requires Inv(s) && s.boss.Idle?
    ensures Runs(s, steps, t) && Inv(t) && t.boss.Idle? && t.delivered == s.delivered + [r]
  {
    var a, m := WorkersRest(s);
    RestIsIdle(m);
    var u := Apply(m, Count(r));
    RunsThen(s, a, m, Count(r));
    StepInv(m, Count(r));
    RunsThen(s, a + [Count(r)], u, Enqueue);
    StepInv(u, Enqueue);
    steps, t := a + [Count(r)] + [Enqueue], Apply(u, Enqueue);
  }

  lemma {:induction false} DeliverEach(s0: State, rs: seq<Request>) returns (steps: seq<Step>, t: State)
    requires Init(s0)
    ensures Runs(s0, steps, t) && Inv(t) && t.boss.Idle? && t.delivered == rs
  {
    if rs == [] {
      InitInv(s0);
      steps, t := [], s0;
    } else {
      var n := |rs| - 1;
      var a, m := DeliverEach(s0, rs[..n]);
      var b: seq<Step>;
      b, t := DeliverOne(m, rs[n]);
      steps := a + b;
      RunsAppend(s0, a, m, b, t);
    }
  }

  /** The deliverer does what it is for: any requests can be delivered and waited for, all of them
      have run when waitFinish returns, and then it can be stopped. */
  lemma DeliverAll(s0: State, rs: seq<Request>) returns (steps: seq<Step>, t: State, more: seq<Step>, u: State)
    requires Init(s0)
    ensures Runs(s0, steps, t) && t.boss.Finished? && t.delivered == rs && multiset(t.completed) == multiset(rs)
    ensures Runs(t, more, u) && u.boss.Stopped? && u.delivered == rs
  {
    var a, m := DeliverEach(s0, rs);
    var b, k := WorkersRest(m);
    RestIsIdle(k);
    RunsAppend(s0, a, m, b, k);
    RunsThen(s0, a + b, k, CheckWait);
    StepInv(k, CheckWait);
    steps, t := a + b + [CheckWait], Apply(k, CheckWait);
    AllRun(t);
    more, u := CanStop(t);
  }

  /** The requests in a queue, in order. */
  function Reqs(q: seq<Item>): seq<Request> {
    if q == [] then [] else (if q[0].Req? then [q[0].req] else []) + Reqs(q[1..])
  }

  lemma {:induction false} ReqsSnoc(q: seq<Item>, item: Item)
    ensures Reqs(q + [item]) == Reqs(q) + (if item.Req? then [item.req] else [])
  {
    if q == [] {
      assert q + [item] == [item];
    } else {
      ReqsSnoc(q[1..], item);
      assert (q + [item])[1..] == q[1..] + [item];
    }
  }

  /** Requests not yet taken by a worker, first in first. */
  function Untaken(s: State): seq<Request> {
    Reqs(s.queue) + if s.boss.Counted? then [s.boss.req] else []
  }

  predicate Suffix(a: seq<Request>, b: seq<Request>) { |a| <= |b| && b[|b| - |a|..] == a }

  lemma SuffixSnoc(a: seq<Request>, b: seq<Request>, x: Request)
    requires Suffix(a, b)
    ensures Suffix(a + [x], b + [x])
  {
    assert (b + [x])[|b| - |a|..] == b[|b| - |a|..] + [x];
  }

  lemma SuffixTail(x: Request, a: seq<Request>, b: seq<Request>)
    requires Suffix([x] + a, b)
    ensures Suffix(a, b)
  {
    var k := |b| - |a| - 1;
    assert b[k..][1..] == b[k + 1..] && ([x] + a)[1..] == a;
  }

  predicate InOrder(s: State) { Suffix(Untaken(s), s.delivered) }

  lemma UntakenStep(s: State, step: Step)
    requires Enabled(s, step)
    ensures step.Count? ==> Untaken(Apply(s, step)) == Untaken(s) + [step.req]
    ensures step.Take? && s.queue[0].Req? ==> Untaken(s) == [s.queue[0].req] + Untaken(Apply(s, step))
    ensures !step.Count? && (step.Take? ==> s.queue[0].Null?) ==> Untaken(Apply(s, step)) == Untaken(s)
  {
    if step.Enqueue? { ReqsSnoc(s.queue, Req(s.boss.req)); }
    if step.EnqueueNull? { ReqsSnoc(s.queue, Null); }
  }

  lemma InOrderStep(s: State, step: Step)
    requires InOrder(s) && Enabled(s, step)
    ensures InOrder(Apply(s, step))
  {
    UntakenStep(s, step);
    if step.Count? { SuffixSnoc(Untaken(s), s.delivered, step.req); }
    if step.Take? && s.queue[0].Req? { SuffixTail(s.queue[0].req, Untaken(Apply(s, step)), s.delivered); }
  }

  lemma {:induction false} InOrderRun(s: State, steps: seq<Step>, t: State)
    requires InOrder(s) && Runs(s, steps, t)
    ensures InOrder(t)
    decreases |steps|
  {
    if steps != [] {
      InOrderStep(s, steps[0]);
      InOrderRun(Apply(s, steps[0]), steps[1..], t);
    }
  }

  lemma {:induction false} ReqsAll(q: seq<Item>)
    requires forall i :: 0 <= i < |q| ==> q[i].Req?
    ensures |Reqs(q)| == |q| && forall i :: 0 <= i < |q| ==> q[i] == Req(Reqs(q)[i])
  {
    if q != [] { ReqsAll(q[1..]); }
  }

  /** Requests are taken first in, first out: in every interleaving those not yet taken are the last
      ones delivered, in the order of delivery. */
  lemma FirstInFirstOut(s0: State, steps: seq<Step>, s: State)
    requires Init(s0) && Runs(s0, steps, s)
    ensures InOrder(s)
    ensures s.boss.Idle? || s.boss.Finished? ==>
              && |s.queue| <= |s.delivered|
              && forall i :: 0 <= i < |s.queue| ==> s.queue[i] == Req(s.delivered[|s.delivered| - |s.queue| + i])
  {
    InOrderRun(s0, steps, s);
    InitInv(s0);
    RunInv(s0, steps, s);
    if s.boss.Idle? || s.boss.Finished? {
      NoNulls(s.queue);
      ReqsAll(s.queue);
      assert forall i :: 0 <= i < |s.queue| ==> Untaken(s)[i] == s.delivered[|s.delivered| - |s.queue|..][i];
    }
  }

  /** The delivering thread can run 20 requests ahead of the workers, and no more. */
  lemma {:induction false} RunsAhead(s0: State, rs: seq<Request>, next: Request) returns (steps: seq<Step>, t: State)
    requires Init(s0) && |rs| <= 20
    ensures Runs(s0, steps, t) && t.boss.Idle? && t.workers == s0.workers && t.delivered == rs
    ensures |t.queue| == |rs| && forall i :: 0 <= i < |rs| ==> t.queue[i] == Req(rs[i])
    ensures Enabled(t, Count(next)) && (Enabled(Apply(t, Count(next)), Enqueue) <==> |rs| < 20)
  {
    if rs == [] {
      steps, t := [], s0;
    } else {
      var n := |rs| - 1;
      var a, m := RunsAhead(s0, rs[..n], rs[n]);
      var u := Apply(m, Count(rs[n]));
      RunsThen(s0, a, m, Count(rs[n]));
      RunsThen(s0, a + [Count(rs[n])], u, Enqueue);
      steps, t := a + [Count(rs[n])] + [Enqueue], Apply(u, Enqueue);
    }
  }
}
