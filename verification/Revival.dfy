/** When a dead thread comes back.  `VMThreadTerminate` leaves a waiting thread in the queues of mutexes,
    and whoever releases such a mutex makes the first thread of its queue ready, dead or not. */
module Revival {
  import opened Basics
  import opened VmState
  import opened MutexSafety
  import opened SchedulerSafety
  import opened Timing
  import opened HandOff

  /** Thread t is the next to be handed mutex m. */
  predicate Heads(s: Vm, m: nat, t: nat) {
    m in s.mtx && s.mtx[m].queue != [] && s.mtx[m].queue[0] == t
  }

  /** The action releases a mutex whose queue t heads: by `VMMutexRelease` of the running thread, or by the
      termination of a live thread that holds it. */
  predicate Revives(s: Vm, a: Action, t: nat)
    requires Wf(s)
  {
    match a
    case MutexRelease(m) => m in s.thr[s.tr].held && Heads(s, m, t)
    case Terminate(x) =>
      Has(s, x) && !s.thr[x].state.Dead? && exists m :: m in s.thr[x].held && Heads(s, m, t)
    case _ => false
  }

  predicate IsDead(s: Vm, t: nat) {
    Has(s, t) && s.thr[t].state.Dead?
  }

  // ---------- One step ----------

  lemma ReleaseRevivesIff(s: Vm, m: nat, t: nat)
    requires Wf(s) && m in s.mtx && Has(s, t)
    ensures IsDead(ReleaseMutex(s, m), t) <==> IsDead(s, t) && !Heads(s, m, t)
  {
  }

  lemma ReleaseLeavesOthers(s: Vm, m: nat, h: seq<nat>, x: nat, t: nat)
    requires Wf(s) && m in s.mtx && Has(s, x) && Has(s, t) && forall k :: k in h ==> k in s.mtx && k != m
    ensures var r := SetHeld(ReleaseMutex(s, m), x, h);
            && (IsDead(r, t) <==> IsDead(s, t) && !Heads(s, m, t))
            && forall k :: k in h ==> (Heads(r, k, t) <==> Heads(s, k, t))
  {
    ReleaseRevivesIff(s, m, t);
    ReleaseMutexShape(s, m);
    hide ReleaseMutex;
  }

  /** Terminating x revives t exactly when t heads the queue of some mutex that x holds. */
  lemma {:induction false} ReleaseAllRevivesIff(s: Vm, x: nat, t: nat)
    requires Wf(s) && Has(s, x) && Has(s, t) && NoDup(s.thr[x].held)
    ensures IsDead(ReleaseAll(s, x), t) <==> IsDead(s, t) && !exists m :: m in s.thr[x].held && Heads(s, m, t)
    decreases |s.thr[x].held|
  {
    var held := s.thr[x].held;
    if held != [] {
      var m, h := held[|held| - 1], held[..|held| - 1];
      assert TcbOk(s, s.thr[x]) && held == h + [m] && m in held;
      var r := SetHeld(ReleaseMutex(s, m), x, h);
      ReleaseLeavesOthers(s, m, h, x, t);
      assert ReleaseAll(s, x) == ReleaseAll(r, x) && r.thr[x].held == h;
      hide Wf, ReleaseMutex, ReleaseAll, SetHeld, Heads;
      ReleaseAllRevivesIff(r, x, t);
      assert forall k :: k in held <==> k in h || k == m;
    }
  }

  lemma FinishRevivesIff(s: Vm, x: nat, t: nat)
    requires Wf(s) && Exclusive(s) && Has(s, x) && IsDead(s, t) && !s.thr[x].state.Dead?
    ensures IsDead(Finish(s, x), t) <==> !exists m :: m in s.thr[x].held && Heads(s, m, t)
  {
    assert OwnsHeld(s, x);
    var s1 := SetState(s, x, Dead);
    ReleaseAllRevivesIff(s1, x, t);
    assert forall m :: Heads(s1, m, t) <==> Heads(s, m, t);
    hide ReleaseAll, Wf;
  }

  lemma OthersReviveNobody(s: Vm, a: Action, t: nat)
    requires Wf(s) && Safe(s) && Enabled(s, a) && IsDead(s, t) && a != Activate(t)
    requires !a.Terminate? && !a.MutexRelease? && !a.Timer?
    ensures IsDead(Before(s, a), t)
  {
    assert s.tr < |s.thr| && s.tr != t;
    if a.MutexAcquire? {
      AcquireShape(s, a.mutex, a.timeout);
      hide Before;
    }
    hide Wf, Queued, Referenced, TryAcquire;
  }

  lemma BeforeRevivesIff(s: Vm, a: Action, t: nat)
    requires Wf(s) && Exclusive(s) && Safe(s) && Enabled(s, a) && IsDead(s, t) && a != Activate(t)
    ensures IsDead(Before(s, a), t) <==> !Revives(s, a, t)
  {
    match a {
      case Timer =>
        TickEffect(s, |s.thr|, t);
      case Terminate(x) =>
        if Has(s, x) && !s.thr[x].state.Dead? { FinishRevivesIff(s, x, t); }
      case MutexRelease(m) =>
        assert TcbOk(s, s.thr[s.tr]);
        if m in s.thr[s.tr].held { ReleaseRevivesIff(s, m, t); }
      case _ =>
        OthersReviveNobody(s, a, t);
    }
  }

  lemma ScheduleKeepsDead(b: Vm, t: nat)
    requires Wf(b) && Queued(b) && SomeoneReady(Requeue(b)) && Has(b, t)
    ensures IsDead(Schedule(b), t) <==> IsDead(b, t)
  {
    QueuedByRequeue(b);
    var s1 := Requeue(b);
    var p := TopLevel(s1);
    assert s1.rq[p] != [] by { assert exists q :: 0 <= q < 4 && s1.rq[q] != []; }
    assert QueueSafe(s1, p) && s1.rq[p][0] in s1.rq[p];
    assert IsDead(s1, t) <==> IsDead(b, t);
    hide Wf, Queued, Requeue;
  }

  lemma StepRevivesIff(s: Vm, a: Action, r: Vm, t: nat)
    requires Step(s, a, r) && Exclusive(s) && Safe(s) && IsDead(s, t) && a != Activate(t)
    ensures IsDead(r, t) <==> !Revives(s, a, t)
  {
    hide Before, Exclusive, Queued, Schedule, Revives;
    BeforeRevivesIff(s, a, t);
    if Dispatches(s, a) {
      QueuedBefore(s, a);
      ScheduleKeepsDead(Before(s, a), t);
    }
  }

  /** In every run, a dead thread that is not activated comes back at a step exactly when the step releases
      a mutex whose queue it heads. */
  lemma DeadComesBackIff(ss: seq<Vm>, acts: seq<Action>, n: nat, t: nat)
    requires Run(ss, acts) && n < |acts| && Wf(ss[n]) && IsDead(ss[n], t) && acts[n] != Activate(t)
    ensures Has(ss[n + 1], t) && (!ss[n + 1].thr[t].state.Dead? <==> Revives(ss[n], acts[n], t))
  {
    EveryRunIsSafe(ss, acts, n);
    StepOf(ss, acts, n + 1);
    hide Path, Revives, Exclusive, Safe;
    StepRevivesIff(ss[n], acts[n], ss[n + 1], t);
    StepKeepsThreads(ss[n], acts[n], ss[n + 1]);
  }

  lemma StepKeepsThreads(s: Vm, a: Action, r: Vm)
    requires Step(s, a, r)
    ensures |s.thr| <= |r.thr|
  {
    hide Before, Schedule;
  }

  // ---------- Runs without dead waiters ----------

  ghost predicate NoDeadWaiter(s: Vm) {
    forall m, t :: InQueue(s, m, t) ==> Alive(s, t)
  }

  predicate Waits(s: Vm, t: nat) {
    exists m :: m in s.mtx && InQueue(s, m, t)
  }

  predicate InQueue(s: Vm, m: nat, t: nat) {
    m in s.mtx && t in s.mtx[m].queue
  }

  predicate Alive(s: Vm, t: nat) {
    Has(s, t) && !s.thr[t].state.Dead?
  }

  /** Nobody but x dies, and no dead thread joins a queue. */
  ghost predicate Calm(s: Vm, r: Vm, x: int) {
    && (forall t :: Alive(s, t) && t != x ==> Alive(r, t))
    && (forall m, t :: InQueue(r, m, t) ==> InQueue(s, m, t) || (Alive(r, t) && t != x))
  }

  lemma CalmChain(s: Vm, u: Vm, r: Vm, x: int)
    requires Calm(s, u, x) && Calm(u, r, x)
    ensures Calm(s, r, x)
  {
    hide InQueue, Alive;
  }

  lemma CalmKeeps(s: Vm, r: Vm, x: int)
    requires NoDeadWaiter(s) && Calm(s, r, x) && forall m, t :: InQueue(s, m, t) ==> t != x
    ensures NoDeadWaiter(r)
  {
    hide InQueue, Alive;
  }

  lemma CalmByRelease(s: Vm, m: nat, x: nat, h: seq<nat>, k: int)
    requires Wf(s) && m in s.mtx && Has(s, x) && forall j :: j in h ==> j in s.mtx
    ensures Calm(s, SetHeld(ReleaseMutex(s, m), x, h), k)
  {
    var q := s.mtx[m].queue;
    ReleaseMutexShape(s, m);
    assert q != [] ==> forall t :: t in q[1..] ==> t in q;
  }

  lemma {:induction false} CalmByReleaseAll(s: Vm, x: nat, k: int)
    requires Wf(s) && Has(s, x)
    ensures Calm(s, ReleaseAll(s, x), k)
    decreases |s.thr[x].held|
  {
    var held := s.thr[x].held;
    if held == [] {
      assert ReleaseAll(s, x) == s;
    } else {
      var m, h := held[|held| - 1], held[..|held| - 1];
      assert TcbOk(s, s.thr[x]) && m in held && forall j :: j in h ==> j in held;
      CalmByRelease(s, m, x, h, k);
      var r := SetHeld(ReleaseMutex(s, m), x, h);
      assert ReleaseAll(s, x) == ReleaseAll(r, x) && r.thr[x].held == h;
      hide Wf, ReleaseMutex, ReleaseAll, SetHeld, Calm;
      CalmByReleaseAll(r, x, k);
      CalmChain(s, r, ReleaseAll(r, x), k);
    }
  }

  lemma CalmByDying(s: Vm, x: nat)
    requires Wf(s) && Has(s, x)
    ensures Calm(s, SetState(s, x, Dead), x)
  {
    hide Wf;
  }

  lemma CalmByFlush(s: Vm, x: nat)
    requires Wf(s) && Has(s, x)
    ensures Calm(s, FlushLevel(s, x), x)
  {
    assert FlushLevel(s, x).thr == s.thr && FlushLevel(s, x).mtx == s.mtx;
    hide Wf, FlushLevel;
  }

  lemma CalmByFinish(s: Vm, x: nat)
    requires Wf(s) && Has(s, x)
    ensures Calm(s, Finish(s, x), x)
  {
    hide Wf, ReleaseAll, FlushLevel, SetState, Calm;
    var s1 := SetState(s, x, Dead);
    var s2 := ReleaseAll(s1, x);
    CalmByDying(s, x);
    CalmByReleaseAll(s1, x, x);
    CalmByFlush(s2, x);
    CalmChain(s, s1, s2, x);
    CalmChain(s, s2, FlushLevel(s2, x), x);
  }

  lemma CalmByTick(s: Vm, t: nat)
    requires Wf(s) && Has(s, t)
    ensures Calm(s, Tick(s, t), -1)
  {
  }

  lemma {:induction false} CalmByTicks(s: Vm, n: nat)
    requires Wf(s) && n <= |s.thr|
    ensures Calm(s, TickFirst(s, n), -1)
  {
    if n > 0 {
      assert TickFirst(s, n) == Tick(TickFirst(s, n - 1), n - 1);
      assert Has(TickFirst(s, n - 1), n - 1);
      hide *;
      CalmByTicks(s, n - 1);
      CalmByTick(TickFirst(s, n - 1), n - 1);
      CalmChain(s, TickFirst(s, n - 1), TickFirst(s, n), -1);
    }
  }

  lemma CalmByAcquire(s: Vm, m: nat, timeout: uint32)
    requires Wf(s) && Safe(s) && Enabled(s, MutexAcquire(m, timeout))
    ensures Calm(s, Before(s, MutexAcquire(m, timeout)), -1)
  {
    AcquireShape(s, m, timeout);
    hide Wf, Queued, Before;
  }

  lemma CalmByOthers(s: Vm, a: Action)
    requires Wf(s) && Safe(s) && Enabled(s, a)
    requires !a.Terminate? && !a.MutexRelease? && !a.Timer? && !a.MutexAcquire?
    ensures Calm(s, Before(s, a), -1)
  {
    assert s.tr < |s.thr|;
    hide Wf, Queued, Referenced;
  }

  lemma CalmBefore(s: Vm, a: Action)
    requires Wf(s) && Safe(s) && Enabled(s, a)
    ensures Calm(s, Before(s, a), if a.Terminate? then a.thread else -1)
  {
    match a {
      case Timer => CalmByTicks(s, |s.thr|);
      case Terminate(x) => if Has(s, x) { CalmByFinish(s, x); }
      case MutexRelease(m) =>
        if m in s.mtx && m in s.thr[s.tr].held {
          var held := ReleaseMutex(s, m).thr[s.tr].held;
          ReleaseMutexShape(s, m);
          CalmByRelease(s, m, s.tr, EraseAt(held, IndexOf(held, m)), -1);
        }
      case MutexAcquire(m, timeout) => CalmByAcquire(s, m, timeout);
      case _ => CalmByOthers(s, a);
    }
  }

  lemma CalmBySchedule(b: Vm, x: int)
    requires Wf(b) && SomeoneReady(Requeue(b))
    ensures Calm(b, Schedule(b), x)
  {
    hide Wf;
  }

  lemma CalmByStep(s: Vm, a: Action, r: Vm)
    requires Step(s, a, r) && Safe(s)
    ensures Calm(s, r, if a.Terminate? then a.thread else -1)
  {
    hide Before, Queued, Schedule, Calm;
    CalmBefore(s, a);
    if Dispatches(s, a) {
      var x := if a.Terminate? then a.thread else -1;
      CalmBySchedule(Before(s, a), x);
      CalmChain(s, Before(s, a), r, x);
    }
  }

  /** A step leaves no dead thread in a mutex queue, where there was none, exactly unless it terminates a
      live thread that waits in one. */
  lemma StepKeepsNoDeadWaiterIff(s: Vm, a: Action, r: Vm)
    requires Step(s, a, r) && Exclusive(s) && Safe(s) && NoDeadWaiter(s)
    ensures NoDeadWaiter(r) <==> !(a.Terminate? && Waits(s, a.thread))
  {
    CalmByStep(s, a, r);
    if a.Terminate? && Waits(s, a.thread) {
      TerminatedWaiterIsDead(s, a.thread, r);
    } else {
      assert a.Terminate? ==> forall m :: !InQueue(s, m, a.thread);
      hide Step, Exclusive, Safe, Calm, InQueue, Alive;
      CalmKeeps(s, r, if a.Terminate? then a.thread else -1);
    }
  }

  lemma TerminatedWaiterIsDead(s: Vm, t: nat, r: Vm)
    requires Step(s, Terminate(t), r) && Exclusive(s) && Safe(s) && NoDeadWaiter(s) && Waits(s, t)
    ensures !NoDeadWaiter(r)
  {
    var m :| m in s.mtx && InQueue(s, m, t);
    assert Alive(s, t) && OwnsHeld(s, t);
    TerminateLeavesWaiter(s, t, m);
    QueuedBefore(s, Terminate(t));
    var b := Before(s, Terminate(t));
    assert b == Finish(s, t) && r == Schedule(b);
    ScheduleKeepsDead(b, t);
    hide Finish, Wf;
    assert InQueue(r, m, t) && !Alive(r, t);
  }

  /** A run in which no thread is terminated while it waits in a mutex queue. */
  predicate TerminatesNoWaiter(ss: seq<Vm>, acts: seq<Action>) {
    && |ss| == |acts| + 1
    && forall n :: 0 <= n < |acts| && acts[n].Terminate? ==> !Waits(ss[n], acts[n].thread)
  }

  lemma {:induction false} NoDeadWaiterInRun(ss: seq<Vm>, acts: seq<Action>, n: nat)
    requires Run(ss, acts) && TerminatesNoWaiter(ss, acts) && n < |ss|
    ensures NoDeadWaiter(ss[n])
  {
    if n > 0 {
      NoDeadWaiterInRun(ss, acts, n - 1);
      EveryRunIsSafe(ss, acts, n - 1);
      StepOf(ss, acts, n);
      hide Path, NoDeadWaiter, Exclusive, Safe, Step;
      StepKeepsNoDeadWaiterIff(ss[n - 1], acts[n - 1], ss[n]);
    }
  }

  /** No state of a run has a dead thread in a mutex queue exactly when the run terminates no waiter. */
  lemma NoDeadWaitersIff(ss: seq<Vm>, acts: seq<Action>)
    requires Run(ss, acts)
    ensures TerminatesNoWaiter(ss, acts) <==> forall n :: 0 <= n < |ss| ==> NoDeadWaiter(ss[n])
  {
    if TerminatesNoWaiter(ss, acts) {
      forall n | 0 <= n < |ss| ensures NoDeadWaiter(ss[n]) { NoDeadWaiterInRun(ss, acts, n); }
    } else {
      var n :| 0 <= n < |acts| && acts[n].Terminate? && Waits(ss[n], acts[n].thread);
      EveryRunIsSafe(ss, acts, n);
      StepOf(ss, acts, n + 1);
      hide Path, NoDeadWaiter, Exclusive, Safe, Step, Waits, TerminatesNoWaiter;
      if NoDeadWaiter(ss[n]) {
        StepKeepsNoDeadWaiterIff(ss[n], acts[n], ss[n + 1]);
      }
    }
  }

  /** In such a run a dead thread stays dead until it is activated. */
  lemma DeadUntilActivated(ss: seq<Vm>, acts: seq<Action>, n: nat, t: nat)
    requires Run(ss, acts) && TerminatesNoWaiter(ss, acts) && n < |acts| && Wf(ss[n]) && IsDead(ss[n], t)
    ensures Has(ss[n + 1], t) && (!ss[n + 1].thr[t].state.Dead? <==> acts[n] == Activate(t))
  {
    NoDeadWaiterInRun(ss, acts, n);
    StepOf(ss, acts, n + 1);
    if acts[n] == Activate(t) {
      ActivateRevives(ss[n], t, ss[n + 1]);
    } else {
      DeadComesBackIff(ss, acts, n, t);
      assert forall m :: Heads(ss[n], m, t) ==> InQueue(ss[n], m, t);
    }
  }

  lemma ActivateRevives(s: Vm, t: nat, r: Vm)
    requires Step(s, Activate(t), r) && IsDead(s, t)
    ensures Has(r, t) && !r.thr[t].state.Dead?
  {
    hide Wf;
  }
}
