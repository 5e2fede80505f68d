/** What every run keeps of the ready queues and run states, whatever timeouts it contains: one thread
    runs, every ready thread can be found by the scheduler, no dead thread can be dispatched, and the
    scheduler never takes the front of an empty queue. */
module SchedulerSafety {
  import opened Basics
  import opened VmState
  import opened MutexSafety

  predicate QueueSafe(s: Vm, p: nat)
    requires Wf(s) && p < 4
  {
    forall t :: t in s.rq[p] ==> s.thr[t].prio == p && !s.thr[t].state.Dead?
  }

  predicate Findable(s: Vm, t: nat)
    requires Wf(s) && Has(s, t)
  {
    s.thr[t].state.Ready? ==> t in s.rq[s.thr[t].prio]
  }

  /** Holds between a change of state and the call of `scheduler()`. */
  predicate Queued(s: Vm)
    requires Wf(s)
  {
    && (forall p :: 0 <= p < 4 ==> QueueSafe(s, p))
    && (forall t :: 0 <= t < |s.thr| ==> Findable(s, t))
    && (forall t :: 0 <= t < |s.thr| && s.thr[t].state.Running? ==> t == s.tr)
    && s.thr[IDLE].prio == NIL
    && (s.thr[IDLE].state.Ready? || (s.thr[IDLE].state.Running? && s.tr == IDLE))
  }

  predicate Safe(s: Vm)
    requires Wf(s)
  {
    Queued(s) && s.thr[s.tr].state.Running?
  }

  /** Same run states, queues and current thread. */
  predicate SameQueues(s: Vm, r: Vm) {
    && |r.thr| == |s.thr|
    && (forall t :: 0 <= t < |s.thr| ==> r.thr[t].prio == s.thr[t].prio && r.thr[t].state == s.thr[t].state)
    && r.rq == s.rq
    && r.tr == s.tr
  }

  lemma QueuedBySame(s: Vm, r: Vm)
    requires Wf(s) && Wf(r) && Queued(s) && SameQueues(s, r)
    ensures Queued(r)
  {
    forall p | 0 <= p < 4 ensures QueueSafe(r, p) { assert QueueSafe(s, p); }
    forall t | 0 <= t < |r.thr| ensures Findable(r, t) { assert Findable(s, t); }
  }

  lemma QueuedByMakeReady(s: Vm, t: nat)
    requires Wf(s) && Queued(s) && Has(s, t)
    ensures Queued(MakeReady(s, t))
  {
    var r := MakeReady(s, t);
    forall p | 0 <= p < 4 ensures QueueSafe(r, p) { assert QueueSafe(s, p); }
    forall u | 0 <= u < |r.thr| ensures Findable(r, u) { assert Findable(s, u); }
  }

  lemma QueuedByStopWaiting(s: Vm, t: nat)
    requires Wf(s) && Queued(s) && Has(s, t)
    ensures Queued(StopWaiting(s, t))
  {
    QueuedBySame(s, SetWaiting(s, t, None));
    QueuedByMakeReady(SetWaiting(s, t, None), t);
  }

  lemma QueuedByBlock(s: Vm, r: Vm)
    requires Wf(s) && Wf(r) && Queued(s) && s.tr != IDLE && |r.thr| == |s.thr|
    requires forall t :: 0 <= t < |s.thr| ==> r.thr[t].prio == s.thr[t].prio
    requires forall t :: 0 <= t < |s.thr| && t != s.tr ==> r.thr[t].state == s.thr[t].state
    requires r.thr[s.tr].state.Waiting? && r.rq == s.rq && r.tr == s.tr
    ensures Queued(r)
  {
    forall p | 0 <= p < 4 ensures QueueSafe(r, p) { assert QueueSafe(s, p); }
    forall t | 0 <= t < |r.thr| ensures Findable(r, t) { assert Findable(s, t); }
  }

  lemma QueuedByReleaseMutex(s: Vm, m: nat)
    requires Wf(s) && Queued(s) && m in s.mtx
    ensures Queued(ReleaseMutex(s, m))
  {
    var q := s.mtx[m].queue;
    if q == [] {
      QueuedBySame(s, ReleaseMutex(s, m));
    } else {
      hide Queued;
      assert McbOk(s, s.mtx[m]) && q[0] in q && forall x :: x in q[1..] ==> x in q;
      var s1 := SetMutex(s, m, Mcb(Some(q[0]), q[1..]));
      QueuedBySame(s, s1);
      QueuedByStopWaiting(s1, q[0]);
    }
  }

  lemma QueuedByTick(s: Vm, t: nat)
    requires Wf(s) && Queued(s) && Has(s, t)
    ensures Queued(Tick(s, t))
  {
    var c := s.thr[t];
    var s1 := SetTicks(s, t, if c.ticks - 1 < 0 then -5 else c.ticks - 1);
    QueuedBySame(s, s1);
    if c.ticks == 1 && c.state.Waiting? {
      var s2 := MakeReady(s1, t);
      QueuedByMakeReady(s1, t);
      if c.waiting.Some? {
        var m := c.waiting.value;
        var s3 := SetMutex(s2, m, s.mtx[m].(queue := Without(s.mtx[m].queue, t)));
        QueuedBySame(s2, s3);
        QueuedByStopWaiting(s3, t);
        assert SameQueues(StopWaiting(s3, t), Tick(s, t));
        QueuedBySame(StopWaiting(s3, t), Tick(s, t));
      }
    }
  }

  lemma {:induction false} QueuedByTicks(s: Vm, n: nat)
    requires Wf(s) && Queued(s) && n <= |s.thr|
    ensures Queued(TickFirst(s, n))
  {
    hide Tick, Queued;
    if n > 0 {
      QueuedByTicks(s, n - 1);
      QueuedByTick(TickFirst(s, n - 1), n - 1);
    }
  }

  /** The invariant while thread x is being terminated: x may still be queued, but nobody makes it
      ready again. */
  predicate Dying(s: Vm, x: nat)
    requires Wf(s) && Has(s, x)
  {
    && (forall p, t :: 0 <= p < 4 && t in s.rq[p] ==>
          s.thr[t].prio == p && (t != x ==> !s.thr[t].state.Dead?))
    && (forall t :: 0 <= t < |s.thr| ==> Findable(s, t))
    && (forall t :: 0 <= t < |s.thr| && s.thr[t].state.Running? ==> t == s.tr)
    && s.thr[IDLE].prio == NIL
    && (s.thr[IDLE].state.Ready? || (s.thr[IDLE].state.Running? && s.tr == IDLE))
    && s.thr[x].state.Dead?
    && x != IDLE
    && forall m :: m in s.thr[x].held ==> x !in s.mtx[m].queue
  }

  lemma {:induction false} DyingKept(s: Vm, x: nat)
    requires Wf(s) && Has(s, x) && Dying(s, x)
    ensures Dying(ReleaseAll(s, x), x)
    decreases |s.thr[x].held|
  {
    var h := s.thr[x].held;
    if h != [] {
      var m := h[|h| - 1];
      ReleaseMutexShape(s, m);
      DyingKeptOnce(s, x, m);
      DyingBySetHeld(ReleaseMutex(s, m), x, h[..|h| - 1]);
      DyingKept(SetHeld(ReleaseMutex(s, m), x, h[..|h| - 1]), x);
    }
  }

  lemma DyingBySetHeld(s: Vm, x: nat, h: seq<nat>)
    requires Wf(s) && Has(s, x) && Dying(s, x) && forall m :: m in h ==> m in s.thr[x].held
    ensures Dying(SetHeld(s, x, h), x)
  {
    var r := SetHeld(s, x, h);
    forall t | 0 <= t < |r.thr| ensures Findable(r, t) { assert Findable(s, t); }
  }

  lemma DyingByHandOff(s: Vm, x: nat, t: nat)
    requires Wf(s) && Has(s, x) && Has(s, t) && Dying(s, x) && t != x
    ensures Dying(StopWaiting(s, t), x)
  {
    var r := StopWaiting(s, t);
    hide Wf;
    forall u | 0 <= u < |r.thr| ensures Findable(r, u) { assert Findable(s, u); }
  }

  lemma DyingBySetMutex(s: Vm, x: nat, m: nat, c: Mcb)
    requires Wf(s) && Has(s, x) && Dying(s, x) && m in s.mtx && McbOk(s, c) && x !in c.queue
    ensures Dying(SetMutex(s, m, c), x)
  {
    var r := SetMutex(s, m, c);
    hide Wf, McbOk;
    forall u | 0 <= u < |r.thr| ensures Findable(r, u) { assert Findable(s, u); }
  }

  lemma DyingKeptOnce(s: Vm, x: nat, m: nat)
    requires Wf(s) && Has(s, x) && Dying(s, x) && m in s.thr[x].held
    ensures Dying(ReleaseMutex(s, m), x)
  {
    var q := s.mtx[m].queue;
    assert x !in q && McbOk(s, s.mtx[m]);
    hide Dying;
    if q == [] {
      DyingBySetMutex(s, x, m, Mcb(None, []));
    } else {
      assert q[0] in q && forall y :: y in q[1..] ==> y in q;
      DyingBySetMutex(s, x, m, Mcb(Some(q[0]), q[1..]));
      DyingByHandOff(SetMutex(s, m, Mcb(Some(q[0]), q[1..])), x, q[0]);
    }
  }

  lemma DyingBegins(s: Vm, x: nat)
    requires Wf(s) && Queued(s) && Exclusive(s) && Has(s, x) && x != IDLE
    ensures Dying(SetState(s, x, Dead), x)
  {
    var r := SetState(s, x, Dead);
    assert OwnsHeld(s, x);
    hide Wf, Exclusive;
    forall p, t | 0 <= p < 4 && t in r.rq[p]
      ensures r.thr[t].prio == p && (t != x ==> !r.thr[t].state.Dead?)
    {
      assert QueueSafe(s, p);
    }
    forall t | 0 <= t < |r.thr| ensures Findable(r, t) { assert Findable(s, t); }
  }

  lemma DyingEnds(s: Vm, x: nat)
    requires Wf(s) && Has(s, x) && Dying(s, x)
    ensures Queued(FlushLevel(s, x))
  {
    var r := FlushLevel(s, x);
    forall p | 0 <= p < 4 ensures QueueSafe(r, p) { }
    forall t | 0 <= t < |r.thr| ensures Findable(r, t) { assert Findable(s, t); }
  }

  lemma QueuedByFinish(s: Vm, x: nat)
    requires Wf(s) && Queued(s) && Exclusive(s) && Has(s, x) && x != IDLE
    ensures Queued(Finish(s, x))
  {
    hide Queued, Exclusive, Dying, ReleaseAll, FlushLevel, SetState;
    DyingBegins(s, x);
    DyingKept(SetState(s, x, Dead), x);
    DyingEnds(ReleaseAll(SetState(s, x, Dead), x), x);
  }

  lemma QueuedByRelease(s: Vm, t: nat, m: nat)
    requires Wf(s) && Queued(s) && Has(s, t) && m in s.thr[t].held
    ensures Queued(ReleaseHeld(s, t, m))
  {
    QueuedByReleaseMutex(s, m);
    QueuedBySame(ReleaseMutex(s, m), ReleaseHeld(s, t, m));
  }

  lemma QueuedByAcquire(s: Vm, m: nat, timeout: uint32)
    requires Wf(s) && Queued(s) && Enabled(s, MutexAcquire(m, timeout))
    ensures Queued(Before(s, MutexAcquire(m, timeout)))
  {
    hide Queued;
    if m in s.mtx {
      var s1 := TryAcquire(s, s.tr, m, timeout).0;
      QueuedBySame(s, s1);
      QueuedByBlock(s1, Block(s1, ToInt(timeout)));
    }
  }

  lemma QueuedByCreate(s: Vm, prio: nat)
    requires Wf(s) && Queued(s) && prio < 4
    ensures Queued(Append(s, prio))
  {
    var r := Append(s, prio);
    forall p | 0 <= p < 4 ensures QueueSafe(r, p) { assert QueueSafe(s, p) && QueueOk(s, s.rq[p]); }
    forall t | 0 <= t < |r.thr| ensures Findable(r, t) { if t < |s.thr| { assert Findable(s, t); } }
  }

  lemma QueuedByAnswer(s: Vm, t: nat, result: int)
    requires Wf(s) && Queued(s) && Has(s, t)
    ensures Queued(Answer(s, t, result))
  {
    var s1 := s.(thr := s.thr[t := s.thr[t].(cd := result)], io := s.io - multiset{t});
    QueuedBySame(s, s1);
    QueuedByMakeReady(s1, t);
  }

  lemma QueuedBefore(s: Vm, a: Action)
    requires Wf(s) && Queued(s) && Exclusive(s) && Enabled(s, a)
    ensures Queued(Before(s, a))
  {
    match a {
      case Timer => QueuedByTicks(s, |s.thr|);
      case FileDone(t, result) => QueuedByAnswer(s, t, result);
      case FileRequest(initial) => QueuedByBlock(s, SendRequest(s, initial));
      case Create(prio) => QueuedByCreate(s, prio);
      case Activate(t) => if Has(s, t) { QueuedByMakeReady(s, t); }
      case Terminate(t) => if Has(s, t) { QueuedByFinish(s, t); }
      case Sleep(tick) =>
        QueuedByMakeReady(s, s.tr);
        QueuedByBlock(s, Block(s, ToInt(tick)));
      case MutexAcquire(m, timeout) => QueuedByAcquire(s, m, timeout);
      case MutexRelease(m) => if m in s.mtx && m in s.thr[s.tr].held { QueuedByRelease(s, s.tr, m); }
      case Yield =>
      case MutexCreate => QueuedBySame(s, AddMutex(s));
      case MutexDelete(m) => if s.mtx[m].owner.None? { QueuedBySame(s, DropMutex(s, m)); }
    }
  }

  lemma QueuedByRequeue(s: Vm)
    requires Wf(s) && Queued(s)
    ensures Queued(Requeue(s)) && SomeoneReady(Requeue(s)) && !Requeue(s).thr[s.tr].state.Running?
  {
    QueuedByMakeReady(s, s.tr);
    var r := Requeue(s);
    assert Findable(r, IDLE);
    assert r.rq[NIL] != [];
  }

  /** The scheduler turns the intermediate invariant into the full one. */
  lemma SafeBySchedule(s: Vm)
    requires Wf(s) && Queued(s) && SomeoneReady(Requeue(s))
    ensures Safe(Schedule(s))
  {
    QueuedByRequeue(s);
    var s1 := Requeue(s);
    var p := TopLevel(s1);
    var r := Schedule(s);
    assert s1.rq[p] != [] by { assert exists q :: 0 <= q < 4 && s1.rq[q] != []; }
    var q := s1.rq[p];
    assert q == [q[0]] + q[1..];
    forall k | 0 <= k < 4 ensures QueueSafe(r, k) { assert QueueSafe(s1, k); }
    forall t | 0 <= t < |r.thr| ensures Findable(r, t) {
      assert Findable(s1, t);
      assert QueueSafe(s1, p);
    }
    assert QueueSafe(s1, p) && q[0] in q;
    assert q[0] == IDLE || r.thr[IDLE].state == s1.thr[IDLE].state;
  }

  lemma StateKeptBefore(s: Vm, a: Action)
    requires Wf(s) && Safe(s) && Enabled(s, a) && !Dispatches(s, a)
    ensures Before(s, a).tr == s.tr && Before(s, a).thr[s.tr].state.Running?
  {
  }

  lemma SafeByStep(s: Vm, a: Action, r: Vm)
    requires Step(s, a, r) && Safe(s) && Exclusive(s)
    ensures Wf(r) && Safe(r)
  {
    QueuedBefore(s, a);
    if Dispatches(s, a) {
      SafeBySchedule(Before(s, a));
    } else {
      StateKeptBefore(s, a);
    }
  }

  lemma InitialIsSafe(s: Vm)
    requires Initial(s)
    ensures Wf(s) && Exclusive(s) && Safe(s)
  {
    assert forall t :: 0 <= t < |s.thr| ==> TcbOk(s, s.thr[t]) && OwnsHeld(s, t) && Findable(s, t);
    assert forall p :: 0 <= p < 4 ==> QueueOk(s, s.rq[p]) && QueueSafe(s, p);
  }

  /** At every step boundary of every run exactly one thread runs and it is the current one, every entry
      of a ready queue has that queue's priority, every ready thread is queued, no queued thread is
      dead. */
  lemma {:induction false} EveryRunIsSafe(ss: seq<Vm>, acts: seq<Action>, n: nat)
    requires Run(ss, acts) && n < |ss|
    ensures Wf(ss[n]) && Exclusive(ss[n]) && Safe(ss[n])
  {
    if n == 0 {
      InitialIsSafe(ss[0]);
    } else {
      EveryRunIsSafe(ss, acts, n - 1);
      StepOf(ss, acts, n);
      hide Path, Exclusive, Safe, Step;
      KeptByStep(ss[n - 1], acts[n - 1], ss[n]);
      SafeByStep(ss[n - 1], acts[n - 1], ss[n]);
    }
  }

  lemma OneRunningThread(ss: seq<Vm>, acts: seq<Action>, n: nat, t: nat)
    requires Run(ss, acts) && n < |ss| && Has(ss[n], t)
    ensures ss[n].thr[t].state.Running? <==> t == ss[n].tr
  {
    EveryRunIsSafe(ss, acts, n);
  }

  /** Whatever can happen next, the scheduler finds a thread: the front of an empty queue is never taken. */
  lemma SchedulerFindsAThread(ss: seq<Vm>, acts: seq<Action>, n: nat, a: Action)
    requires Run(ss, acts) && n < |ss| && Wf(ss[n]) && Enabled(ss[n], a)
    ensures CanDispatch(ss[n], a)
  {
    EveryRunIsSafe(ss, acts, n);
    QueuedBefore(ss[n], a);
    QueuedByRequeue(Before(ss[n], a));
  }
}
