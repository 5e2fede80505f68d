/** Runs in which blocking mutex calls never time out, immediate acquires succeed and no waiting thread
    is terminated: there a ready thread is queued exactly once and no other thread is queued at all. */
module ExactlyOnce {
  import opened Basics
  import opened VmState
  import opened MutexSafety
  import opened SchedulerSafety

  /** What the restricted runs allow in state s. */
  predicate Restricted(s: Vm, a: Action)
    requires Wf(s) && Enabled(s, a)
  {
    match a
    case MutexAcquire(m, timeout) =>
      m in s.mtx && s.mtx[m].owner.Some? && m !in s.thr[s.tr].held ==> timeout != IMMEDIATE && ToInt(timeout) <= 0
    case Terminate(t) => Has(s, t) ==> !s.thr[t].state.Waiting?
    case _ => true
  }

  /** A thread that counts ticks only sleeps; one that has a mutex in `waiting` is in that queue; one
      with an outstanding file request waits for nothing else. */
  predicate ThreadJoint(s: Vm, t: nat)
    requires Wf(s) && Has(s, t)
  {
    var c := s.thr[t];
    && (c.ticks > 0 ==> c.state.Waiting? && c.waiting.None? && t !in s.io)
    && (c.waiting.Some? ==> c.state.Waiting? && t in s.mtx[c.waiting.value].queue && t !in s.io)
    && (t in s.io ==> c.state.Waiting? && s.io[t] == 1)
  }

  /** Level p has no repetition and holds ready threads only; x is exempt (-1 exempts nobody). */
  predicate LevelJoint(s: Vm, p: nat, x: int)
    requires Wf(s) && p < 4
  {
    && NoDup(s.rq[p])
    && forall t :: t in s.rq[p] && t != x ==> s.thr[t].state.Ready?
  }

  predicate WaitersJoint(s: Vm, m: nat)
    requires Wf(s) && m in s.mtx
  {
    forall t :: t in s.mtx[m].queue ==> Has(s, t) && s.thr[t].waiting == Some(m)
  }

  predicate Joint(s: Vm, x: int)
    requires Wf(s)
  {
    && (forall t :: 0 <= t < |s.thr| ==> ThreadJoint(s, t))
    && (forall p :: 0 <= p < 4 ==> LevelJoint(s, p, x))
    && (forall m :: m in s.mtx ==> WaitersJoint(s, m))
    && (forall t :: t in s.io ==> t < |s.thr|)
  }

  lemma NotQueued(s: Vm, t: nat)
    requires Wf(s) && Queued(s) && Joint(s, -1) && Has(s, t) && !s.thr[t].state.Ready?
    ensures forall p :: 0 <= p < 4 ==> t !in s.rq[p]
  {
    forall p | 0 <= p < 4 ensures t !in s.rq[p] { assert LevelJoint(s, p, -1); }
  }

  /** A thread that is in no queue becomes ready. */
  lemma JointByMakeReady(s: Vm, t: nat, x: int)
    requires Wf(s) && Joint(s, x) && Has(s, t) && t != x
    requires t !in s.rq[s.thr[t].prio] && s.thr[t].ticks <= 0 && s.thr[t].waiting.None? && t !in s.io
    ensures Joint(MakeReady(s, t), x)
  {
    var r := MakeReady(s, t);
    forall u | 0 <= u < |r.thr| ensures ThreadJoint(r, u) { assert ThreadJoint(s, u); }
    forall p | 0 <= p < 4 ensures LevelJoint(r, p, x) { assert LevelJoint(s, p, x); }
    forall m | m in r.mtx ensures WaitersJoint(r, m) { assert WaitersJoint(s, m); }
  }

  lemma JointByReleaseMutex(s: Vm, m: nat, x: int)
    requires Wf(s) && Exclusive(s) && Joint(s, x) && m in s.mtx
    requires x >= 0 && Has(s, x) ==> !s.thr[x].state.Waiting?
    ensures Joint(ReleaseMutex(s, m), x)
  {
    var q := s.mtx[m].queue;
    var r := ReleaseMutex(s, m);
    assert QueueInv(s.mtx[m]) && WaitersJoint(s, m);
    if q != [] {
      assert q[0] in q && ThreadJoint(s, q[0]);
      forall p | 0 <= p < 4 ensures LevelJoint(r, p, x) { assert LevelJoint(s, p, x); }
    } else {
      forall p | 0 <= p < 4 ensures LevelJoint(r, p, x) { assert LevelJoint(s, p, x); }
    }
    forall u | 0 <= u < |r.thr| ensures ThreadJoint(r, u) { assert ThreadJoint(s, u); }
    forall k | k in r.mtx ensures WaitersJoint(r, k) { assert WaitersJoint(s, k); }
  }

  /** Only held lists and call results differ. */
  lemma JointBySame(s: Vm, r: Vm, x: int)
    requires Wf(s) && Wf(r) && Joint(s, x) && SameQueues(s, r) && r.mtx == s.mtx && r.io == s.io
    requires forall t :: 0 <= t < |s.thr| ==> r.thr[t].ticks == s.thr[t].ticks && r.thr[t].waiting == s.thr[t].waiting
    ensures Joint(r, x)
  {
    forall u | 0 <= u < |r.thr| ensures ThreadJoint(r, u) { assert ThreadJoint(s, u); }
    forall p | 0 <= p < 4 ensures LevelJoint(r, p, x) { assert LevelJoint(s, p, x); }
    forall m | m in r.mtx ensures WaitersJoint(r, m) { assert WaitersJoint(s, m); }
  }

  lemma {:induction false} JointByReleaseAll(s: Vm, t: nat)
    requires Wf(s) && Exclusive(s) && Joint(s, t) && Has(s, t) && s.thr[t].state.Dead?
    ensures Joint(ReleaseAll(s, t), t) && ReleaseAll(s, t).thr[t].state.Dead?
    decreases |s.thr[t].held|
  {
    var h := s.thr[t].held;
    if h != [] {
      var m := h[|h| - 1];
      assert OwnsHeld(s, t) && h == h[..|h| - 1] + [m];
      JointByReleaseMutex(s, m, t);
      var s1 := ReleaseMutex(s, m);
      ReleaseKeepsDead(s, t, m);
      JointBySame(s1, SetHeld(s1, t, h[..|h| - 1]), t);
      KeptByRelease(s, t, m, h[..|h| - 1]);
      JointByReleaseAll(SetHeld(s1, t, h[..|h| - 1]), t);
    }
  }

  lemma ReleaseKeepsDead(s: Vm, t: nat, m: nat)
    requires Wf(s) && Exclusive(s) && Has(s, t) && m in s.thr[t].held
    ensures ReleaseMutex(s, m).thr[t] == s.thr[t]
  {
    assert OwnsHeld(s, t);
    var q := s.mtx[m].queue;
    if q != [] { assert q[0] in q; }
  }

  lemma JointByFinish(s: Vm, t: nat)
    requires Wf(s) && Exclusive(s) && Queued(s) && Joint(s, -1) && Has(s, t) && !s.thr[t].state.Waiting?
    ensures Joint(Finish(s, t), -1)
  {
    var s1 := SetState(s, t, Dead);
    assert ThreadJoint(s, t);
    forall u | 0 <= u < |s1.thr| ensures ThreadJoint(s1, u) { assert ThreadJoint(s, u); }
    forall p | 0 <= p < 4 ensures LevelJoint(s1, p, t) { assert LevelJoint(s, p, -1); }
    forall m | m in s1.mtx ensures WaitersJoint(s1, m) { assert WaitersJoint(s, m); }
    KeptBySame(s, s1);
    JointByReleaseAll(s1, t);
    FinishQueued(s, t);
    JointByFlush(ReleaseAll(s1, t), t);
  }

  /** While t is being terminated its entries can only be in its own level. */
  lemma FinishQueued(s: Vm, t: nat)
    requires Wf(s) && Exclusive(s) && Queued(s) && Has(s, t)
    ensures var r := ReleaseAll(SetState(s, t, Dead), t);
            r.thr[t].prio == s.thr[t].prio && forall p :: 0 <= p < 4 && p != s.thr[t].prio ==> t !in r.rq[p]
  {
    var s1 := SetState(s, t, Dead);
    forall p | 0 <= p < 4 && p != s.thr[t].prio ensures t !in s1.rq[p] { assert QueueSafe(s, p); }
    KeptBySame(s, s1);
    ReleaseAllPushes(s1, t);
  }

  lemma {:induction false} ReleaseAllPushes(s: Vm, t: nat)
    requires Wf(s) && Exclusive(s) && Has(s, t)
    requires forall p :: 0 <= p < 4 && p != s.thr[t].prio ==> t !in s.rq[p]
    ensures var r := ReleaseAll(s, t);
            r.thr[t].prio == s.thr[t].prio && forall p :: 0 <= p < 4 && p != s.thr[t].prio ==> t !in r.rq[p]
    decreases |s.thr[t].held|
  {
    var h := s.thr[t].held;
    if h != [] {
      var m := h[|h| - 1];
      assert OwnsHeld(s, t) && h == h[..|h| - 1] + [m];
      var q := s.mtx[m].queue;
      if q != [] { assert q[0] in q; }
      KeptByRelease(s, t, m, h[..|h| - 1]);
      ReleaseAllPushes(SetHeld(ReleaseMutex(s, m), t, h[..|h| - 1]), t);
    }
  }

  lemma JointByFlush(s: Vm, t: nat)
    requires Wf(s) && Joint(s, t) && Has(s, t)
    requires forall p :: 0 <= p < 4 && p != s.thr[t].prio ==> t !in s.rq[p]
    ensures Joint(FlushLevel(s, t), -1)
  {
    var p := s.thr[t].prio;
    var r := FlushLevel(s, t);
    assert LevelJoint(s, p, t);
    WithoutNoDup(s.rq[p], t);
    forall u | 0 <= u < |r.thr| ensures ThreadJoint(r, u) { assert ThreadJoint(s, u); }
    forall k | 0 <= k < 4 ensures LevelJoint(r, k, -1) { assert LevelJoint(s, k, t); }
    forall m | m in r.mtx ensures WaitersJoint(r, m) { assert WaitersJoint(s, m); }
  }

  lemma JointByTick(s: Vm, t: nat)
    requires Wf(s) && Queued(s) && Joint(s, -1) && Has(s, t)
    ensures Joint(Tick(s, t), -1)
  {
    var c := s.thr[t];
    var s1 := SetTicks(s, t, if c.ticks - 1 < 0 then -5 else c.ticks - 1);
    assert ThreadJoint(s, t);
    forall u | 0 <= u < |s1.thr| ensures ThreadJoint(s1, u) { assert ThreadJoint(s, u); }
    forall p | 0 <= p < 4 ensures LevelJoint(s1, p, -1) { assert LevelJoint(s, p, -1); }
    forall m | m in s1.mtx ensures WaitersJoint(s1, m) { assert WaitersJoint(s, m); }
    if c.ticks == 1 && c.state.Waiting? {
      NotQueued(s, t);
      JointByMakeReady(s1, t, -1);
    }
  }

  lemma {:induction false} JointByTicks(s: Vm, n: nat)
    requires Wf(s) && Queued(s) && Joint(s, -1) && n <= |s.thr|
    ensures Joint(TickFirst(s, n), -1)
  {
    hide Tick, Queued, Joint;
    if n > 0 {
      JointByTicks(s, n - 1);
      QueuedByTicks(s, n - 1);
      JointByTick(TickFirst(s, n - 1), n - 1);
    }
  }

  /** The running thread blocks without touching a mutex. */
  lemma JointByBlock(s: Vm, r: Vm)
    requires Wf(s) && Wf(r) && Safe(s) && Joint(s, -1) && |r.thr| == |s.thr|
    requires forall t :: 0 <= t < |s.thr| && t != s.tr ==> r.thr[t] == s.thr[t]
    requires r.thr[s.tr].state.Waiting? && r.thr[s.tr].waiting.None? && r.rq == s.rq && r.mtx == s.mtx
    requires r.io == s.io || (r.io == s.io + multiset{s.tr} && r.thr[s.tr].ticks <= 0)
    ensures Joint(r, -1)
  {
    assert ThreadJoint(s, s.tr);
    NotQueued(s, s.tr);
    forall u | 0 <= u < |r.thr| ensures ThreadJoint(r, u) { assert ThreadJoint(s, u); }
    forall p | 0 <= p < 4 ensures LevelJoint(r, p, -1) { assert LevelJoint(s, p, -1); }
    forall m | m in r.mtx ensures WaitersJoint(r, m) { assert WaitersJoint(s, m); }
  }

  lemma JointByAcquire(s: Vm, m: nat, timeout: uint32)
    requires Wf(s) && Safe(s) && Exclusive(s) && Joint(s, -1)
    requires Enabled(s, MutexAcquire(m, timeout)) && Restricted(s, MutexAcquire(m, timeout))
    ensures Joint(Before(s, MutexAcquire(m, timeout)), -1)
  {
    assert ThreadJoint(s, s.tr);
    if m in s.mtx {
      if m in s.thr[s.tr].held {
        var r := Before(s, MutexAcquire(m, timeout));
        if timeout == IMMEDIATE { JointBySame(s, r, -1); } else { JointByHeldAcquire(s, m, timeout); }
      } else if s.mtx[m].owner.None? {
        JointByFreeAcquire(s, m, timeout);
      } else {
        JointByWait(s, m, timeout);
      }
    }
  }

  lemma JointByHeldAcquire(s: Vm, m: nat, timeout: uint32)
    requires Wf(s) && Safe(s) && Exclusive(s) && Joint(s, -1) && s.tr != IDLE
    requires m in s.mtx && m in s.thr[s.tr].held && timeout != IMMEDIATE
    ensures Joint(Before(s, MutexAcquire(m, timeout)), -1)
  {
    JointByBlock(s, Before(s, MutexAcquire(m, timeout)));
  }

  lemma JointByFreeAcquire(s: Vm, m: nat, timeout: uint32)
    requires Wf(s) && Safe(s) && Exclusive(s) && Joint(s, -1) && s.tr != IDLE
    requires m in s.mtx && m !in s.thr[s.tr].held && s.mtx[m].owner.None?
    ensures Joint(Before(s, MutexAcquire(m, timeout)), -1)
  {
    var r := Before(s, MutexAcquire(m, timeout));
    assert ThreadJoint(s, s.tr);
    forall u | 0 <= u < |r.thr| ensures ThreadJoint(r, u) { assert ThreadJoint(s, u); }
    forall p | 0 <= p < 4 ensures LevelJoint(r, p, -1) { assert LevelJoint(s, p, -1); }
    forall k | k in r.mtx ensures WaitersJoint(r, k) { assert WaitersJoint(s, k); }
  }

  /** An acquire of a mutex that another thread owns queues the caller and makes it wait. */
  lemma WaitShape(s: Vm, m: nat, timeout: uint32)
    requires Wf(s) && s.tr != IDLE && m in s.mtx && m !in s.thr[s.tr].held && s.mtx[m].owner.Some?
    requires timeout != IMMEDIATE && s.tr !in s.mtx[m].queue
    ensures var r := Before(s, MutexAcquire(m, timeout));
            r == s.(thr := s.thr[s.tr := s.thr[s.tr].(state := Waiting, ticks := ToInt(timeout), waiting := Some(m))],
                    mtx := s.mtx[m := s.mtx[m].(queue := s.mtx[m].queue + [s.tr])])
  {
    assert s.tr < |s.thr|;
    hide Wf;
    var r := Before(s, MutexAcquire(m, timeout));
    var c := s.thr[s.tr].(state := Waiting, ticks := ToInt(timeout), waiting := Some(m));
    assert r.thr == s.thr[s.tr := c];
  }

  lemma JointByWait(s: Vm, m: nat, timeout: uint32)
    requires Wf(s) && Safe(s) && Exclusive(s) && Joint(s, -1) && s.tr != IDLE
    requires m in s.mtx && m !in s.thr[s.tr].held && s.mtx[m].owner.Some?
    requires timeout != IMMEDIATE && ToInt(timeout) <= 0
    ensures Joint(Before(s, MutexAcquire(m, timeout)), -1)
  {
    var r := Before(s, MutexAcquire(m, timeout));
    assert ThreadJoint(s, s.tr);
    NotQueued(s, s.tr);
    assert WaitersJoint(s, m);
    assert s.tr !in s.mtx[m].queue;
    WaitShape(s, m, timeout);
    assert s.tr < |s.thr|;
    hide Before, Wf, Exclusive, Safe;
    forall u | 0 <= u < |r.thr| ensures ThreadJoint(r, u) { assert ThreadJoint(s, u); }
    forall p | 0 <= p < 4 ensures LevelJoint(r, p, -1) { assert LevelJoint(s, p, -1); }
    forall k | k in r.mtx ensures WaitersJoint(r, k) { assert WaitersJoint(s, k); }
  }

  lemma JointByAnswer(s: Vm, t: nat, result: int)
    requires Wf(s) && Queued(s) && Joint(s, -1) && Enabled(s, FileDone(t, result))
    ensures Joint(Answer(s, t, result), -1)
  {
    var s1 := s.(thr := s.thr[t := s.thr[t].(cd := result)], io := s.io - multiset{t});
    assert ThreadJoint(s, t);
    NotQueued(s, t);
    forall u | 0 <= u < |s1.thr| ensures ThreadJoint(s1, u) { assert ThreadJoint(s, u); }
    forall p | 0 <= p < 4 ensures LevelJoint(s1, p, -1) { assert LevelJoint(s, p, -1); }
    forall m | m in s1.mtx ensures WaitersJoint(s1, m) { assert WaitersJoint(s, m); }
    JointByMakeReady(s1, t, -1);
  }

  /** Threads and mutexes are only added, or a mutex nobody uses is removed. */
  lemma JointByGrowth(s: Vm, r: Vm)
    requires Wf(s) && Wf(r) && Joint(s, -1) && |s.thr| <= |r.thr| && r.rq == s.rq && r.io == s.io
    requires forall t :: 0 <= t < |s.thr| ==> r.thr[t] == s.thr[t]
    requires forall t :: |s.thr| <= t < |r.thr| ==> r.thr[t].ticks <= 0 && r.thr[t].waiting.None?
    requires forall m :: m in r.mtx ==> if m in s.mtx then r.mtx[m] == s.mtx[m] else r.mtx[m] == Mcb(None, [])
    ensures Joint(r, -1)
  {
    forall u | 0 <= u < |r.thr| ensures ThreadJoint(r, u) {
      if u < |s.thr| { assert ThreadJoint(s, u) && TcbOk(r, r.thr[u]); }
    }
    forall p | 0 <= p < 4 ensures LevelJoint(r, p, -1) { assert LevelJoint(s, p, -1) && QueueOk(s, s.rq[p]); }
    forall m | m in r.mtx ensures WaitersJoint(r, m) { if m in s.mtx { assert WaitersJoint(s, m); } }
  }

  lemma JointBySleep(s: Vm, tick: uint32)
    requires Wf(s) && Safe(s) && Joint(s, -1) && Enabled(s, Sleep(tick))
    ensures Joint(Before(s, Sleep(tick)), -1)
  {
    assert ThreadJoint(s, s.tr);
    NotQueued(s, s.tr);
    if tick == IMMEDIATE {
      JointByMakeReady(s, s.tr, -1);
    } else if tick != INFINITE {
      JointByBlock(s, Block(s, ToInt(tick)));
    }
  }

  lemma JointByRelease(s: Vm, t: nat, m: nat)
    requires Wf(s) && Exclusive(s) && Joint(s, -1) && Has(s, t) && m in s.thr[t].held
    ensures Joint(ReleaseHeld(s, t, m), -1)
  {
    JointByReleaseMutex(s, m, -1);
    JointBySame(ReleaseMutex(s, m), ReleaseHeld(s, t, m), -1);
  }

  lemma JointByActivate(s: Vm, t: nat)
    requires Wf(s) && Queued(s) && Joint(s, -1) && Has(s, t) && s.thr[t].state.Dead?
    ensures Joint(MakeReady(s, t), -1)
  {
    assert ThreadJoint(s, t);
    NotQueued(s, t);
    JointByMakeReady(s, t, -1);
  }

  lemma JointBefore(s: Vm, a: Action)
    requires Wf(s) && Safe(s) && Exclusive(s) && Joint(s, -1) && Enabled(s, a) && Restricted(s, a)
    ensures Joint(Before(s, a), -1)
  {
    match a {
      case Timer => JointByTicks(s, |s.thr|);
      case FileDone(t, result) => JointByAnswer(s, t, result);
      case FileRequest(initial) => assert ThreadJoint(s, s.tr); JointByBlock(s, SendRequest(s, initial));
      case Create(prio) => JointByGrowth(s, Append(s, prio));
      case Activate(t) => if Has(s, t) && s.thr[t].state.Dead? { JointByActivate(s, t); }
      case Terminate(t) => if Has(s, t) { JointByFinish(s, t); }
      case Sleep(tick) => JointBySleep(s, tick);
      case MutexAcquire(m, timeout) => JointByAcquire(s, m, timeout);
      case MutexRelease(m) => if m in s.mtx && m in s.thr[s.tr].held { JointByRelease(s, s.tr, m); }
      case Yield =>
      case MutexCreate => JointByGrowth(s, AddMutex(s));
      case MutexDelete(m) => if s.mtx[m].owner.None? { JointByGrowth(s, DropMutex(s, m)); }
    }
  }

  lemma JointBySchedule(s: Vm)
    requires Wf(s) && Queued(s) && Joint(s, -1) && SomeoneReady(Requeue(s))
    ensures Joint(Schedule(s), -1)
  {
    assert ThreadJoint(s, s.tr);
    if s.thr[s.tr].state.Running? {
      NotQueued(s, s.tr);
      JointByMakeReady(s, s.tr, -1);
    }
    QueuedByRequeue(s);
    JointByTake(Requeue(s), TopLevel(Requeue(s)));
  }

  lemma JointByTake(s: Vm, p: nat)
    requires Wf(s) && Queued(s) && Joint(s, -1) && p < 4 && s.rq[p] != []
    ensures var s2 := TakeHead(s, p); Joint(SetState(s2, s2.tr, Running), -1)
  {
    var s2 := TakeHead(s, p);
    var r := SetState(s2, s2.tr, Running);
    var q := s.rq[p];
    assert q[0] in q && LevelJoint(s, p, -1) && QueueSafe(s, p) && ThreadJoint(s, q[0]);
    forall u | 0 <= u < |r.thr| ensures ThreadJoint(r, u) { assert ThreadJoint(s, u); }
    forall k | 0 <= k < 4 ensures LevelJoint(r, k, -1) { assert LevelJoint(s, k, -1) && QueueSafe(s, k); }
    forall m | m in r.mtx ensures WaitersJoint(r, m) { assert WaitersJoint(s, m); }
  }

  lemma JointByStep(s: Vm, a: Action, r: Vm)
    requires Step(s, a, r) && Safe(s) && Exclusive(s) && Joint(s, -1) && Restricted(s, a)
    ensures Wf(r) && Joint(r, -1)
  {
    JointBefore(s, a);
    if Dispatches(s, a) {
      QueuedBefore(s, a);
      JointBySchedule(Before(s, a));
    }
  }

  /** A run all of whose steps are restricted. */
  predicate RestrictedRun(ss: seq<Vm>, acts: seq<Action>) {
    && Run(ss, acts)
    && forall i :: 0 <= i < |acts| ==> Step(ss[i], acts[i], ss[i + 1]) && Restricted(ss[i], acts[i])
  }

  lemma InitialIsJoint(s: Vm)
    requires Initial(s)
    ensures Wf(s) && Joint(s, -1)
  {
    InitialIsSafe(s);
    assert forall t :: 0 <= t < |s.thr| ==> ThreadJoint(s, t);
    assert forall p :: 0 <= p < 4 ==> LevelJoint(s, p, -1);
  }

  lemma {:induction false} EveryRestrictedRunIsJoint(ss: seq<Vm>, acts: seq<Action>, n: nat)
    requires RestrictedRun(ss, acts) && n < |ss|
    ensures Wf(ss[n]) && Exclusive(ss[n]) && Safe(ss[n]) && Joint(ss[n], -1)
  {
    EveryRunIsSafe(ss, acts, n);
    if n == 0 {
      InitialIsJoint(ss[0]);
    } else {
      assert Step(ss[n - 1], acts[n - 1], ss[n]) && Restricted(ss[n - 1], acts[n - 1]);
      hide Path, Step, Restricted, Joint, Exclusive, Safe;
      EveryRestrictedRunIsJoint(ss, acts, n - 1);
      JointByStep(ss[n - 1], acts[n - 1], ss[n]);
    }
  }

  /** How many entries of all ready queues are thread t. */
  function Entries(s: Vm, t: nat): nat
    requires Wf(s)
  {
    multiset(s.rq[0])[t] + multiset(s.rq[1])[t] + multiset(s.rq[2])[t] + multiset(s.rq[3])[t]
  }

  lemma {:induction false} CountNoDup(q: seq<nat>, t: nat)
    requires NoDup(q)
    ensures multiset(q)[t] == if t in q then 1 else 0
  {
    if q != [] {
      assert q == [q[0]] + q[1..];
      CountNoDup(q[1..], t);
    }
  }

  /** In a restricted run a ready thread is queued exactly once, and a running, waiting or dead thread
      not at all. */
  lemma ReadyExactlyOnce(ss: seq<Vm>, acts: seq<Action>, n: nat, t: nat)
    requires RestrictedRun(ss, acts) && n < |ss| && Has(ss[n], t)
    ensures Wf(ss[n]) && Entries(ss[n], t) == if ss[n].thr[t].state.Ready? then 1 else 0
  {
    EveryRestrictedRunIsJoint(ss, acts, n);
    EntriesOfJoint(ss[n], t);
  }

  lemma EntriesOfJoint(s: Vm, t: nat)
    requires Wf(s) && Queued(s) && Joint(s, -1) && Has(s, t)
    ensures Entries(s, t) == if s.thr[t].state.Ready? then 1 else 0
  {
    forall p | 0 <= p < 4
      ensures multiset(s.rq[p])[t] == if s.thr[t].state.Ready? && s.thr[t].prio == p then 1 else 0
    {
      assert LevelJoint(s, p, -1) && QueueSafe(s, p) && Findable(s, t);
      CountNoDup(s.rq[p], t);
    }
  }
}
