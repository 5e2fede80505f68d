/** Ticks: what one timer interrupt does to every thread, exact wake-up times, and who can end the wait
    for a mutex. */
module Timing {
  import opened Basics
  import opened VmState
  import opened MutexSafety
  import opened SchedulerSafety
  import opened ExactlyOnce

  predicate Wakes(c: Tcb) {
    c.ticks == 1 && c.state.Waiting?
  }

  /** What a tick makes of a thread. */
  function Ticked(c: Tcb): Tcb {
    var n := if c.ticks - 1 < 0 then -5 else c.ticks - 1;
    if Wakes(c) then c.(ticks := n, state := Ready, waiting := None) else c.(ticks := n)
  }

  lemma TickOne(s: Vm, x: nat, t: nat)
    requires Wf(s) && Has(s, x) && Has(s, t)
    ensures Tick(s, x).thr[t] == if x == t then Ticked(s.thr[t]) else s.thr[t]
  {
  }

  /** A timer interrupt ticks every thread once and no thread twice, although waking one thread changes
      the queues of others. */
  lemma {:induction false} TickEffect(s: Vm, n: nat, t: nat)
    requires Wf(s) && n <= |s.thr| && Has(s, t)
    ensures TickFirst(s, n).thr[t] == if t < n then Ticked(s.thr[t]) else s.thr[t]
  {
    hide Tick, Ticked;
    if n > 0 {
      TickEffect(s, n - 1, t);
      TickOne(TickFirst(s, n - 1), n - 1, t);
    }
  }

  function PushesOf(c: Tcb): nat {
    if !Wakes(c) then 0 else if c.waiting.Some? then 2 else 1
  }

  lemma EntriesByPush(s: Vm, x: nat, t: nat)
    requires Wf(s) && Has(s, x)
    ensures Entries(Push(s, x), t) == Entries(s, t) + if x == t then 1 else 0
  {
    var p := s.thr[x].prio;
    assert forall k :: 0 <= k < 4 && k != p ==> Push(s, x).rq[k] == s.rq[k];
    assert multiset(s.rq[p] + [x]) == multiset(s.rq[p]) + multiset{x};
  }

  lemma EntriesByTick(s: Vm, x: nat, t: nat)
    requires Wf(s) && Has(s, x)
    ensures Entries(Tick(s, x), t) == Entries(s, t) + if x == t then PushesOf(s.thr[x]) else 0
  {
    var c := s.thr[x];
    if Wakes(c) {
      var s2 := SetState(SetTicks(s, x, 0), x, Ready);
      assert Entries(s2, t) == Entries(s, t);
      if c.waiting.None? {
        EntriesByPush(s2, x, t);
      } else {
        var m := c.waiting.value;
        var s3 := SetMutex(s2, m, s2.mtx[m].(queue := Without(s2.mtx[m].queue, x)));
        var s4 := SetState(SetWaiting(s3, x, None), x, Ready);
        assert s4.rq == s2.rq && WaitTimeout(s2, x, m) == Push(s4, x);
        EntriesByPush(s4, x, t);
        EntriesByPush(Push(s4, x), x, t);
      }
    }
  }

  lemma {:induction false} EntriesByTicks(s: Vm, n: nat, t: nat)
    requires Wf(s) && n <= |s.thr| && Has(s, t)
    ensures Entries(TickFirst(s, n), t) == Entries(s, t) + if t < n then PushesOf(s.thr[t]) else 0
  {
    hide Tick, Entries, PushesOf;
    if n > 0 {
      EntriesByTicks(s, n - 1, t);
      TickEffect(s, n - 1, n - 1);
      EntriesByTick(TickFirst(s, n - 1), n - 1, t);
    }
  }

  /** The timer interrupt queues a thread that it wakes exactly once if and only if the thread was not
      waiting for a mutex; otherwise the thread gets two entries. */
  lemma TimeoutQueuesOnceIff(s: Vm, t: nat)
    requires Wf(s) && Has(s, t) && Wakes(s.thr[t])
    ensures Before(s, Timer).thr[t].state.Ready?
    ensures Entries(Before(s, Timer), t) == Entries(s, t) + 1 <==> s.thr[t].waiting.None?
    ensures s.thr[t].waiting.Some? ==> Entries(Before(s, Timer), t) == Entries(s, t) + 2
  {
    EntriesByTicks(s, |s.thr|, t);
    TickEffect(s, |s.thr|, t);
  }

  /** A waiting thread with a non-positive count is left alone by every tick, in any state. */
  lemma NonPositiveNeverWakes(s: Vm, t: nat)
    requires Wf(s) && Has(s, t) && s.thr[t].ticks <= 0
    ensures Before(s, Timer).thr[t] == s.thr[t].(ticks := -5)
    ensures Entries(Before(s, Timer), t) == Entries(s, t)
  {
    TickEffect(s, |s.thr|, t);
    EntriesByTicks(s, |s.thr|, t);
  }

  // ---------- Who can touch a waiting thread ----------

  lemma ReleaseTouches(s: Vm, m: nat, t: nat)
    requires Wf(s) && m in s.mtx && Has(s, t)
    ensures ReleaseMutex(s, m).thr[t] == s.thr[t] || (s.mtx[m].queue != [] && s.mtx[m].queue[0] == t)
  {
  }

  /** Thread t leaves the wait for mutex k only by becoming its owner. */
  predicate HandedOver(s: Vm, r: Vm, t: nat)
    requires Wf(s) && Has(s, t)
  {
    s.thr[t].waiting.Some? && s.thr[t].waiting.value in r.mtx
    && r.mtx[s.thr[t].waiting.value].owner == Some(t)
  }

  lemma ReleaseHandsOver(s: Vm, m: nat, t: nat, x: int)
    requires Wf(s) && Joint(s, x) && m in s.mtx && Has(s, t) && s.thr[t].state.Waiting?
    ensures ReleaseMutex(s, m).thr[t] == s.thr[t] || HandedOver(s, ReleaseMutex(s, m), t)
  {
    ReleaseTouches(s, m, t);
    assert WaitersJoint(s, m);
  }

  lemma {:induction false} ReleaseAllHandsOver(s: Vm, x: nat, t: nat)
    requires Wf(s) && Exclusive(s) && Joint(s, x) && Has(s, x) && Has(s, t) && x != t
    requires s.thr[t].state.Waiting? && s.thr[x].state.Dead?
    ensures ReleaseAll(s, x).thr[t] == s.thr[t] || HandedOver(s, ReleaseAll(s, x), t)
    decreases |s.thr[x].held|
  {
    var h := s.thr[x].held;
    if h != [] {
      var m := h[|h| - 1];
      assert OwnsHeld(s, x) && h == h[..|h| - 1] + [m];
      var s1 := ReleaseMutex(s, m);
      var s2 := SetHeld(s1, x, h[..|h| - 1]);
      ReleaseHandsOver(s, m, t, x);
      JointByReleaseMutex(s, m, x);
      ReleaseKeepsDead(s, x, m);
      JointBySame(s1, s2, x);
      KeptByRelease(s, x, m, h[..|h| - 1]);
      if s1.thr[t] == s.thr[t] {
        ReleaseAllHandsOver(s2, x, t);
      } else {
        ReleaseAllKeepsMutex(s2, x, s.thr[t].waiting.value);
      }
    }
  }

  lemma FinishHandsOver(s: Vm, x: nat, t: nat)
    requires Wf(s) && Exclusive(s) && Joint(s, -1) && Has(s, x) && Has(s, t)
    requires s.thr[t].state.Waiting? && !s.thr[x].state.Waiting?
    ensures Finish(s, x).thr[t] == s.thr[t] || HandedOver(s, Finish(s, x), t)
  {
    hide ReleaseAll;
    var s1 := SetState(s, x, Dead);
    forall u | 0 <= u < |s1.thr| ensures ThreadJoint(s1, u) { assert ThreadJoint(s, u); }
    forall p | 0 <= p < 4 ensures LevelJoint(s1, p, x) { assert LevelJoint(s, p, -1); }
    forall m | m in s1.mtx ensures WaitersJoint(s1, m) { assert WaitersJoint(s, m); }
    KeptBySame(s, s1);
    ReleaseAllHandsOver(s1, x, t);
  }

  /** Before `scheduler()` runs, a restricted step leaves a waiting thread as it is unless it ticks it,
      answers its file request or makes it owner of the mutex it waits for. */
  lemma WaiterBefore(s: Vm, a: Action, t: nat)
    requires Wf(s) && Safe(s) && Exclusive(s) && Joint(s, -1) && Enabled(s, a) && Restricted(s, a)
    requires Has(s, t) && s.thr[t].state.Waiting?
    ensures var r := Before(s, a);
            if a.Timer? then r.thr[t] == Ticked(s.thr[t])
            else r.thr[t] == s.thr[t] || (a.FileDone? && a.thread == t && t in s.io) || HandedOver(s, r, t)
  {
    hide Joint, Exclusive;
    match a {
      case Timer => TickEffect(s, |s.thr|, t);
      case Terminate(x) => if Has(s, x) { FinishHandsOver(s, x, t); }
      case MutexRelease(m) =>
        if m in s.mtx && m in s.thr[s.tr].held { ReleaseHandsOver(s, m, t, -1); }
      case _ => OthersLeaveWaiter(s, a, t);
    }
    hide Wf, TickFirst, Finish, ReleaseMutex, Restricted, Enabled;
  }

  lemma OthersLeaveWaiter(s: Vm, a: Action, t: nat)
    requires Wf(s) && Safe(s) && Enabled(s, a) && Has(s, t) && s.thr[t].state.Waiting?
    requires !a.Timer? && !a.Terminate? && !a.MutexRelease?
    ensures Before(s, a).thr[t] == s.thr[t] || (a.FileDone? && a.thread == t && t in s.io)
  {
    assert s.tr < |s.thr| && s.tr != t;
    if a.MutexAcquire? {
      AcquireShape(s, a.mutex, a.timeout);
      hide Before;
    }
    hide Wf, Queued, Referenced, TryAcquire;
  }

  lemma ScheduleLeavesWaiter(s: Vm, t: nat)
    requires Wf(s) && Queued(s) && Joint(s, -1) && SomeoneReady(Requeue(s)) && Has(s, t)
    ensures s.thr[t].state.Waiting? ==> Schedule(s).thr[t] == s.thr[t]
    ensures s.thr[t].state.Ready? ==> Schedule(s).thr[t].state.Ready? || Schedule(s).thr[t].state.Running?
    ensures Schedule(s).mtx == s.mtx
  {
    if s.thr[t].state.Waiting? {
      NotQueued(s, t);
      var s1 := Requeue(s);
      var p := TopLevel(s1);
      QueuedByRequeue(s);
      assert s1.rq[p] != [] by { assert exists q :: 0 <= q < 4 && s1.rq[q] != []; }
      assert t !in s1.rq[p];
      assert s1.rq[p][0] in s1.rq[p];
    }
  }

  /** In a restricted run a step of any kind takes a waiting thread t out of its wait only when its tick
      count runs out, when its file request is answered, or when it becomes the owner of the mutex it
      waits for. */
  lemma WaitEnds(ss: seq<Vm>, acts: seq<Action>, n: nat, t: nat)
    requires RestrictedRun(ss, acts) && n < |acts| && Wf(ss[n]) && Has(ss[n], t) && ss[n].thr[t].state.Waiting?
    ensures Has(ss[n + 1], t)
    ensures acts[n].Timer? && Wakes(ss[n].thr[t]) ==>
              ss[n + 1].thr[t].state.Ready? || ss[n + 1].thr[t].state.Running?
    ensures acts[n].Timer? && !Wakes(ss[n].thr[t]) ==> ss[n + 1].thr[t] == Ticked(ss[n].thr[t])
    ensures !acts[n].Timer? ==>
              || ss[n + 1].thr[t] == ss[n].thr[t]
              || (acts[n].FileDone? && acts[n].thread == t && t in ss[n].io)
              || HandedOver(ss[n], ss[n + 1], t)
  {
    var s, a, r := ss[n], acts[n], ss[n + 1];
    EveryRestrictedRunIsJoint(ss, acts, n);
    assert Step(s, a, r) && Restricted(s, a);
    WaitEndsStep(s, a, r, t);
  }

  lemma WaitEndsStep(s: Vm, a: Action, r: Vm, t: nat)
    requires Step(s, a, r) && Safe(s) && Exclusive(s) && Joint(s, -1) && Restricted(s, a)
    requires Has(s, t) && s.thr[t].state.Waiting?
    ensures Has(r, t)
    ensures a.Timer? && Wakes(s.thr[t]) ==> r.thr[t].state.Ready? || r.thr[t].state.Running?
    ensures a.Timer? && !Wakes(s.thr[t]) ==> r.thr[t] == Ticked(s.thr[t])
    ensures !a.Timer? ==>
              r.thr[t] == s.thr[t] || (a.FileDone? && a.thread == t && t in s.io) || HandedOver(s, r, t)
  {
    hide Before, Joint, Queued, Exclusive, Schedule;
    WaiterBefore(s, a, t);
    if Dispatches(s, a) {
      JointBefore(s, a);
      QueuedBefore(s, a);
      ScheduleLeavesWaiter(Before(s, a), t);
    }
  }

  /** A thread that waits for a mutex without a timeout is never woken by a tick: it stays where it is
      or becomes the owner. */
  lemma InfiniteWaitEndsWithOwnership(ss: seq<Vm>, acts: seq<Action>, n: nat, t: nat)
    requires RestrictedRun(ss, acts) && n < |acts| && Wf(ss[n]) && Has(ss[n], t) && ss[n].thr[t].waiting.Some?
    ensures Has(ss[n + 1], t)
    ensures || (ss[n + 1].thr[t].state.Waiting? && ss[n + 1].thr[t].waiting == ss[n].thr[t].waiting)
            || HandedOver(ss[n], ss[n + 1], t)
  {
    EveryRestrictedRunIsJoint(ss, acts, n);
    assert ThreadJoint(ss[n], t);
    WaitEnds(ss, acts, n, t);
  }

  // ---------- Sleeping ----------

  /** Timer interrupts among actions i up to j. */
  function Timers(acts: seq<Action>, i: nat, j: nat): nat
    requires i <= j <= |acts|
  {
    if i == j then 0 else Timers(acts, i, j - 1) + if acts[j - 1].Timer? then 1 else 0
  }

  lemma SleepBegins(s: Vm, n: uint32, r: Vm)
    requires Step(s, Sleep(n), r) && Safe(s) && Exclusive(s) && Joint(s, -1) && 1 <= n < 0x8000_0000
    ensures Has(r, s.tr) && r.thr[s.tr].state.Waiting? && r.thr[s.tr].ticks == n
  {
    hide Joint, Exclusive, Queued, Schedule;
    JointBefore(s, Sleep(n));
    QueuedBefore(s, Sleep(n));
    ScheduleLeavesWaiter(Before(s, Sleep(n)), s.tr);
  }

  lemma SleeperJoint(s: Vm, t: nat)
    requires Wf(s) && Joint(s, -1) && Has(s, t) && s.thr[t].ticks > 0
    ensures s.thr[t].waiting.None? && t !in s.io
  {
    assert ThreadJoint(s, t);
  }

  /** A sleeper with more than one tick to go sleeps on. */
  lemma SleeperTicks(ss: seq<Vm>, acts: seq<Action>, j: nat, t: nat)
    requires RestrictedRun(ss, acts) && j < |acts| && Wf(ss[j]) && Has(ss[j], t)
    requires ss[j].thr[t].state.Waiting? && ss[j].thr[t].ticks > (if acts[j].Timer? then 1 else 0)
    ensures Has(ss[j + 1], t) && ss[j + 1].thr[t].state.Waiting?
    ensures ss[j + 1].thr[t].ticks == ss[j].thr[t].ticks - if acts[j].Timer? then 1 else 0
  {
    EveryRestrictedRunIsJoint(ss, acts, j);
    SleeperJoint(ss[j], t);
    WaitEnds(ss, acts, j, t);
    hide RestrictedRun, Joint, Exclusive, Safe, Wf;
  }

  lemma SleepBegun(ss: seq<Vm>, acts: seq<Action>, i: nat, n: uint32)
    requires RestrictedRun(ss, acts) && i < |acts| && acts[i] == Sleep(n) && 1 <= n < 0x8000_0000
    ensures Has(ss[i + 1], ss[i].tr) && ss[i + 1].thr[ss[i].tr].state.Waiting? && ss[i + 1].thr[ss[i].tr].ticks == n
  {
    EveryRestrictedRunIsJoint(ss, acts, i);
    StepOf(ss, acts, i + 1);
    hide Path, Step, Joint, Exclusive, Safe;
    SleepBegins(ss[i], n, ss[i + 1]);
  }

  lemma RunShape(ss: seq<Vm>, acts: seq<Action>, j: nat)
    requires RestrictedRun(ss, acts) && j <= |acts|
    ensures |ss| == |acts| + 1 && Wf(ss[j])
  {
    EveryRestrictedRunIsJoint(ss, acts, j);
  }

  lemma TimersStep(acts: seq<Action>, i: nat, j: nat)
    requires i <= j <= |acts|
    ensures Timers(acts, i, i) == 0
    ensures j > i ==> Timers(acts, i, j) == Timers(acts, i, j - 1) + if acts[j - 1].Timer? then 1 else 0
  {
  }

  /** A thread that waits with n > 0 ticks to go waits until that many have come, and its count says how many are
      missing. */
  lemma {:induction false} CountsDown(ss: seq<Vm>, acts: seq<Action>, i: nat, j: nat, n: nat, t: nat)
    requires RestrictedRun(ss, acts) && i <= j <= |acts| && i < |ss|
    requires Has(ss[i], t) && ss[i].thr[t].state.Waiting? && ss[i].thr[t].ticks == n
    requires Timers(acts, i, j) < n
    ensures Has(ss[j], t) && ss[j].thr[t].state.Waiting? && ss[j].thr[t].ticks == n - Timers(acts, i, j)
    decreases j
  {
    hide *;
    TimersStep(acts, i, j);
    RunShape(ss, acts, j);
    if j > i {
      RunShape(ss, acts, j - 1);
      CountsDown(ss, acts, i, j - 1, n, t);
      SleeperTicks(ss, acts, j - 1, t);
    }
  }

  /** A timer interrupt ends such a wait exactly when it is the n-th. */
  lemma CountRunsOut(ss: seq<Vm>, acts: seq<Action>, i: nat, j: nat, n: nat, t: nat)
    requires RestrictedRun(ss, acts) && i <= j < |acts|
    requires Has(ss[i], t) && ss[i].thr[t].state.Waiting? && ss[i].thr[t].ticks == n
    requires acts[j].Timer? && Timers(acts, i, j) < n
    ensures Has(ss[j + 1], t)
    ensures ss[j + 1].thr[t].state.Ready? || ss[j + 1].thr[t].state.Running? <==> Timers(acts, i, j + 1) == n
  {
    CountsDown(ss, acts, i, j, n, t);
    EveryRestrictedRunIsJoint(ss, acts, j);
    WaitEnds(ss, acts, j, t);
    hide Path, RestrictedRun, Wf, Joint, Exclusive, Safe;
  }

  /** While fewer than n timer interrupts have come since `VMThreadSleep(n)`, the caller still waits, and
      its count says how many are missing. */
  lemma SleepsUntil(ss: seq<Vm>, acts: seq<Action>, i: nat, j: nat, n: uint32, t: nat)
    requires RestrictedRun(ss, acts) && i < j <= |acts|
    requires acts[i] == Sleep(n) && t == ss[i].tr && 1 <= n < 0x8000_0000
    requires Timers(acts, i + 1, j) < n
    ensures Has(ss[j], t) && ss[j].thr[t].state.Waiting? && ss[j].thr[t].ticks == n - Timers(acts, i + 1, j)
  {
    SleepBegun(ss, acts, i, n);
    CountsDown(ss, acts, i + 1, j, n, t);
  }

  /** The n-th timer interrupt after `VMThreadSleep(n)`, and no earlier one, makes the caller ready. */
  lemma SleepEndsAtTickN(ss: seq<Vm>, acts: seq<Action>, i: nat, j: nat, n: uint32, t: nat)
    requires RestrictedRun(ss, acts) && i < j < |acts|
    requires acts[i] == Sleep(n) && t == ss[i].tr && 1 <= n < 0x8000_0000
    requires acts[j].Timer? && Timers(acts, i + 1, j) < n
    ensures Has(ss[j + 1], t)
    ensures ss[j + 1].thr[t].state.Ready? || ss[j + 1].thr[t].state.Running? <==> Timers(acts, i + 1, j + 1) == n
  {
    SleepBegun(ss, acts, i, n);
    CountRunsOut(ss, acts, i + 1, j, n, t);
  }

  // ---------- Acquiring twice ----------

  /** Waiting for nothing: no mutex, no file request and no tick will end the wait. */
  predicate WaitsForNothing(s: Vm, t: nat) {
    Has(s, t) && s.thr[t].state.Waiting? && s.thr[t].waiting.None? && s.thr[t].ticks <= 0 && t !in s.io
  }

  lemma HeldAcquireWaitsForNothing(s: Vm, m: nat, timeout: uint32, r: Vm)
    requires Step(s, MutexAcquire(m, timeout), r) && Safe(s) && Exclusive(s) && Joint(s, -1)
    requires m in s.mtx && m in s.thr[s.tr].held && timeout != IMMEDIATE && ToInt(timeout) <= 0
    ensures WaitsForNothing(r, s.tr)
  {
    var a := MutexAcquire(m, timeout);
    assert ThreadJoint(s, s.tr);
    var b := Before(s, a);
    assert WaitsForNothing(b, s.tr);
    JointBefore(s, a);
    QueuedBefore(s, a);
    hide Joint, Exclusive, Queued, Before;
    ScheduleLeavesWaiter(b, s.tr);
    ScheduleKeepsRequests(b);
  }

  lemma ScheduleKeepsRequests(b: Vm)
    requires Wf(b) && SomeoneReady(Requeue(b))
    ensures Schedule(b).io == b.io
  {
    hide Wf;
  }

  lemma RequestsOfOthers(s: Vm, a: Action, r: Vm, t: nat)
    requires Step(s, a, r) && Has(s, t) && t != s.tr && t !in s.io
    ensures t !in r.io
  {
    assert Before(s, a).io <= s.io + multiset{s.tr} by { RequestsBefore(s, a); }
    hide Before, Wf, Schedule;
    if Dispatches(s, a) { ScheduleKeepsRequests(Before(s, a)); }
  }

  lemma RequestsBefore(s: Vm, a: Action)
    requires Wf(s) && Enabled(s, a)
    ensures Before(s, a).io <= s.io + multiset{s.tr}
  {
    match a {
      case Timer => RequestsByTicks(s, |s.thr|);
      case Terminate(x) => if Has(s, x) { RequestsByReleaseAll(SetState(s, x, Dead), x); }
      case _ =>
    }
    hide Wf, TickFirst, ReleaseAll;
  }

  lemma {:induction false} RequestsByTicks(s: Vm, n: nat)
    requires Wf(s) && n <= |s.thr|
    ensures TickFirst(s, n).io == s.io
  {
    if n > 0 { RequestsByTicks(s, n - 1); }
  }

  lemma {:induction false} RequestsByReleaseAll(s: Vm, x: nat)
    requires Wf(s) && Has(s, x)
    ensures ReleaseAll(s, x).io == s.io
    decreases |s.thr[x].held|
  {
    if s.thr[x].held != [] {
      var m, r := ReleaseAllStep(s, x);
      assert ReleaseMutex(s, m).io == s.io;
      hide ReleaseMutex, Wf, ReleaseAll;
      RequestsByReleaseAll(r, x);
    }
  }

  lemma NothingEndsTheWait(ss: seq<Vm>, acts: seq<Action>, n: nat, t: nat)
    requires RestrictedRun(ss, acts) && n < |acts| && Wf(ss[n]) && WaitsForNothing(ss[n], t)
    ensures WaitsForNothing(ss[n + 1], t)
  {
    EveryRunIsSafe(ss, acts, n);
    StepOf(ss, acts, n + 1);
    WaitEnds(ss, acts, n, t);
    hide Path, Step, RestrictedRun, Exclusive, Queued, Wf;
    RequestsOfOthers(ss[n], acts[n], ss[n + 1], t);
  }

  /** In a restricted run, a thread that acquires a mutex which it holds already, without a timeout, waits for the
      rest of the run. */
  lemma {:induction false} HeldAcquireBlocksForever(ss: seq<Vm>, acts: seq<Action>, i: nat, j: nat, m: nat,
    timeout: uint32)
    requires RestrictedRun(ss, acts) && i < j <= |acts| && Wf(ss[i]) && acts[i] == MutexAcquire(m, timeout)
    requires m in ss[i].mtx && m in ss[i].thr[ss[i].tr].held && timeout != IMMEDIATE && ToInt(timeout) <= 0
    ensures WaitsForNothing(ss[j], ss[i].tr)
    decreases j
  {
    if j == i + 1 {
      EveryRestrictedRunIsJoint(ss, acts, i);
      StepOf(ss, acts, j);
      hide Path, Step, RestrictedRun, Exclusive, Safe, Joint, WaitsForNothing;
      HeldAcquireWaitsForNothing(ss[i], m, timeout, ss[j]);
    } else {
      RunShape(ss, acts, j - 1);
      hide Path, RestrictedRun, WaitsForNothing;
      HeldAcquireBlocksForever(ss, acts, i, j - 1, m, timeout);
      NothingEndsTheWait(ss, acts, j - 1, ss[i].tr);
    }
  }

  lemma HeldAcquireWaits(s: Vm, m: nat, timeout: uint32, r: Vm)
    requires Step(s, MutexAcquire(m, timeout), r) && Safe(s) && Exclusive(s) && Joint(s, -1)
    requires m in s.mtx && m in s.thr[s.tr].held && timeout != IMMEDIATE
    ensures Has(r, s.tr) && r.thr[s.tr].state.Waiting? && r.thr[s.tr].ticks == ToInt(timeout)
  {
    var a := MutexAcquire(m, timeout);
    var b := Before(s, a);
    assert Has(b, s.tr) && b.thr[s.tr].state.Waiting? && b.thr[s.tr].ticks == ToInt(timeout);
    JointBefore(s, a);
    QueuedBefore(s, a);
    hide Joint, Exclusive, Queued, Before;
    ScheduleLeavesWaiter(b, s.tr);
  }

  /** With a timeout of n > 0 the wait ends at the n-th timer interrupt after the call, and not before. */
  lemma HeldAcquireEndsAtTickN(ss: seq<Vm>, acts: seq<Action>, i: nat, j: nat, m: nat, timeout: uint32)
    requires RestrictedRun(ss, acts) && i < j < |acts| && Wf(ss[i]) && acts[i] == MutexAcquire(m, timeout)
    requires m in ss[i].mtx && m in ss[i].thr[ss[i].tr].held && ToInt(timeout) > 0
    requires acts[j].Timer? && Timers(acts, i + 1, j) < ToInt(timeout)
    ensures Has(ss[j + 1], ss[i].tr)
    ensures ss[j + 1].thr[ss[i].tr].state.Ready? || ss[j + 1].thr[ss[i].tr].state.Running?
            <==> Timers(acts, i + 1, j + 1) == ToInt(timeout)
  {
    EveryRestrictedRunIsJoint(ss, acts, i);
    StepOf(ss, acts, i + 1);
    HeldAcquireWaits(ss[i], m, timeout, ss[i + 1]);
    hide Path, Step, Joint, Exclusive, Safe, Wf;
    CountRunsOut(ss, acts, i + 1, j, ToInt(timeout), ss[i].tr);
  }

  // ---------- Counts that were left over ----------

  /** A hand-off leaves the tick count, and a thread that waits for a file request is woken by a tick, with the
      request still outstanding, exactly when a count runs out that it had left. */
  lemma RequestEndedByTickIff(s: Vm, m: nat, t: nat)
    requires Wf(s) && Has(s, t)
    ensures m in s.mtx ==> ReleaseMutex(s, m).thr[t].ticks == s.thr[t].ticks
    ensures s.thr[t].state.Waiting? && t in s.io ==>
              (Before(s, Timer).thr[t].state.Ready? <==> s.thr[t].ticks == 1) && t in Before(s, Timer).io
  {
    TickEffect(s, |s.thr|, t);
    RequestsByTicks(s, |s.thr|);
    hide Wf, TickFirst;
  }
}
