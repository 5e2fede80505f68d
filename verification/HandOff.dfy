/** What `Mutex::release` does to a mutex with waiters.  It names the first waiter as owner without
    putting the mutex on that thread's held list, so the new owner is told that its acquire failed, cannot
    release the mutex, and keeps it for the rest of the run. */
module HandOff {
  import opened Basics
  import opened VmState
  import opened MutexSafety

  /** Mutex m belongs to t but is on nobody's held list. */
  predicate Stranded(s: Vm, m: nat, t: nat) {
    && m in s.mtx
    && s.mtx[m].owner == Some(t)
    && forall u :: 0 <= u < |s.thr| ==> m !in s.thr[u].held
  }

  lemma {:induction false} StrandedByReleaseAll(s: Vm, x: nat, m: nat, t: nat)
    requires Wf(s) && Has(s, x) && Stranded(s, m, t)
    ensures Stranded(ReleaseAll(s, x), m, t)
    decreases |s.thr[x].held|
  {
    var h := s.thr[x].held;
    if h != [] {
      assert h[|h| - 1] in h && forall k :: k in h[..|h| - 1] ==> k in h;
      StrandedByReleaseAll(SetHeld(ReleaseMutex(s, h[|h| - 1]), x, h[..|h| - 1]), x, m, t);
    }
  }

  lemma StrandedByTick(s: Vm, x: nat, m: nat, t: nat)
    requires Wf(s) && Has(s, x) && Stranded(s, m, t)
    ensures Stranded(Tick(s, x), m, t)
  {
  }

  lemma {:induction false} StrandedByTicks(s: Vm, n: nat, m: nat, t: nat)
    requires Wf(s) && n <= |s.thr| && Stranded(s, m, t)
    ensures Stranded(TickFirst(s, n), m, t)
  {
    hide Tick, Stranded;
    if n > 0 {
      StrandedByTicks(s, n - 1, m, t);
      StrandedByTick(TickFirst(s, n - 1), n - 1, m, t);
    }
  }

  lemma StrandedByReleaseHeld(s: Vm, x: nat, k: nat, m: nat, t: nat)
    requires Wf(s) && Has(s, x) && k in s.thr[x].held && Stranded(s, m, t)
    ensures Stranded(ReleaseHeld(s, x, k), m, t)
  {
  }

  lemma StrandedByAcquire(s: Vm, k: nat, timeout: uint32, m: nat, t: nat)
    requires Wf(s) && s.tr != IDLE && Stranded(s, m, t)
    ensures Stranded(Before(s, MutexAcquire(k, timeout)), m, t)
  {
    AcquireShape(s, k, timeout);
    hide Before, Wf;
  }

  lemma StrandedByFinish(s: Vm, x: nat, m: nat, t: nat)
    requires Wf(s) && Has(s, x) && Stranded(s, m, t)
    ensures Stranded(Finish(s, x), m, t)
  {
    hide ReleaseAll;
    StrandedByReleaseAll(SetState(s, x, Dead), x, m, t);
  }

  lemma StrandedBefore(s: Vm, a: Action, m: nat, t: nat)
    requires Wf(s) && Enabled(s, a) && Stranded(s, m, t)
    ensures Stranded(Before(s, a), m, t)
  {
    assert s.tr < |s.thr|;
    hide Wf, TickFirst, Finish, ReleaseHeld, TryAcquire;
    match a {
      case Timer => StrandedByTicks(s, |s.thr|, m, t);
      case Terminate(x) => if Has(s, x) { StrandedByFinish(s, x, m, t); }
      case MutexAcquire(k, timeout) => StrandedByAcquire(s, k, timeout, m, t);
      case MutexRelease(k) =>
        if k in s.mtx && k in s.thr[s.tr].held { StrandedByReleaseHeld(s, s.tr, k, m, t); }
      case MutexCreate => assert m < s.nextMid by { StrandedIsOld(s, m); }
      case _ => StrandedBySimple(s, a, m, t);
    }
  }

  lemma StrandedBySimple(s: Vm, a: Action, m: nat, t: nat)
    requires Wf(s) && Enabled(s, a) && Stranded(s, m, t)
    requires a.FileDone? || a.FileRequest? || a.Yield? || a.Create? || a.Activate? || a.Sleep? || a.MutexDelete?
    ensures Stranded(Before(s, a), m, t)
  {
    assert s.tr < |s.thr|;
    hide Wf, TickFirst, Finish, ReleaseHeld, TryAcquire, Stranded;
    assert m in s.mtx && s.mtx[m].owner == Some(t) by { StrandedShape(s, m, t); }
    SimpleHoldsSame(s, a, m);
    hide Before;
    SameStranded(s, Before(s, a), m, t);
  }

  lemma CreateHoldsSame(s: Vm, prio: nat, m: nat)
    requires Wf(s) && prio < 4 && m in s.mtx
    ensures HoldsSame(s, Append(s, prio), m)
  {
    hide Wf;
  }

  lemma DeleteHoldsSame(s: Vm, k: nat, m: nat)
    requires Wf(s) && !Referenced(s, k) && m in s.mtx && m != k
    ensures HoldsSame(s, DropMutex(s, k), m)
  {
    hide Wf, Referenced;
  }

  lemma UpdateHoldsSame(s: Vm, r: Vm, t: nat, c: Tcb, m: nat)
    requires m in s.mtx && Has(s, t) && c.held == s.thr[t].held && r.thr == s.thr[t := c] && r.mtx == s.mtx
    ensures HoldsSame(s, r, m)
  {
  }

  lemma AnswerHoldsSame(s: Vm, t: nat, result: int, m: nat)
    requires Wf(s) && Has(s, t) && m in s.mtx
    ensures HoldsSame(s, Answer(s, t, result), m)
  {
    var c := s.thr[t].(cd := result, state := Ready);
    assert Answer(s, t, result).thr == s.thr[t := c];
    hide Wf, HoldsSame, Answer;
    assert Answer(s, t, result).mtx == s.mtx by { AnswerKeepsMutexes(s, t, result); }
    UpdateHoldsSame(s, Answer(s, t, result), t, c, m);
  }

  lemma AnswerKeepsMutexes(s: Vm, t: nat, result: int)
    requires Wf(s) && Has(s, t)
    ensures Answer(s, t, result).mtx == s.mtx
  {
  }

  lemma CallHoldsSame(s: Vm, a: Action, m: nat)
    requires Wf(s) && Enabled(s, a) && m in s.mtx
    requires a.FileRequest? || a.Yield? || a.Activate? || a.Sleep?
    ensures HoldsSame(s, Before(s, a), m)
  {
    assert s.tr < |s.thr|;
    hide Wf, Enabled, HoldsSame;
    var r := Before(s, a);
    match a {
      case FileRequest(initial) =>
        UpdateHoldsSame(s, r, s.tr, s.thr[s.tr].(cd := initial, state := Waiting), m);
      case Activate(t) =>
        if Has(s, t) && s.thr[t].state.Dead? {
          UpdateHoldsSame(s, r, t, s.thr[t].(state := Ready), m);
        } else {
          UpdateHoldsSame(s, r, s.tr, s.thr[s.tr], m);
        }
      case Sleep(tick) =>
        var c := s.thr[s.tr];
        if tick == IMMEDIATE {
          UpdateHoldsSame(s, r, s.tr, c.(state := Ready), m);
        } else if tick == INFINITE {
          UpdateHoldsSame(s, r, s.tr, c, m);
        } else {
          assert r.thr == s.thr[s.tr := c.(ticks := ToInt(tick), state := Waiting)];
          UpdateHoldsSame(s, r, s.tr, c.(ticks := ToInt(tick), state := Waiting), m);
        }
      case Yield =>
        UpdateHoldsSame(s, r, s.tr, s.thr[s.tr], m);
      case _ =>
    }
  }

  lemma SimpleHoldsSame(s: Vm, a: Action, m: nat)
    requires Wf(s) && Enabled(s, a) && m in s.mtx && s.mtx[m].owner.Some?
    requires a.FileDone? || a.FileRequest? || a.Yield? || a.Create? || a.Activate? || a.Sleep? || a.MutexDelete?
    ensures HoldsSame(s, Before(s, a), m)
  {
    match a {
      case MutexDelete(k) => if s.mtx[k].owner.None? { DeleteHoldsSame(s, k, m); }
      case Create(prio) => CreateHoldsSame(s, prio, m);
      case FileDone(t, result) => AnswerHoldsSame(s, t, result, m);
      case _ => CallHoldsSame(s, a, m);
    }
    hide Wf, Append, DropMutex, Answer, Enabled, HoldsSame;
  }

  predicate HoldsSame(s: Vm, r: Vm, m: nat) {
    && m in s.mtx && m in r.mtx && r.mtx[m] == s.mtx[m]
    && forall u :: 0 <= u < |r.thr| ==> r.thr[u].held == if u < |s.thr| then s.thr[u].held else []
  }

  lemma StrandedShape(s: Vm, m: nat, t: nat)
    requires Stranded(s, m, t)
    ensures m in s.mtx && s.mtx[m].owner == Some(t)
  {
  }

  lemma SameStranded(s: Vm, r: Vm, m: nat, t: nat)
    requires Stranded(s, m, t) && HoldsSame(s, r, m)
    ensures Stranded(r, m, t)
  {
  }

  lemma StrandedIsOld(s: Vm, m: nat)
    requires Wf(s) && m in s.mtx
    ensures m < s.nextMid
  {
  }

  lemma StrandedByStep(s: Vm, a: Action, r: Vm, m: nat, t: nat)
    requires Step(s, a, r) && Stranded(s, m, t)
    ensures Stranded(r, m, t)
  {
    hide Before;
    StrandedBefore(s, a, m, t);
  }

  /** A stranded mutex keeps its owner for the rest of the run, whatever happens: nobody can ever
      release, acquire or delete it. */
  lemma {:induction false} StrandedForever(ss: seq<Vm>, acts: seq<Action>, i: nat, j: nat, m: nat, t: nat)
    requires Path(ss, acts) && i <= j < |ss| && Stranded(ss[i], m, t)
    ensures Stranded(ss[j], m, t)
  {
    hide *;
    if i < j {
      StepOf(ss, acts, j);
      StrandedForever(ss, acts, i, j - 1, m, t);
      StrandedByStep(ss[j - 1], acts[j - 1], ss[j], m, t);
    }
  }

  /** What release does with mutex m: free it when nobody waits, strand it with the first waiter
      otherwise. */
  predicate FreedOrStranded(s: Vm, r: Vm, m: nat)
    requires m in s.mtx
  {
    && m in r.mtx
    && (s.mtx[m].queue == [] ==> r.mtx[m] == Mcb(None, []))
    && (s.mtx[m].queue != [] ==> Stranded(r, m, s.mtx[m].queue[0]) && r.mtx[m].queue == s.mtx[m].queue[1..])
  }

  lemma ReleaseFreesOrStrands(s: Vm, t: nat, m: nat, h: seq<nat>)
    requires Wf(s) && Exclusive(s) && Has(s, t) && m in s.thr[t].held
    requires forall k :: k in h <==> k in s.thr[t].held && k != m
    ensures FreedOrStranded(s, SetHeld(ReleaseMutex(s, m), t, h), m)
  {
    ReleaseMutexShape(s, m);
    forall u | 0 <= u < |s.thr| && u != t ensures m !in s.thr[u].held {
      assert OwnsHeld(s, t) && OwnsHeld(s, u);
    }
  }

  /** The first release frees or strands its mutex, and leaves the others that the thread holds. */
  lemma FirstFreesOrStrands(s: Vm, t: nat, m: nat) returns (k: nat, s1: Vm)
    requires Wf(s) && Exclusive(s) && Has(s, t) && m in s.thr[t].held
    ensures Wf(s1) && Exclusive(s1) && Has(s1, t) && |s1.thr| == |s.thr| && |s1.thr[t].held| < |s.thr[t].held|
    ensures ReleaseAll(s, t) == ReleaseAll(s1, t) && m in s.mtx && m in s1.mtx
    ensures if k == m then FreedOrStranded(s, s1, m) && m !in s1.thr[t].held
            else m in s1.thr[t].held && s1.mtx[m] == s.mtx[m]
  {
    var held := s.thr[t].held;
    k, s1 := ReleaseAllStep(s, t);
    assert OwnsHeld(s, t) && TcbOk(s, s.thr[t]);
    WithoutLast(held);
    hide Wf, ReleaseMutex, ReleaseAll, Exclusive, SetHeld, NoDup, FreedOrStranded, OwnsHeld;
    KeptByRelease(s, t, k, held[..|held| - 1]);
    if k == m { ReleaseFreesOrStrands(s, t, m, held[..|held| - 1]); }
  }

  /** Terminating a thread frees or strands every mutex that it held. */
  lemma {:induction false} ReleaseAllFreesOrStrands(s: Vm, t: nat, m: nat)
    requires Wf(s) && Exclusive(s) && Has(s, t) && m in s.thr[t].held
    ensures m in s.mtx && FreedOrStranded(s, ReleaseAll(s, t), m)
    decreases |s.thr[t].held|
  {
    hide *;
    var k, s1 := FirstFreesOrStrands(s, t, m);
    if k == m {
      ReleaseAllKeeps(s1, t, m);
      KeptMutexStays(s, s1, ReleaseAll(s1, t), m);
    } else {
      ReleaseAllFreesOrStrands(s1, t, m);
      SameMutexBefore(s, s1, ReleaseAll(s1, t), m);
    }
  }

  lemma KeptMutexStays(s: Vm, u: Vm, r: Vm, m: nat)
    requires m in s.mtx && FreedOrStranded(s, u, m) && m in r.mtx && r.mtx[m] == u.mtx[m] && |r.thr| == |u.thr|
    requires (forall t :: 0 <= t < |u.thr| ==> m !in u.thr[t].held) ==>
               forall t :: 0 <= t < |u.thr| ==> m !in r.thr[t].held
    ensures FreedOrStranded(s, r, m)
  {
  }

  lemma SameMutexBefore(s: Vm, u: Vm, r: Vm, m: nat)
    requires m in s.mtx && m in u.mtx && s.mtx[m] == u.mtx[m] && FreedOrStranded(u, r, m)
    ensures FreedOrStranded(s, r, m)
  {
  }

  lemma ReleaseAllKeeps(s: Vm, t: nat, m: nat)
    requires Wf(s) && Has(s, t) && m in s.mtx && m !in s.thr[t].held
    ensures var r := ReleaseAll(s, t); m in r.mtx && r.mtx[m] == s.mtx[m]
    ensures (forall u :: 0 <= u < |s.thr| ==> m !in s.thr[u].held) ==>
              forall u :: 0 <= u < |s.thr| ==> m !in ReleaseAll(s, t).thr[u].held
  {
    ReleaseAllKeepsMutex(s, t, m);
    hide Wf, ReleaseAll;
    forall u | 0 <= u < |s.thr| { ReleaseAllHeld(s, t, u); }
  }

  /** In every run, a mutex given up by `VMMutexRelease` or by the termination of its holder is free
      afterwards if nobody waited for it and stranded for the rest of the run otherwise. */
  lemma GivenUpMutexIsFreeOrStranded(ss: seq<Vm>, acts: seq<Action>, n: nat, t: nat, m: nat)
    requires Run(ss, acts) && n < |acts| && Wf(ss[n]) && Has(ss[n], t) && m in ss[n].thr[t].held
    requires || (acts[n] == MutexRelease(m) && t == ss[n].tr)
             || (acts[n] == Terminate(t) && !ss[n].thr[t].state.Dead?)
    ensures m in ss[n].mtx && FreedOrStranded(ss[n], ss[n + 1], m)
  {
    hide FreedOrStranded;
    var s, a := ss[n], acts[n];
    assert Step(s, a, ss[n + 1]);
    MutualExclusion(ss, acts, n);
    assert TcbOk(s, s.thr[t]);
    if a.MutexRelease? { ReleaseStepFreesOrStrands(s, m); } else { FinishFreesOrStrands(s, t, m); }
    SameAfterSchedule(s, Before(s, a), m);
  }

  lemma ReleaseStepFreesOrStrands(s: Vm, m: nat)
    requires Wf(s) && Exclusive(s) && m in s.thr[s.tr].held && s.tr != IDLE && m in s.mtx
    ensures FreedOrStranded(s, Before(s, MutexRelease(m)), m)
  {
    hide FreedOrStranded;
    var s1 := ReleaseMutex(s, m);
    ReleaseMutexShape(s, m);
    EraseOnly(s, s.tr, m);
    ReleaseFreesOrStrands(s, s.tr, m, EraseAt(s1.thr[s.tr].held, IndexOf(s1.thr[s.tr].held, m)));
  }

  lemma FinishFreesOrStrands(s: Vm, t: nat, m: nat)
    requires Wf(s) && Exclusive(s) && Has(s, t) && m in s.thr[t].held && m in s.mtx
    ensures FreedOrStranded(s, Finish(s, t), m)
  {
    hide ReleaseAll;
    var s1 := SetState(s, t, Dead);
    KeptBySame(s, s1);
    ReleaseAllFreesOrStrands(s1, t, m);
  }

  lemma SameAfterSchedule(s: Vm, b: Vm, m: nat)
    requires Wf(b) && SomeoneReady(Requeue(b)) && m in s.mtx && FreedOrStranded(s, b, m)
    ensures FreedOrStranded(s, Schedule(b), m)
  {
  }

  lemma EraseOnly(s: Vm, t: nat, m: nat)
    requires Wf(s) && Exclusive(s) && Has(s, t) && m in s.thr[t].held
    ensures var held := s.thr[t].held;
            forall k :: k in EraseAt(held, IndexOf(held, m)) <==> k in held && k != m
  {
    var held := s.thr[t].held;
    assert OwnsHeld(s, t);
    ErasedOne(held, IndexOf(held, m));
  }

  /** Terminating a thread leaves it in the queue of every mutex that it did not hold itself, so a later
      release can reach it there. */
  lemma TerminateLeavesWaiter(s: Vm, t: nat, m: nat)
    requires Wf(s) && Exclusive(s) && Has(s, t) && m in s.mtx && m !in s.thr[t].held && t in s.mtx[m].queue
    ensures m in Finish(s, t).mtx && t in Finish(s, t).mtx[m].queue && Finish(s, t).thr[t].state.Dead?
  {
    var s1 := SetState(s, t, Dead);
    ReleaseAllKeeps(s1, t, m);
    KeptBySame(s, s1);
    DeadThroughReleaseAll(s1, t);
  }

  lemma {:induction false} DeadThroughReleaseAll(s: Vm, t: nat)
    requires Wf(s) && Exclusive(s) && Has(s, t) && s.thr[t].state.Dead?
    ensures ReleaseAll(s, t).thr[t].state.Dead?
    decreases |s.thr[t].held|
  {
    var h := s.thr[t].held;
    if h != [] {
      var m := h[|h| - 1];
      assert OwnsHeld(s, t) && h == h[..|h| - 1] + [m] && m in h;
      assert t !in s.mtx[m].queue;
      KeptByRelease(s, t, m, h[..|h| - 1]);
      DeadThroughReleaseAll(SetHeld(ReleaseMutex(s, m), t, h[..|h| - 1]), t);
    }
  }

  // ---------- What VMMutexAcquire reports ----------

  /** The test that `VMMutexAcquire` makes when the calling thread runs again. */
  predicate ReportsSuccess(s: Vm, t: nat, m: nat) {
    Has(s, t) && m in s.thr[t].held
  }

  lemma {:induction false} TicksKeepHeld(s: Vm, n: nat, t: nat)
    requires Wf(s) && n <= |s.thr| && Has(s, t)
    ensures TickFirst(s, n).thr[t].held == s.thr[t].held
  {
    hide Tick;
    if n > 0 {
      TicksKeepHeld(s, n - 1, t);
      TickKeepsHeld(TickFirst(s, n - 1), n - 1, t);
    }
  }

  lemma TickKeepsHeld(s: Vm, x: nat, t: nat)
    requires Wf(s) && Has(s, x) && Has(s, t)
    ensures Tick(s, x).thr[t].held == s.thr[t].held
  {
  }

  lemma FinishKeepsHeld(s: Vm, x: nat, t: nat)
    requires Wf(s) && Has(s, x) && Has(s, t) && x != t
    ensures Finish(s, x).thr[t].held == s.thr[t].held
  {
    hide ReleaseAll;
    ReleaseAllHeld(SetState(s, x, Dead), x, t);
  }

  lemma BlockedAcquireKeepsHeld(s: Vm, m: nat, timeout: uint32, t: nat)
    requires Wf(s) && s.tr != IDLE && Has(s, t) && (s.tr != t || Dispatches(s, MutexAcquire(m, timeout)))
    ensures Before(s, MutexAcquire(m, timeout)).thr[t].held == s.thr[t].held
  {
  }

  lemma ScheduleKeepsHeld(s: Vm, t: nat)
    requires Wf(s) && SomeoneReady(Requeue(s)) && Has(s, t)
    ensures Schedule(s).thr[t].held == s.thr[t].held
  {
  }

  lemma OnlyOwnCallsChangeHeld(s: Vm, a: Action, r: Vm, t: nat)
    requires Step(s, a, r) && Has(s, t) && a != Terminate(t)
    requires s.tr != t || (a.MutexAcquire? && Dispatches(s, a))
    ensures Has(r, t) && r.thr[t].held == s.thr[t].held
  {
    hide Before, Schedule;
    BeforeKeepsHeld(s, a, t);
    if Dispatches(s, a) { ScheduleKeepsHeld(Before(s, a), t); }
  }

  lemma BeforeKeepsHeld(s: Vm, a: Action, t: nat)
    requires Wf(s) && Enabled(s, a) && Has(s, t) && a != Terminate(t)
    requires s.tr != t || (a.MutexAcquire? && Dispatches(s, a))
    ensures Before(s, a).thr[t].held == s.thr[t].held
  {
    hide TickFirst, Finish, ReleaseMutex, TryAcquire;
    match a {
      case Timer => TicksKeepHeld(s, |s.thr|, t);
      case Terminate(x) => if Has(s, x) { FinishKeepsHeld(s, x, t); }
      case MutexAcquire(m, timeout) => BlockedAcquireKeepsHeld(s, m, timeout, t);
      case MutexRelease(m) => if m in s.mtx && m in s.thr[s.tr].held { ReleaseMutexShape(s, m); }
      case _ => SimpleKeepsHeld(s, a, t);
    }
  }

  lemma SimpleKeepsHeld(s: Vm, a: Action, t: nat)
    requires Wf(s) && Enabled(s, a) && Has(s, t)
    requires !a.Timer? && !a.Terminate? && !a.MutexAcquire? && !a.MutexRelease?
    ensures Before(s, a).thr[t].held == s.thr[t].held
  {
    assert s.tr < |s.thr| && (a.FileDone? ==> a.thread < |s.thr|);
    hide Wf, Referenced, TickFirst, Finish, ReleaseHeld, TryAcquire;
  }

  lemma {:induction false} HeldWhileBlocked(ss: seq<Vm>, acts: seq<Action>, n: nat, t: nat)
    requires Path(ss, acts) && 1 <= n < |ss| && Wf(ss[0]) && t == ss[0].tr
    requires acts[0].MutexAcquire? && Dispatches(ss[0], acts[0])
    requires forall i :: 1 <= i < n ==> ss[i].tr != t && acts[i] != Terminate(t)
    ensures Has(ss[n], t) && ss[n].thr[t].held == ss[0].thr[t].held
  {
    StepOf(ss, acts, n);
    hide Path, Dispatches, Step;
    if n > 1 { HeldWhileBlocked(ss, acts, n - 1, t); }
    OnlyOwnCallsChangeHeld(ss[n - 1], acts[n - 1], ss[n], t);
  }

  /** A `VMMutexAcquire` that blocks reports success, when its caller runs again, if and only if the
      caller already held the mutex at the call.  Being handed the mutex meanwhile makes no difference. */
  lemma BlockedAcquireReports(ss: seq<Vm>, acts: seq<Action>, n: nat, m: nat, timeout: uint32)
    requires Path(ss, acts) && 1 <= n < |ss| && Wf(ss[0]) && acts[0] == MutexAcquire(m, timeout)
    requires Dispatches(ss[0], acts[0]) && ss[n].tr == ss[0].tr
    requires forall i :: 1 <= i < n ==> ss[i].tr != ss[0].tr && acts[i] != Terminate(ss[0].tr)
    ensures ReportsSuccess(ss[n], ss[0].tr, m) <==> m in ss[0].thr[ss[0].tr].held
  {
    HeldWhileBlocked(ss, acts, n, ss[0].tr);
  }

  /** A `VMMutexAcquire` of an existing mutex takes it at once, and reports success, if and only if it
      has no owner and is not already held. */
  lemma AcquireTakesAtOnceIff(s: Vm, m: nat, timeout: uint32)
    requires Wf(s) && Exclusive(s) && m in s.mtx && Enabled(s, MutexAcquire(m, timeout))
    ensures (m !in s.thr[s.tr].held && ReportsSuccess(Before(s, MutexAcquire(m, timeout)), s.tr, m))
            <==> s.mtx[m].owner.None?
  {
    assert OwnsHeld(s, s.tr);
  }
}
