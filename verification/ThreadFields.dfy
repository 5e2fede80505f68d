/** The two fields of a thread that hardly anything writes.  Over a whole run the priority is the one asked
    for at the creation, and the call result is what the last file event of the thread left. */
module ThreadFields {
  import opened Basics
  import opened VmState
  import opened MutexSafety
  import opened SchedulerSafety
  import opened Timing
  import opened StepEffects

  /** Thread t sends a file request, or its callback comes. */
  predicate FileEvent(s: Vm, a: Action, t: nat) {
    (a.FileRequest? && s.tr == t) || (a.FileDone? && a.thread == t)
  }

  /** No thread is lost, and none but x has another priority or call result. */
  predicate Same(s: Vm, r: Vm, x: int) {
    && |s.thr| <= |r.thr|
    && forall t :: 0 <= t < |s.thr| && t != x ==> r.thr[t].prio == s.thr[t].prio && r.thr[t].cd == s.thr[t].cd
  }

  lemma SameByRelease(s: Vm, m: nat, x: nat, h: seq<nat>)
    requires Wf(s) && m in s.mtx && Has(s, x) && forall j :: j in h ==> j in s.mtx
    ensures Same(s, SetHeld(ReleaseMutex(s, m), x, h), -1)
  {
    ReleaseMutexShape(s, m);
  }

  lemma {:induction false} SameByReleaseAll(s: Vm, x: nat)
    requires Wf(s) && Has(s, x)
    ensures Same(s, ReleaseAll(s, x), -1)
    decreases |s.thr[x].held|
  {
    if s.thr[x].held == [] {
      assert ReleaseAll(s, x) == s;
    } else {
      var m, r := ReleaseAllStep(s, x);
      SameByRelease(s, m, x, s.thr[x].held[..|s.thr[x].held| - 1]);
      hide *;
      SameByReleaseAll(r, x);
      SameChain(s, r, ReleaseAll(r, x), -1);
    }
  }

  lemma SameChain(s: Vm, u: Vm, r: Vm, x: int)
    requires Same(s, u, x) && Same(u, r, -1)
    ensures Same(s, r, x)
  {
  }

  lemma SameByFinish(s: Vm, x: nat)
    requires Wf(s) && Has(s, x)
    ensures Same(s, Finish(s, x), -1)
  {
    SameByReleaseAll(SetState(s, x, Dead), x);
    hide ReleaseAll, Wf;
  }

  lemma SameByTicks(s: Vm)
    requires Wf(s)
    ensures Same(s, TickFirst(s, |s.thr|), -1)
  {
    forall t | 0 <= t < |s.thr|
      ensures var r := TickFirst(s, |s.thr|).thr[t]; r.prio == s.thr[t].prio && r.cd == s.thr[t].cd
    {
      TickEffect(s, |s.thr|, t);
    }
  }

  lemma SameByAttempt(s: Vm, m: nat, timeout: uint32)
    requires Wf(s) && m in s.mtx
    ensures Same(s, TryAcquire(s, s.tr, m, timeout).0, -1)
  {
  }

  lemma SameByBlock(s: Vm, ticks: int)
    requires Wf(s)
    ensures Same(s, Block(s, ticks), -1)
  {
  }

  lemma SameByAcquire(s: Vm, m: nat, timeout: uint32)
    requires Wf(s) && Enabled(s, MutexAcquire(m, timeout))
    ensures Same(s, Before(s, MutexAcquire(m, timeout)), -1)
  {
    assert s.tr < |s.thr|;
    hide Same, TryAcquire, Block, Wf;
    if m in s.mtx {
      var u := TryAcquire(s, s.tr, m, timeout).0;
      assert u.tr == s.tr by { TryKeepsCurrent(s, m, timeout); }
      SameByAttempt(s, m, timeout);
      SameByBlock(u, ToInt(timeout));
      SameChain(s, u, Block(u, ToInt(timeout)), -1);
    } else {
      SameSelf(s);
    }
  }

  lemma TryKeepsCurrent(s: Vm, m: nat, timeout: uint32)
    requires Wf(s) && m in s.mtx
    ensures TryAcquire(s, s.tr, m, timeout).0.tr == s.tr
  {
  }

  lemma SameSelf(s: Vm)
    ensures Same(s, s, -1)
  {
  }

  lemma SameByHandBack(s: Vm, m: nat)
    requires Wf(s) && m in s.mtx && m in s.thr[s.tr].held
    ensures Same(s, ReleaseHeld(s, s.tr, m), -1)
  {
    ReleaseMutexShape(s, m);
    assert TcbOk(s, s.thr[s.tr]);
    var held := s.thr[s.tr].held;
    SameByRelease(s, m, s.tr, EraseAt(held, IndexOf(held, m)));
  }

  lemma SameByOthers(s: Vm, a: Action)
    requires Wf(s) && Enabled(s, a) && !a.Timer? && !a.Terminate? && !a.MutexRelease? && !a.MutexAcquire?
    ensures Same(s, Before(s, a), if a.FileDone? then a.thread else if a.FileRequest? then s.tr else -1)
  {
    assert s.tr < |s.thr|;
    hide Wf, Referenced;
  }

  lemma SameBefore(s: Vm, a: Action)
    requires Wf(s) && Enabled(s, a)
    ensures Same(s, Before(s, a), if a.FileDone? then a.thread else if a.FileRequest? then s.tr else -1)
  {
    match a {
      case Timer => SameByTicks(s);
      case Terminate(x) => if Has(s, x) && !s.thr[x].state.Dead? { SameByFinish(s, x); }
      case MutexRelease(m) => if m in s.mtx && m in s.thr[s.tr].held { SameByHandBack(s, m); }
      case MutexAcquire(m, timeout) => SameByAcquire(s, m, timeout);
      case _ => SameByOthers(s, a);
    }
  }

  lemma SameBySchedule(b: Vm)
    requires Wf(b) && SomeoneReady(Requeue(b))
    ensures Same(b, Schedule(b), -1)
  {
  }

  /** What one step does to the two fields of thread t. */
  lemma FieldsAfterStep(s: Vm, a: Action, r: Vm, t: nat)
    requires Step(s, a, r) && Has(s, t)
    ensures Has(r, t) && r.thr[t].prio == s.thr[t].prio
    ensures r.thr[t].cd == if !FileEvent(s, a, t) then s.thr[t].cd else if a.FileDone? then a.result else a.initial
  {
    SameBefore(s, a);
    var b := Before(s, a);
    if FileEvent(s, a, t) { EventFields(s, a, t); }
    hide Before, Schedule, Wf;
    if Dispatches(s, a) { SameBySchedule(b); }
  }

  lemma EventFields(s: Vm, a: Action, t: nat)
    requires Wf(s) && Enabled(s, a) && FileEvent(s, a, t)
    ensures var c := Before(s, a).thr[t];
            Has(s, t) && c.prio == s.thr[t].prio && c.cd == if a.FileDone? then a.result else a.initial
  {
    assert s.tr < |s.thr|;
    hide Wf;
  }

  // ---------- Over runs ----------

  /** After a file event of thread t, and until its next one, its call result is the value of that event:
      the result that the callback was given, or the initial value of the request. */
  lemma {:induction false} LastFileEventDecides(ss: seq<Vm>, acts: seq<Action>, k: nat, n: nat, t: nat)
    requires Path(ss, acts) && k < n < |ss| && Has(ss[k], t)
    requires FileEvent(ss[k], acts[k], t) && forall j :: k < j < n ==> !FileEvent(ss[j], acts[j], t)
    ensures Has(ss[n], t)
    ensures acts[k].FileDone? ==> ss[n].thr[t].cd == acts[k].result
    ensures acts[k].FileRequest? ==> ss[n].thr[t].cd == acts[k].initial
  {
    StepOf(ss, acts, n);
    hide Path, Step;
    if n > k + 1 {
      LastFileEventDecides(ss, acts, k, n - 1, t);
    }
    FieldsAfterStep(ss[n - 1], acts[n - 1], ss[n], t);
  }

  /** As long as nobody has sent or answered a request of a thread, its call result stays as it was. */
  lemma {:induction false} NoFileEventKeepsResult(ss: seq<Vm>, acts: seq<Action>, k: nat, n: nat, t: nat)
    requires Path(ss, acts) && k <= n < |ss| && Has(ss[k], t)
    requires forall j :: k <= j < n ==> !FileEvent(ss[j], acts[j], t)
    ensures Has(ss[n], t) && ss[n].thr[t].cd == ss[k].thr[t].cd
  {
    if n > k {
      StepOf(ss, acts, n);
      hide Path, Step;
      NoFileEventKeepsResult(ss, acts, k, n - 1, t);
      FieldsAfterStep(ss[n - 1], acts[n - 1], ss[n], t);
    }
  }

  lemma {:induction false} PriorityIsFixed(ss: seq<Vm>, acts: seq<Action>, k: nat, n: nat, t: nat)
    requires Path(ss, acts) && k <= n < |ss| && Has(ss[k], t)
    ensures Has(ss[n], t) && ss[n].thr[t].prio == ss[k].thr[t].prio
  {
    if n > k {
      StepOf(ss, acts, n);
      hide Path, Step;
      PriorityIsFixed(ss, acts, k, n - 1, t);
      FieldsAfterStep(ss[n - 1], acts[n - 1], ss[n], t);
    }
  }

  /** In every later state of a run the created thread has the priority asked for, it is queued on no other
      level, and on that one whenever it is ready. */
  lemma CreatedPriorityHolds(ss: seq<Vm>, acts: seq<Action>, k: nat, n: nat)
    requires Run(ss, acts) && k < n < |ss| && acts[k].Create?
    ensures var t := |ss[k].thr|; var prio := acts[k].prio;
            && Has(ss[n], t) && ss[n].thr[t].prio == prio
            && prio < |ss[n].rq| == 4
            && (ss[n].thr[t].state.Ready? ==> t in ss[n].rq[prio])
            && forall p :: 0 <= p < 4 && t in ss[n].rq[p] ==> p == prio
  {
    var t := |ss[k].thr|;
    StepOf(ss, acts, k + 1);
    CreationInFull(ss[k], acts[k].prio, ss[k + 1]);
    PriorityIsFixed(ss, acts, k + 1, n, t);
    EveryRunIsSafe(ss, acts, n);
    assert Findable(ss[n], t);
    forall p | 0 <= p < 4 && t in ss[n].rq[p] ensures p == acts[k].prio {
      assert QueueSafe(ss[n], p);
    }
  }

  /** When the created thread is activated, it enters the ready queue of the priority asked for, at its end. */
  lemma CreatedThreadQueuesAtPriority(ss: seq<Vm>, acts: seq<Action>, k: nat, n: nat)
    requires Run(ss, acts) && k < n < |acts| && acts[k].Create? && acts[n] == Activate(|ss[k].thr|)
    ensures var t := |ss[k].thr|; var prio := acts[k].prio;
            && Has(ss[n], t) && prio < |ss[n].rq|
            && (ss[n].thr[t].state.Dead? ==> ss[n + 1].rq == ss[n].rq[prio := ss[n].rq[prio] + [t]])
            && (!ss[n].thr[t].state.Dead? ==> ss[n + 1] == ss[n])
  {
    CreatedPriorityHolds(ss, acts, k, n);
    StepOf(ss, acts, n + 1);
    var t := |ss[k].thr|;
    ActivationInFull(ss[n], t, ss[n + 1]);
  }
}
