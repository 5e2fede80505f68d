/** Order of dispatch: priority at every dispatch, and bounded waiting inside a level. */
module Fairness {
  import opened Basics
  import opened VmState
  import opened SchedulerSafety

  /** Every level of r begins with that level of s. */
  predicate Grows(s: Vm, r: Vm)
    requires Wf(s) && Wf(r)
  {
    forall p :: 0 <= p < 4 ==> s.rq[p] <= r.rq[p]
  }

  lemma GrowsByRelease(s: Vm, m: nat)
    requires Wf(s) && m in s.mtx
    ensures Grows(s, ReleaseMutex(s, m))
  {
  }

  lemma {:induction false} GrowsByReleaseAll(s: Vm, t: nat)
    requires Wf(s) && Has(s, t)
    ensures Grows(s, ReleaseAll(s, t)) && ReleaseAll(s, t).thr[t].prio == s.thr[t].prio
    decreases |s.thr[t].held|
  {
    var h := s.thr[t].held;
    if h != [] {
      var s1 := ReleaseMutex(s, h[|h| - 1]);
      GrowsByRelease(s, h[|h| - 1]);
      GrowsByReleaseAll(SetHeld(s1, t, h[..|h| - 1]), t);
    }
  }

  lemma GrowsByTick(s: Vm, t: nat)
    requires Wf(s) && Has(s, t)
    ensures Grows(s, Tick(s, t))
  {
  }

  lemma {:induction false} GrowsByTicks(s: Vm, n: nat)
    requires Wf(s) && n <= |s.thr|
    ensures Grows(s, TickFirst(s, n))
  {
    hide Tick;
    if n > 0 {
      GrowsByTicks(s, n - 1);
      GrowsByTick(TickFirst(s, n - 1), n - 1);
    }
  }

  lemma GrowsByAcquire(s: Vm, m: nat, timeout: uint32)
    requires Wf(s) && Enabled(s, MutexAcquire(m, timeout))
    ensures Grows(s, Before(s, MutexAcquire(m, timeout)))
  {
    assert Before(s, MutexAcquire(m, timeout)).rq == s.rq;
    hide Wf, Before;
  }

  lemma GrowsByPush(s: Vm, t: nat)
    requires Wf(s) && Has(s, t)
    ensures Grows(s, MakeReady(s, t))
  {
  }

  lemma GrowsByOthers(s: Vm, a: Action)
    requires Wf(s) && Enabled(s, a)
    requires !a.Timer? && !a.Terminate? && !a.MutexAcquire? && !a.MutexRelease?
    ensures Grows(s, Before(s, a))
  {
    assert |s.rq| == 4 && s.tr < |s.thr|;
    match a {
      case FileDone(t, _) => GrowsByPush(s, t);
      case Activate(t) => if Has(s, t) { GrowsByPush(s, t); }
      case Sleep(_) => GrowsByPush(s, s.tr);
      case _ =>
    }
    hide Wf, Enabled;
  }

  lemma GrowsBefore(s: Vm, a: Action)
    requires Wf(s) && Enabled(s, a) && !a.Terminate?
    ensures Grows(s, Before(s, a))
  {
    match a {
      case Timer => GrowsByTicks(s, |s.thr|);
      case MutexAcquire(m, timeout) => GrowsByAcquire(s, m, timeout);
      case MutexRelease(m) => if m in s.mtx { GrowsByRelease(s, m); }
      case _ => GrowsByOthers(s, a);
    }
    hide Wf, TickFirst, ReleaseMutex, Enabled, Grows;
  }

  /** Thread t is entry k of level p. */
  predicate At(s: Vm, p: nat, k: nat, t: nat) {
    p < |s.rq| && k < |s.rq[p]| && s.rq[p][k] == t
  }

  /** Removing another thread can only move an entry forward. */
  lemma {:induction false} WithoutMovesForward(q: seq<nat>, x: nat, k: nat) returns (j: nat)
    requires k < |q| && q[k] != x
    ensures j <= k && j < |Without(q, x)| && Without(q, x)[j] == q[k]
  {
    if k == 0 {
      j := 0;
    } else {
      j := WithoutMovesForward(q[1..], x, k - 1);
      j := if q[0] == x then j else j + 1;
    }
  }

  lemma BeforeMovesForward(s: Vm, a: Action, p: nat, k: nat, t: nat) returns (j: nat)
    requires Wf(s) && Enabled(s, a) && a != Terminate(t) && p < 4 && At(s, p, k, t)
    ensures j <= k && At(Before(s, a), p, j, t)
  {
    j := k;
    if a.Terminate? {
      var x := a.thread;
      if Has(s, x) && !s.thr[x].state.Dead? {
        var s1 := SetState(s, x, Dead);
        GrowsByReleaseAll(s1, x);
        var s2 := ReleaseAll(s1, x);
        assert s1.rq[p] <= s2.rq[p];
        if p == s.thr[x].prio {
          j := WithoutMovesForward(s2.rq[p], x, k);
        }
      }
    } else {
      GrowsBefore(s, a);
    }
  }

  /** The level a step dispatches from. */
  function DispatchedFrom(s: Vm, a: Action): Option<nat>
    requires Wf(s) && Enabled(s, a)
  {
    if Dispatches(s, a) then Some(TopLevel(Requeue(Before(s, a)))) else None
  }

  /** Requeueing adds at the end of a level, and taking the head of a level moves its others up. */
  lemma ScheduleMovesForward(b: Vm, p: nat, j: nat, t: nat)
    requires Wf(b) && SomeoneReady(Requeue(b)) && p < 4 && At(b, p, j, t)
    ensures TopLevel(Requeue(b)) == p ==> Schedule(b).tr == t || (j > 0 && At(Schedule(b), p, j - 1, t))
    ensures TopLevel(Requeue(b)) != p ==> At(Schedule(b), p, j, t)
  {
    var s1 := Requeue(b);
    assert At(s1, p, j, t);
    hide Wf, SomeoneReady;
    assert TopLevel(s1) == p && j > 0 ==> s1.rq[p][1..][j - 1] == t;
  }

  lemma StepMovesForward(s: Vm, a: Action, r: Vm, p: nat, k: nat, t: nat) returns (j: nat)
    requires Step(s, a, r) && a != Terminate(t) && p < 4 && At(s, p, k, t)
    ensures DispatchedFrom(s, a) == Some(p) ==> r.tr == t || (j < k && At(r, p, j, t))
    ensures DispatchedFrom(s, a) != Some(p) ==> j <= k && At(r, p, j, t)
  {
    j := BeforeMovesForward(s, a, p, k, t);
    if Dispatches(s, a) {
      hide Before, Wf, SomeoneReady, Requeue, Schedule, At, Dispatches;
      ScheduleMovesForward(Before(s, a), p, j, t);
      if TopLevel(Requeue(Before(s, a))) == p && j > 0 { j := j - 1; }
    }
  }

  /** How many of the first n steps dispatch from level p. */
  function Served(ss: seq<Vm>, acts: seq<Action>, p: nat, n: nat): nat
    requires Path(ss, acts) && n <= |acts|
  {
    if n == 0 then 0 else
      assert Step(ss[n - 1], acts[n - 1], ss[n]);
      Served(ss, acts, p, n - 1) + if DispatchedFrom(ss[n - 1], acts[n - 1]) == Some(p) then 1 else 0
  }

  /** Step i runs thread t, taken from level p. */
  predicate Runs(ss: seq<Vm>, acts: seq<Action>, i: nat, p: nat, t: nat)
    requires Path(ss, acts) && i < |acts|
  {
    assert Step(ss[i], acts[i], ss[i + 1]);
    DispatchedFrom(ss[i], acts[i]) == Some(p) && ss[i + 1].tr == t
  }

  /** One step of a wait: an earlier place, or one dispatch from the level less to come. */
  lemma WaitingStep(ss: seq<Vm>, acts: seq<Action>, p: nat, t: nat, n: nat, k: nat) returns (j: nat)
    requires Path(ss, acts) && 0 < n <= |acts| && p < 4 && At(ss[n - 1], p, k, t)
    requires acts[n - 1] != Terminate(t) && !Runs(ss, acts, n - 1, p, t)
    ensures At(ss[n], p, j, t) && j + Served(ss, acts, p, n) <= k + Served(ss, acts, p, n - 1)
  {
    StepOf(ss, acts, n);
    hide Path, Step, At, DispatchedFrom;
    j := StepMovesForward(ss[n - 1], acts[n - 1], ss[n], p, k, t);
  }

  lemma {:induction false} WaitingTurn(ss: seq<Vm>, acts: seq<Action>, p: nat, k: nat, t: nat, n: nat)
    returns (j: nat)
    requires Path(ss, acts) && n <= |acts| && p < 4 && At(ss[0], p, k, t)
    requires forall i :: 0 <= i < n ==> acts[i] != Terminate(t)
    requires forall i :: 0 <= i < n ==> !Runs(ss, acts, i, p, t)
    ensures At(ss[n], p, j, t) && j + Served(ss, acts, p, n) <= k
  {
    if n == 0 {
      j := k;
    } else {
      assert !Runs(ss, acts, n - 1, p, t);
      hide *;
      j := WaitingTurn(ss, acts, p, k, t, n - 1);
      j := WaitingStep(ss, acts, p, t, n, j);
    }
  }

  /** A thread at index k of a level is dispatched within k + 1 dispatches from that level, whatever is
      pushed or flushed meanwhile, unless it is terminated. */
  lemma BoundedWaiting(ss: seq<Vm>, acts: seq<Action>, p: nat, k: nat, t: nat)
    requires Path(ss, acts) && p < 4 && At(ss[0], p, k, t)
    requires forall i :: 0 <= i < |acts| ==> acts[i] != Terminate(t)
    requires Served(ss, acts, p, |acts|) >= k + 1
    ensures exists i :: 0 <= i < |acts| && Runs(ss, acts, i, p, t)
  {
    if forall i :: 0 <= i < |acts| ==> !Runs(ss, acts, i, p, t) {
      var j := WaitingTurn(ss, acts, p, k, t, |acts|);
    }
  }

  /** After every dispatch no ready thread has a higher priority than the one that runs. */
  lemma DispatchRespectsPriority(ss: seq<Vm>, acts: seq<Action>, n: nat, u: nat)
    requires Run(ss, acts) && n < |acts| && Wf(ss[n]) && Enabled(ss[n], acts[n]) && Dispatches(ss[n], acts[n])
    requires Has(ss[n + 1], u) && ss[n + 1].thr[u].state.Ready?
    ensures Has(ss[n + 1], ss[n + 1].tr) && ss[n + 1].thr[u].prio <= ss[n + 1].thr[ss[n + 1].tr].prio
  {
    EveryRunIsSafe(ss, acts, n);
    assert Step(ss[n], acts[n], ss[n + 1]);
    QueuedBefore(ss[n], acts[n]);
    ScheduleRespectsPriority(Before(ss[n], acts[n]), u);
  }

  lemma ScheduleRespectsPriority(s: Vm, u: nat)
    requires Wf(s) && Queued(s) && SomeoneReady(Requeue(s)) && Has(s, u) && Schedule(s).thr[u].state.Ready?
    ensures var r := Schedule(s); Has(r, r.tr) && r.thr[u].prio <= r.thr[r.tr].prio
  {
    QueuedByRequeue(s);
    var s1 := Requeue(s);
    var p := TopLevel(s1);
    assert s1.rq[p] != [] by { assert exists q :: 0 <= q < 4 && s1.rq[q] != []; }
    assert s1.rq[p][0] in s1.rq[p] && QueueSafe(s1, p);
    assert Findable(s1, u);
  }
}
