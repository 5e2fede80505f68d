/** Mutual exclusion in every run: what holds between the held lists of the threads and the owners
    and queues of the mutexes, whatever timeouts, deletions and terminations the run contains. */
module MutexSafety {
  import opened Basics
  import opened VmState

  predicate NoDup(q: seq<nat>) {
    forall i, j :: 0 <= i < j < |q| ==> q[i] != q[j]
  }

  predicate OwnsHeld(s: Vm, t: nat)
    requires Wf(s) && Has(s, t)
  {
    && NoDup(s.thr[t].held)
    && forall m :: m in s.thr[t].held ==> s.mtx[m].owner == Some(t) && t !in s.mtx[m].queue
  }

  predicate QueueInv(c: Mcb) {
    && NoDup(c.queue)
    && (c.owner.None? ==> c.queue == [])
  }

  /** A held mutex is owned by its holder, who does not wait for it; no held list and no queue has a
      repetition; a mutex without owner has no waiters. */
  predicate Exclusive(s: Vm)
    requires Wf(s)
  {
    && (forall t :: 0 <= t < |s.thr| ==> OwnsHeld(s, t))
    && (forall m :: m in s.mtx ==> QueueInv(s.mtx[m]))
  }

  /** Nothing but run states, ticks, queues and call results differs. */
  predicate SameMutexes(s: Vm, r: Vm) {
    && |r.thr| == |s.thr|
    && (forall t :: 0 <= t < |s.thr| ==> r.thr[t].held == s.thr[t].held)
    && r.mtx == s.mtx
  }

  lemma KeptBySame(s: Vm, r: Vm)
    requires Wf(s) && Wf(r) && Exclusive(s) && SameMutexes(s, r)
    ensures Exclusive(r)
  {
    forall t | 0 <= t < |r.thr| ensures OwnsHeld(r, t) {
      assert OwnsHeld(s, t);
    }
  }

  lemma {:induction false} WithoutNoDup(q: seq<nat>, x: nat)
    requires NoDup(q)
    ensures NoDup(Without(q, x))
  {
    if q != [] {
      WithoutNoDup(q[1..], x);
      assert q[0] !in q[1..];
    }
  }

  lemma WithoutLast(q: seq<nat>)
    requires q != [] && NoDup(q)
    ensures var k := |q| - 1;
            && NoDup(q[..k]) && q == q[..k] + [q[k]]
            && forall x :: x in q[..k] <==> x in q && x != q[k]
  {
    var k := |q| - 1;
    assert q == q[..k] + [q[k]];
  }

  lemma ReleaseMutexShape(s: Vm, m: nat)
    requires Wf(s) && m in s.mtx
    ensures var r := ReleaseMutex(s, m); var q := s.mtx[m].queue;
            && r.mtx == s.mtx[m := if q == [] then Mcb(None, []) else Mcb(Some(q[0]), q[1..])]
            && (forall t :: 0 <= t < |s.thr| ==> r.thr[t].held == s.thr[t].held)
  {
  }

  /** What an acquire can change: the caller, and the one mutex. */
  lemma AcquireShape(s: Vm, m: nat, timeout: uint32)
    requires Wf(s) && Enabled(s, MutexAcquire(m, timeout))
    ensures var r := Before(s, MutexAcquire(m, timeout)); var c, d := s.thr[s.tr], r.thr[s.tr];
            && r.rq == s.rq && r.tr == s.tr && r.mtx.Keys == s.mtx.Keys && |r.thr| == |s.thr|
            && (forall t :: 0 <= t < |s.thr| && t != s.tr ==> r.thr[t] == s.thr[t])
            && (forall k :: k in s.mtx && k != m ==> r.mtx[k] == s.mtx[k])
            && d.prio == c.prio && (d.state == c.state || d.state.Waiting?)
            && (d.held == c.held
                || (d.held == c.held + [m] && m in s.mtx && s.mtx[m].owner.None?
                    && r.mtx[m] == s.mtx[m].(owner := Some(s.tr))))
            && (d.held == c.held && m in s.mtx ==>
                  r.mtx[m] == s.mtx[m] || r.mtx[m] == s.mtx[m].(queue := s.mtx[m].queue + [s.tr]))
  {
    assert s.tr < |s.thr|;
    if m in s.mtx {
      var u := TryAcquire(s, s.tr, m, timeout).0;
      assert u.rq == s.rq && u.tr == s.tr && |u.thr| == |s.thr| && u.mtx.Keys == s.mtx.Keys;
      assert forall t :: 0 <= t < |s.thr| && t != s.tr ==> u.thr[t] == s.thr[t];
      var r := Before(s, MutexAcquire(m, timeout));
      assert r == u || r == Block(u, ToInt(timeout));
      hide Wf, Enabled, Before;
    }
  }

  /** The first release that `releaseAllMutex` makes, and the rest of its work. */
  lemma ReleaseAllStep(s: Vm, x: nat) returns (m: nat, r: Vm)
    requires Wf(s) && Has(s, x) && s.thr[x].held != []
    ensures var held := s.thr[x].held; var k := |held| - 1;
            m == held[k] && held == held[..k] + [m] && m in s.mtx && Wf(r) && |r.thr| == |s.thr|
            && r.thr[x].held == held[..k] && (forall j :: j in held[..k] ==> j in s.mtx)
    ensures var q := s.mtx[m].queue;
            r.mtx == s.mtx[m := if q == [] then Mcb(None, []) else Mcb(Some(q[0]), q[1..])]
    ensures forall t :: 0 <= t < |s.thr| && t != x ==> r.thr[t].held == s.thr[t].held
    ensures ReleaseAll(s, x) == ReleaseAll(r, x)
    ensures var h := s.thr[x].held[..|s.thr[x].held| - 1];
            (forall j :: j in h ==> j in ReleaseMutex(s, m).mtx) && r == SetHeld(ReleaseMutex(s, m), x, h)
  {
    var held := s.thr[x].held;
    m := held[|held| - 1];
    assert TcbOk(s, s.thr[x]) && m in held;
    ReleaseMutexShape(s, m);
    r := SetHeld(ReleaseMutex(s, m), x, held[..|held| - 1]);
    hide ReleaseMutex, Wf;
  }

  lemma {:induction false} ReleaseAllKeepsMutex(s: Vm, x: nat, k: nat)
    requires Wf(s) && Has(s, x) && k in s.mtx && k !in s.thr[x].held
    ensures k in ReleaseAll(s, x).mtx && ReleaseAll(s, x).mtx[k] == s.mtx[k]
    decreases |s.thr[x].held|
  {
    if s.thr[x].held == [] {
      assert ReleaseAll(s, x) == s;
    } else {
      var m, r := ReleaseAllStep(s, x);
      hide *;
      ReleaseAllKeepsMutex(r, x, k);
    }
  }

  lemma {:induction false} ReleaseAllHeld(s: Vm, x: nat, t: nat)
    requires Wf(s) && Has(s, x) && Has(s, t)
    ensures ReleaseAll(s, x).thr[t].held == if t == x then [] else s.thr[t].held
    decreases |s.thr[x].held|
  {
    if s.thr[x].held == [] {
      assert ReleaseAll(s, x) == s;
    } else {
      var m, r := ReleaseAllStep(s, x);
      hide *;
      ReleaseAllHeld(r, x, t);
    }
  }

  /** Releasing m and dropping it from its holder's list, the list being h afterwards. */
  lemma KeptByRelease(s: Vm, t: nat, m: nat, h: seq<nat>)
    requires Wf(s) && Exclusive(s) && Has(s, t) && m in s.thr[t].held
    requires NoDup(h) && forall k :: k in h <==> k in s.thr[t].held && k != m
    ensures Exclusive(SetHeld(ReleaseMutex(s, m), t, h))
  {
    ReleaseMutexShape(s, m);
    var r := SetHeld(ReleaseMutex(s, m), t, h);
    assert OwnsHeld(s, t);
    forall u | 0 <= u < |r.thr| ensures OwnsHeld(r, u) {
      assert OwnsHeld(s, u);
    }
    assert QueueInv(s.mtx[m]);
  }

  lemma KeptByReleaseHeld(s: Vm, t: nat, m: nat)
    requires Wf(s) && Exclusive(s) && Has(s, t) && m in s.thr[t].held
    ensures Exclusive(ReleaseHeld(s, t, m))
  {
    ReleaseMutexShape(s, m);
    assert OwnsHeld(s, t);
    var held := s.thr[t].held;
    var i := IndexOf(held, m);
    ErasedOne(held, i);
    var s1 := ReleaseMutex(s, m);
    assert s1.thr[t].held == held;
    hide Wf, ReleaseMutex, Exclusive, NoDup, EraseAt, IndexOf;
    KeptByRelease(s, t, m, EraseAt(held, i));
  }

  lemma ErasedOne(q: seq<nat>, i: nat)
    requires NoDup(q) && i < |q|
    ensures NoDup(EraseAt(q, i)) && forall x :: x in EraseAt(q, i) <==> x in q && x != q[i]
  {
    var r := EraseAt(q, i);
    assert forall j :: 0 <= j < |r| ==> r[j] == q[if j < i then j else j + 1];
    forall x | x in q && x != q[i] ensures x in r {
      var j :| 0 <= j < |q| && q[j] == x;
      assert x == r[if j < i then j else j - 1];
    }
  }

  lemma {:induction false} KeptByReleaseAll(s: Vm, t: nat)
    requires Wf(s) && Exclusive(s) && Has(s, t)
    ensures Exclusive(ReleaseAll(s, t))
    decreases |s.thr[t].held|
  {
    var h := s.thr[t].held;
    if h != [] {
      assert OwnsHeld(s, t);
      var m, r := ReleaseAllStep(s, t);
      hide Wf, ReleaseMutex, ReleaseAll, SetHeld, NoDup, Exclusive;
      WithoutLast(h);
      KeptByRelease(s, t, m, h[..|h| - 1]);
      KeptByReleaseAll(r, t);
    }
  }

  lemma KeptByTick(s: Vm, t: nat)
    requires Wf(s) && Exclusive(s) && Has(s, t)
    ensures Exclusive(Tick(s, t))
  {
    var r := Tick(s, t);
    if s.thr[t].waiting.Some? {
      WithoutNoDup(s.mtx[s.thr[t].waiting.value].queue, t);
      assert QueueInv(s.mtx[s.thr[t].waiting.value]);
    }
    forall u | 0 <= u < |r.thr| ensures OwnsHeld(r, u) {
      assert OwnsHeld(s, u);
    }
  }

  lemma {:induction false} KeptByTicks(s: Vm, n: nat)
    requires Wf(s) && Exclusive(s) && n <= |s.thr|
    ensures Exclusive(TickFirst(s, n))
  {
    hide Tick, Exclusive;
    if n > 0 {
      KeptByTicks(s, n - 1);
      KeptByTick(TickFirst(s, n - 1), n - 1);
    }
  }

  lemma KeptByTryAcquire(s: Vm, t: nat, m: nat, timeout: uint32)
    requires Wf(s) && Exclusive(s) && Has(s, t) && m in s.mtx
    ensures Exclusive(TryAcquire(s, t, m, timeout).0)
  {
    var r := TryAcquire(s, t, m, timeout).0;
    assert QueueInv(s.mtx[m]);
    forall u | 0 <= u < |r.thr| ensures OwnsHeld(r, u) {
      assert OwnsHeld(s, u);
    }
  }

  lemma KeptByFinish(s: Vm, t: nat)
    requires Wf(s) && Exclusive(s) && Has(s, t)
    ensures Exclusive(Finish(s, t))
  {
    var s1 := SetState(s, t, Dead);
    KeptBySame(s, s1);
    KeptByReleaseAll(s1, t);
    KeptBySame(ReleaseAll(s1, t), Finish(s, t));
  }

  lemma KeptByAcquire(s: Vm, m: nat, timeout: uint32)
    requires Wf(s) && Exclusive(s) && Enabled(s, MutexAcquire(m, timeout))
    ensures Exclusive(Before(s, MutexAcquire(m, timeout)))
  {
    if m in s.mtx {
      KeptByTryAcquire(s, s.tr, m, timeout);
      KeptBySame(TryAcquire(s, s.tr, m, timeout).0, Before(s, MutexAcquire(m, timeout)));
    }
  }

  lemma KeptByGrowth(s: Vm, r: Vm)
    requires Wf(s) && Exclusive(s) && Wf(r) && |s.thr| <= |r.thr|
    requires forall t :: 0 <= t < |s.thr| ==> r.thr[t].held == s.thr[t].held
    requires forall t :: |s.thr| <= t < |r.thr| ==> r.thr[t].held == []
    requires forall m :: m in r.mtx ==> if m in s.mtx then r.mtx[m] == s.mtx[m] else r.mtx[m] == Mcb(None, [])
    ensures Exclusive(r)
  {
    forall u | 0 <= u < |r.thr| ensures OwnsHeld(r, u) {
      if u < |s.thr| { assert OwnsHeld(s, u) && TcbOk(r, r.thr[u]); }
    }
  }

  lemma KeptBySimple(s: Vm, a: Action)
    requires Wf(s) && Exclusive(s) && Enabled(s, a)
    requires a.FileDone? || a.FileRequest? || a.Yield? || a.Create? || a.Activate? || a.Sleep?
      || a.MutexCreate? || a.MutexDelete?
    ensures Exclusive(Before(s, a))
  {
    hide Exclusive;
    match a {
      case FileDone(_, _) => KeptByGrowth(s, Before(s, a));
      case FileRequest(_) => KeptByGrowth(s, Before(s, a));
      case Yield => KeptByGrowth(s, Before(s, a));
      case Create(_) => KeptByGrowth(s, Before(s, a));
      case Activate(_) => KeptByGrowth(s, Before(s, a));
      case Sleep(_) => KeptByGrowth(s, Before(s, a));
      case MutexCreate => KeptByGrowth(s, Before(s, a));
      case MutexDelete(_) => KeptByGrowth(s, Before(s, a));
    }
  }

  lemma KeptBefore(s: Vm, a: Action)
    requires Wf(s) && Exclusive(s) && Enabled(s, a)
    ensures Exclusive(Before(s, a))
  {
    match a {
      case Timer => KeptByTicks(s, |s.thr|);
      case Terminate(t) => if Has(s, t) { KeptByFinish(s, t); }
      case MutexAcquire(m, timeout) => KeptByAcquire(s, m, timeout);
      case MutexRelease(m) =>
        if m in s.mtx && m in s.thr[s.tr].held { KeptByReleaseHeld(s, s.tr, m); }
      case _ => KeptBySimple(s, a);
    }
  }

  lemma KeptByStep(s: Vm, a: Action, r: Vm)
    requires Step(s, a, r) && Exclusive(s)
    ensures Wf(r) && Exclusive(r)
  {
    hide Exclusive, Before;
    KeptBefore(s, a);
    if Dispatches(s, a) {
      KeptBySame(Before(s, a), r);
    }
  }

  /** Mutual exclusion holds in every state of every run. */
  lemma {:induction false} MutualExclusion(ss: seq<Vm>, acts: seq<Action>, n: nat)
    requires Run(ss, acts) && n < |ss|
    ensures Wf(ss[n]) && Exclusive(ss[n])
  {
    if n > 0 {
      MutualExclusion(ss, acts, n - 1);
      StepOf(ss, acts, n);
      hide Path, Exclusive, Step;
      KeptByStep(ss[n - 1], acts[n - 1], ss[n]);
    }
  }

  /** No mutex is in the held lists of two threads, and the holder is always the owner. */
  lemma OneHolder(ss: seq<Vm>, acts: seq<Action>, n: nat, t: nat, u: nat, m: nat)
    requires Run(ss, acts) && n < |ss|
    requires Has(ss[n], t) && Has(ss[n], u) && m in ss[n].thr[t].held && m in ss[n].thr[u].held
    ensures t == u && m in ss[n].mtx && ss[n].mtx[m].owner == Some(t)
  {
    MutualExclusion(ss, acts, n);
    assert OwnsHeld(ss[n], t) && OwnsHeld(ss[n], u);
  }

  /** A mutex that passes the owner check of `VMMutexDelete` has no waiters and is in no held list, so
      only a stale `waiting` pointer can make the deletion dangerous. */
  lemma DeletableMutexIsUnused(ss: seq<Vm>, acts: seq<Action>, n: nat, m: nat)
    requires Run(ss, acts) && n < |ss| && m in ss[n].mtx && ss[n].mtx[m].owner.None?
    ensures ss[n].mtx[m].queue == []
    ensures forall t :: 0 <= t < |ss[n].thr| ==> m !in ss[n].thr[t].held
    ensures Referenced(ss[n], m) ==> exists t :: 0 <= t < |ss[n].thr| && ss[n].thr[t].waiting == Some(m)
  {
    MutualExclusion(ss, acts, n);
    assert QueueInv(ss[n].mtx[m]);
    forall t | 0 <= t < |ss[n].thr| ensures m !in ss[n].thr[t].held {
      assert OwnsHeld(ss[n], t);
    }
  }
}
