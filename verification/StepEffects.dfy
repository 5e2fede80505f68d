/** Every step in full: each lemma says of one action, without the functions that compute it, what becomes of
    the threads, the mutexes and the ready queues.  Two of them wake many threads at once, and say in which
    order a timer interrupt and a termination put threads into the ready queues. */
module StepEffects {
  import opened Basics
  import opened VmState
  import opened MutexSafety
  import opened SchedulerSafety
  import opened Timing

  // ---------- The dispatch ----------

  /** The levels q, with the running thread put behind the others of its priority, if there is one. */
  function WithRunning(q: seq<seq<nat>>, s: Vm): seq<seq<nat>>
    requires |q| == 4 && Has(s, s.tr) && s.thr[s.tr].prio < 4
  {
    var p := s.thr[s.tr].prio;
    if s.thr[s.tr].state.Running? then q[p := q[p] + [s.tr]] else q
  }

  /** In r the front thread of the highest level that is not empty has been taken off and is current. */
  predicate FrontTaken(q: seq<seq<nat>>, r: Vm) {
    && |q| == 4
    && exists p :: 0 <= p < 4 && q[p] != [] && (forall k :: p < k < 4 ==> q[k] == [])
                   && r.tr == q[p][0] && r.rq == q[p := q[p][1..]]
  }

  lemma ScheduleTakesFront(b: Vm)
    requires Wf(b) && SomeoneReady(Requeue(b))
    ensures b.thr[b.tr].prio < 4 && FrontTaken(WithRunning(b.rq, b), Schedule(b)) && Schedule(b).mtx == b.mtx
  {
    assert TcbOk(b, b.thr[b.tr]);
    var s1 := Requeue(b);
    assert s1.rq == WithRunning(b.rq, b);
    var p := TopLevel(s1);
    assert s1.rq[p] != [] by { assert exists k :: 0 <= k < 4 && s1.rq[k] != []; }
    hide Wf, Requeue, WithRunning, TopLevel;
  }

  // ---------- The timer interrupt ----------

  /** The entries for level p of those of the first n threads that wake, in order of creation: two for a
      thread that was waiting for a mutex. */
  function WokenEntries(s: Vm, n: nat, p: nat): seq<nat>
    requires n <= |s.thr|
  {
    if n == 0 then []
    else
      var c := s.thr[n - 1];
      WokenEntries(s, n - 1, p)
      + if !Wakes(c) || c.prio != p then [] else if c.waiting.Some? then [n - 1, n - 1] else [n - 1]
  }

  /** The first n threads have had their tick: x is one of them, and it has ended its wait for mutex m. */
  predicate GivesUp(s: Vm, n: nat, m: nat, x: nat) {
    x < n && x < |s.thr| && Wakes(s.thr[x]) && s.thr[x].waiting == Some(m)
  }

  /** The queue without those who have given up. */
  function Patient(s: Vm, n: nat, m: nat, q: seq<nat>): seq<nat> {
    if q == [] then []
    else (if GivesUp(s, n, m, q[0]) then [] else [q[0]]) + Patient(s, n, m, q[1..])
  }

  lemma {:induction false} PatientNext(s: Vm, n: nat, m: nat, q: seq<nat>)
    requires n < |s.thr|
    ensures Patient(s, n + 1, m, q)
         == if GivesUp(s, n + 1, m, n) then Without(Patient(s, n, m, q), n) else Patient(s, n, m, q)
  {
    if q != [] {
      var x, rest, next := q[0], Patient(s, n, m, q[1..]), Patient(s, n + 1, m, q[1..]);
      PatientNext(s, n, m, q[1..]);
      assert Patient(s, n, m, q) == (if GivesUp(s, n, m, x) then [] else [x]) + rest;
      assert Patient(s, n + 1, m, q) == (if GivesUp(s, n + 1, m, x) then [] else [x]) + next;
      assert GivesUp(s, n + 1, m, x) <==> GivesUp(s, n, m, x) || (x == n && GivesUp(s, n + 1, m, n));
      assert !GivesUp(s, n, m, n);
      WithoutFront(x, rest, n);
      hide *;
      assert [] + rest == rest && [] + next == next;
    }
  }

  lemma WithoutFront(x: nat, q: seq<nat>, y: nat)
    ensures Without([x] + q, y) == (if x == y then [] else [x]) + Without(q, y)
  {
    assert ([x] + q)[1..] == q;
  }

  lemma {:induction false} PatientAtFirst(s: Vm, m: nat, q: seq<nat>)
    ensures Patient(s, 0, m, q) == q
  {
    if q != [] { PatientAtFirst(s, m, q[1..]); }
  }

  /** What the tick of thread x adds and removes. */
  lemma TickMoves(s: Vm, x: nat)
    requires Wf(s) && Has(s, x)
    ensures var c := s.thr[x]; var r := Tick(s, x);
            && c.prio < 4
            && r.rq == (if !Wakes(c) then s.rq
                        else s.rq[c.prio := s.rq[c.prio] + if c.waiting.Some? then [x, x] else [x]])
            && r.mtx == (if Wakes(c) && c.waiting.Some?
                         then s.mtx[c.waiting.value := Mcb(s.mtx[c.waiting.value].owner,
                                                           Without(s.mtx[c.waiting.value].queue, x))]
                         else s.mtx)
            && r.tr == s.tr
  {
    var c := s.thr[x];
    assert TcbOk(s, c);
    if Wakes(c) && c.waiting.Some? {
      var p := c.prio;
      assert s.rq[p] + [x] + [x] == s.rq[p] + [x, x];
      assert Tick(s, x).rq == s.rq[p := s.rq[p] + [x, x]];
    }
    hide Wf;
  }

  predicate TicksDone(s: Vm, n: nat, r: Vm)
    requires n <= |s.thr|
  {
    && |r.rq| == |s.rq| == 4 && r.tr == s.tr && r.mtx.Keys == s.mtx.Keys
    && (forall p :: 0 <= p < 4 ==> r.rq[p] == s.rq[p] + WokenEntries(s, n, p))
    && forall m :: m in s.mtx ==> r.mtx[m] == Mcb(s.mtx[m].owner, Patient(s, n, m, s.mtx[m].queue))
  }

  lemma {:induction false} TicksMove(s: Vm, n: nat)
    requires Wf(s) && n <= |s.thr|
    ensures TicksDone(s, n, TickFirst(s, n))
  {
    if n == 0 {
      forall m | m in s.mtx ensures s.mtx[m] == Mcb(s.mtx[m].owner, Patient(s, 0, m, s.mtx[m].queue)) {
        PatientAtFirst(s, m, s.mtx[m].queue);
      }
    } else {
      var b := TickFirst(s, n - 1);
      TicksMove(s, n - 1);
      TickEffect(s, n - 1, n - 1);
      TickMoves(b, n - 1);
      assert TickFirst(s, n) == Tick(b, n - 1) && b.thr[n - 1] == s.thr[n - 1];
      hide Tick, TickFirst, Wf;
      TickAdds(s, n - 1, b, Tick(b, n - 1));
    }
  }

  lemma TickAdds(s: Vm, n: nat, b: Vm, r: Vm)
    requires n < |s.thr| && TicksDone(s, n, b)
    requires s.thr[n].prio < 4 && (s.thr[n].waiting.Some? ==> s.thr[n].waiting.value in s.mtx)
    requires var c := s.thr[n];
             && r.rq == (if !Wakes(c) then b.rq
                         else b.rq[c.prio := b.rq[c.prio] + if c.waiting.Some? then [n, n] else [n]])
             && r.mtx == (if Wakes(c) && c.waiting.Some?
                          then b.mtx[c.waiting.value := Mcb(b.mtx[c.waiting.value].owner,
                                                            Without(b.mtx[c.waiting.value].queue, n))]
                          else b.mtx)
             && r.tr == b.tr
    ensures TicksDone(s, n + 1, r)
  {
    forall m | m in s.mtx ensures r.mtx[m] == Mcb(s.mtx[m].owner, Patient(s, n + 1, m, s.mtx[m].queue)) {
      PatientNext(s, n, m, s.mtx[m].queue);
    }
    forall p | 0 <= p < 4 ensures r.rq[p] == s.rq[p] + WokenEntries(s, n + 1, p) {
      assert b.rq[p] == s.rq[p] + WokenEntries(s, n, p);
    }
  }

  /** The levels when the threads that wake have entered theirs. */
  function LevelsAwake(s: Vm): (q: seq<seq<nat>>)
    requires |s.rq| == 4
    ensures |q| == 4
  {
    seq(4, p requires 0 <= p < 4 => s.rq[p] + WokenEntries(s, |s.thr|, p))
  }

  /** A timer interrupt, in full.  Every thread has one tick.  The threads that wake enter the levels of their
      priorities in order of creation, and those that waited for a mutex leave its queue, where the others
      keep their order and the owner stays.  The preempted thread comes last; then the front of the highest
      level is taken. */
  lemma TimerInterrupt(s: Vm, r: Vm)
    requires Step(s, Timer, r)
    ensures s.thr[s.tr].prio < 4 && |s.rq| == 4
    ensures FrontTaken(WithRunning(LevelsAwake(s), s), r)
    ensures r.mtx.Keys == s.mtx.Keys
    ensures forall m :: m in s.mtx ==> r.mtx[m] == Mcb(s.mtx[m].owner, Patient(s, |s.thr|, m, s.mtx[m].queue))
    ensures forall t :: 0 <= t < |s.thr| && t != s.tr && t != r.tr ==> r.thr[t] == Ticked(s.thr[t])
  {
    assert TcbOk(s, s.thr[s.tr]) && Has(s, s.tr) && Wf(s);
    var b := TickFirst(s, |s.thr|);
    TimerStep(s, r);
    forall t: nat | t < |s.thr| && t != s.tr && t != r.tr ensures r.thr[t] == Ticked(s.thr[t]) {
      TickedThread(s, r, t);
    }
    TicksMove(s, |s.thr|);
    assert b.rq == LevelsAwake(s);
    hide Wf, Step, TickFirst, Schedule, Requeue, SomeoneReady, FrontTaken, Patient, LevelsAwake;
    ScheduleTakesFront(b);
    TickEffect(s, |s.thr|, s.tr);
    assert WithRunning(b.rq, b) == WithRunning(b.rq, s);
    hide WithRunning, Ticked;
  }

  lemma TickedThread(s: Vm, r: Vm, t: nat)
    requires Step(s, Timer, r) && Has(s, t) && t != s.tr && t != r.tr
    ensures Has(r, t) && r.thr[t] == Ticked(s.thr[t])
  {
    TimerStep(s, r);
    TicksMove(s, |s.thr|);
    TickEffect(s, |s.thr|, t);
    hide Step, Wf, TickFirst, Schedule, Requeue, SomeoneReady, Patient, Ticked;
    ScheduleTouchesTwo(TickFirst(s, |s.thr|), t);
  }

  lemma TimerStep(s: Vm, r: Vm)
    requires Step(s, Timer, r)
    ensures var b := TickFirst(s, |s.thr|); Wf(b) && SomeoneReady(Requeue(b)) && r == Schedule(b)
  {
    hide TickFirst, Schedule, Requeue;
  }

  lemma ScheduleTouchesTwo(b: Vm, t: nat)
    requires Wf(b) && SomeoneReady(Requeue(b)) && Has(b, t) && t != b.tr && t != Schedule(b).tr
    ensures Schedule(b).thr[t] == b.thr[t]
  {
  }

  // ---------- Termination ----------

  /** The threads of level p that are handed the mutexes h, from the last mutex to the first. */
  function HandedTo(s: Vm, h: seq<nat>, p: nat): seq<nat> {
    if h == [] then []
    else
      var m := h[|h| - 1];
      (if m in s.mtx && s.mtx[m].queue != [] && Has(s, s.mtx[m].queue[0]) && s.thr[s.mtx[m].queue[0]].prio == p
       then [s.mtx[m].queue[0]] else [])
      + HandedTo(s, h[..|h| - 1], p)
  }

  /** The mutex after it is released. */
  function GivenUp(c: Mcb): Mcb {
    if c.queue == [] then Mcb(None, []) else Mcb(Some(c.queue[0]), c.queue[1..])
  }

  lemma {:induction false} HandedToSame(s: Vm, r: Vm, h: seq<nat>, p: nat)
    requires |r.thr| == |s.thr| && forall t :: 0 <= t < |s.thr| ==> r.thr[t].prio == s.thr[t].prio
    requires forall m :: m in h ==> m in s.mtx && m in r.mtx && r.mtx[m] == s.mtx[m]
    ensures HandedTo(r, h, p) == HandedTo(s, h, p)
  {
    if h != [] { HandedToSame(s, r, h[..|h| - 1], p); }
  }

  lemma ReleaseQueues(s: Vm, m: nat)
    requires Wf(s) && m in s.mtx
    ensures var q := s.mtx[m].queue; var r := ReleaseMutex(s, m);
            && r.tr == s.tr && |r.rq| == 4
            && (forall t :: 0 <= t < |s.thr| ==> r.thr[t].prio == s.thr[t].prio)
            && (forall t :: 0 <= t < |s.thr| ==>
                  r.thr[t].state == if q != [] && q[0] == t then Ready else s.thr[t].state)
            && forall p :: 0 <= p < 4 ==>
                 r.rq[p] == s.rq[p] + if q != [] && Has(s, q[0]) && s.thr[q[0]].prio == p then [q[0]] else []
  {
    assert McbOk(s, s.mtx[m]) && (s.mtx[m].queue != [] ==> s.mtx[m].queue[0] in s.mtx[m].queue);
  }

  /** What a thread's state becomes when the mutexes h are given up. */
  function StateThen(s: Vm, h: seq<nat>, t: nat): RunState
    requires Has(s, t)
  {
    if t in HandedTo(s, h, s.thr[t].prio) then Ready else s.thr[t].state
  }

  predicate AllGiven(s: Vm, h: seq<nat>, r: Vm) {
    && |r.thr| == |s.thr|
    && (forall t :: 0 <= t < |s.thr| ==> r.thr[t].prio == s.thr[t].prio && r.thr[t].state == StateThen(s, h, t))
    && |r.rq| == |s.rq| == 4 && r.tr == s.tr && r.mtx.Keys == s.mtx.Keys
    && (forall p :: 0 <= p < 4 ==> r.rq[p] == s.rq[p] + HandedTo(s, h, p))
    && forall m :: m in s.mtx ==> r.mtx[m] == if m in h then GivenUp(s.mtx[m]) else s.mtx[m]
  }

  lemma {:induction false} ReleaseAllGives(s: Vm, x: nat)
    requires Wf(s) && Has(s, x) && NoDup(s.thr[x].held)
    ensures AllGiven(s, s.thr[x].held, ReleaseAll(s, x))
    decreases |s.thr[x].held|
  {
    var h := s.thr[x].held;
    if h == [] {
      assert ReleaseAll(s, x) == s;
    } else {
      var m, r := ReleaseAllStep(s, x);
      ReleaseGivesOne(s, x, r);
      assert TcbOk(s, s.thr[x]);
      WithoutLast(h);
      hide *;
      ReleaseAllGives(r, x);
      GivesOneMore(s, h, r, ReleaseAll(r, x));
    }
  }

  lemma ReleaseGivesOne(s: Vm, x: nat, r: Vm)
    requires Wf(s) && Has(s, x) && s.thr[x].held != [] && s.thr[x].held[|s.thr[x].held| - 1] in s.mtx
    requires var h := s.thr[x].held; var k := |h| - 1;
             (forall j :: j in h[..k] ==> j in ReleaseMutex(s, h[k]).mtx)
             && r == SetHeld(ReleaseMutex(s, h[k]), x, h[..k])
    ensures OneGiven(s, s.thr[x].held, r)
  {
    var m := s.thr[x].held[|s.thr[x].held| - 1];
    ReleaseQueues(s, m);
    ReleaseMutexShape(s, m);
    var u := ReleaseMutex(s, m);
    assert r.rq == u.rq && r.tr == u.tr && r.mtx == u.mtx;
    assert forall t :: 0 <= t < |s.thr| ==> r.thr[t].prio == u.thr[t].prio && r.thr[t].state == u.thr[t].state;
    hide ReleaseMutex, Wf, SetHeld;
  }

  /** In r the last of the mutexes h has been given up. */
  predicate OneGiven(s: Vm, h: seq<nat>, r: Vm)
    requires h != [] && h[|h| - 1] in s.mtx
  {
    var m := h[|h| - 1];
    var q := s.mtx[m].queue;
    && |s.rq| == |r.rq| == 4 && |r.thr| == |s.thr| && r.tr == s.tr
    && r.mtx == s.mtx[m := GivenUp(s.mtx[m])]
    && (forall t :: 0 <= t < |s.thr| ==> r.thr[t].prio == s.thr[t].prio)
    && (forall t :: 0 <= t < |s.thr| ==>
          r.thr[t].state == if q != [] && q[0] == t then Ready else s.thr[t].state)
    && forall p :: 0 <= p < 4 ==>
         r.rq[p] == s.rq[p] + if q != [] && Has(s, q[0]) && s.thr[q[0]].prio == p then [q[0]] else []
  }

  lemma GivesOneMore(s: Vm, h: seq<nat>, r: Vm, e: Vm)
    requires h != [] && (forall m :: m in h ==> m in s.mtx) && OneGiven(s, h, r)
    requires var k := |h| - 1; AllGiven(r, h[..k], e) && h == h[..k] + [h[k]] && h[k] !in h[..k]
    ensures AllGiven(s, h, e)
  {
    var k := |h| - 1;
    MutexesOneMore(s, h, r, e);
    hide HandedTo, GivenUp, OneGiven, StateThen, AllGiven;
    forall t | 0 <= t < |s.thr| ensures e.thr[t].prio == s.thr[t].prio && e.thr[t].state == StateThen(s, h, t) {
      HandedToSame(s, r, h[..k], s.thr[t].prio);
      StateOneMore(s, h, r, e, t);
    }
    forall p | 0 <= p < 4 ensures e.rq[p] == s.rq[p] + HandedTo(s, h, p) {
      HandedToSame(s, r, h[..k], p);
      QueueOneMore(s, h, r, e, p);
    }
    TogetherGiven(s, h, e);
  }

  lemma TogetherGiven(s: Vm, h: seq<nat>, e: Vm)
    requires |e.thr| == |s.thr| && |e.rq| == |s.rq| == 4 && e.tr == s.tr && e.mtx.Keys == s.mtx.Keys
    requires forall m :: m in s.mtx ==> e.mtx[m] == if m in h then GivenUp(s.mtx[m]) else s.mtx[m]
    requires forall t :: 0 <= t < |s.thr| ==> e.thr[t].prio == s.thr[t].prio && e.thr[t].state == StateThen(s, h, t)
    requires forall p :: 0 <= p < 4 ==> e.rq[p] == s.rq[p] + HandedTo(s, h, p)
    ensures AllGiven(s, h, e)
  {
    hide StateThen, HandedTo, GivenUp;
  }

  lemma MutexesOneMore(s: Vm, h: seq<nat>, r: Vm, e: Vm)
    requires h != [] && (forall m :: m in h ==> m in s.mtx) && OneGiven(s, h, r)
    requires var k := |h| - 1; AllGiven(r, h[..k], e) && h == h[..k] + [h[k]] && h[k] !in h[..k]
    ensures |r.thr| == |s.thr| && forall t :: 0 <= t < |s.thr| ==> r.thr[t].prio == s.thr[t].prio
    ensures forall m :: m in h[..|h| - 1] ==> m in s.mtx && m in r.mtx && r.mtx[m] == s.mtx[m]
    ensures |e.thr| == |s.thr| && |e.rq| == |s.rq| == 4 && e.tr == s.tr && e.mtx.Keys == s.mtx.Keys
    ensures forall m :: m in s.mtx ==> e.mtx[m] == if m in h then GivenUp(s.mtx[m]) else s.mtx[m]
  {
    var k := |h| - 1;
    assert forall m :: m in h <==> m in h[..k] || m == h[k];
    hide HandedTo, GivenUp, StateThen;
  }

  lemma StateOneMore(s: Vm, h: seq<nat>, r: Vm, e: Vm, t: nat)
    requires h != [] && h[|h| - 1] in s.mtx && OneGiven(s, h, r) && AllGiven(r, h[..|h| - 1], e) && Has(s, t)
    requires HandedTo(r, h[..|h| - 1], s.thr[t].prio) == HandedTo(s, h[..|h| - 1], s.thr[t].prio)
    ensures e.thr[t].prio == s.thr[t].prio && e.thr[t].state == StateThen(s, h, t)
  {
    HandedLast(s, h, s.thr[t].prio);
    assert r.thr[t].prio == s.thr[t].prio && e.thr[t].state == StateThen(r, h[..|h| - 1], t);
    hide AllGiven, GivenUp, HandedTo;
  }

  lemma QueueOneMore(s: Vm, h: seq<nat>, r: Vm, e: Vm, p: nat)
    requires h != [] && h[|h| - 1] in s.mtx && OneGiven(s, h, r) && AllGiven(r, h[..|h| - 1], e) && p < 4
    requires HandedTo(r, h[..|h| - 1], p) == HandedTo(s, h[..|h| - 1], p)
    ensures e.rq[p] == s.rq[p] + HandedTo(s, h, p)
  {
    HandedLast(s, h, p);
    var q := s.mtx[h[|h| - 1]].queue;
    var heir := if q != [] && Has(s, q[0]) && s.thr[q[0]].prio == p then [q[0]] else [];
    assert e.rq[p] == r.rq[p] + HandedTo(r, h[..|h| - 1], p) && r.rq[p] == s.rq[p] + heir;
    hide *;
    assert (s.rq[p] + heir) + HandedTo(s, h[..|h| - 1], p) == s.rq[p] + (heir + HandedTo(s, h[..|h| - 1], p));
  }

  lemma HandedLast(s: Vm, h: seq<nat>, p: nat)
    requires h != [] && h[|h| - 1] in s.mtx
    ensures var k := |h| - 1; var q := s.mtx[h[k]].queue;
            HandedTo(s, h, p)
            == (if q != [] && Has(s, q[0]) && s.thr[q[0]].prio == p then [q[0]] else []) + HandedTo(s, h[..k], p)
  {
  }

  /** The levels when thread x is being terminated: those handed its mutexes have entered theirs, the last
      mutex first, and every entry of x has left its own. */
  function LevelsWithout(s: Vm, x: nat): (q: seq<seq<nat>>)
    requires |s.rq| == 4 && Has(s, x)
    ensures |q| == 4
  {
    seq(4, p requires 0 <= p < 4 =>
      var entries := s.rq[p] + HandedTo(s, s.thr[x].held, p);
      if p == s.thr[x].prio then Without(entries, x) else entries)
  }

  lemma {:induction false} NotHanded(s: Vm, h: seq<nat>, p: nat, x: nat)
    requires forall m :: m in h && m in s.mtx ==> x !in s.mtx[m].queue
    ensures x !in HandedTo(s, h, p)
  {
    if h != [] { NotHanded(s, h[..|h| - 1], p, x); }
  }

  lemma FinishGives(s: Vm, x: nat)
    requires Wf(s) && Has(s, x) && OwnsHeld(s, x)
    ensures var b := Finish(s, x);
            && b.rq == LevelsWithout(s, x) && b.tr == s.tr && b.mtx.Keys == s.mtx.Keys
            && b.thr[x].held == [] && b.thr[x].state.Dead?
            && (forall m :: m in s.mtx ==> b.mtx[m] == if m in s.thr[x].held then GivenUp(s.mtx[m]) else s.mtx[m])
            && (forall t :: 0 <= t < |s.thr| && t != x ==>
                  b.thr[t].prio == s.thr[t].prio && b.thr[t].state == StateThen(s, s.thr[x].held, t))
  {
    var d := SetState(s, x, Dead);
    var e := ReleaseAll(d, x);
    var h := s.thr[x].held;
    assert d.thr[x].held == h && TcbOk(s, s.thr[x]);
    assert forall t :: 0 <= t < |s.thr| ==> d.thr[t].prio == s.thr[t].prio;
    ReleaseAllGives(d, x);
    NotHanded(d, h, s.thr[x].prio, x);
    assert e.thr[x].state == StateThen(d, h, x) == Dead;
    ReleaseAllHeld(d, x, x);
    forall p | 0 <= p < 4 ensures HandedTo(d, h, p) == HandedTo(s, h, p) { HandedToSame(s, d, h, p); }
    assert Finish(s, x) == FlushLevel(e, x) && e.thr[x].prio == s.thr[x].prio;
    assert FlushLevel(e, x).rq == LevelsWithout(s, x);
    hide Wf, ReleaseAll, Finish, LevelsWithout, HandedTo, Without;
  }

  /** The termination of a live thread, in full.  Each mutex that it holds is freed or handed to the first of
      its queue, the last one first, and those handed a mutex enter the levels of their priorities in that
      order.  Every entry of the thread itself leaves its level.  The thread that called goes behind the
      others, unless it has terminated itself or been handed a mutex; then the front of the highest level is
      taken. */
  lemma Termination(s: Vm, x: nat, r: Vm)
    requires Step(s, Terminate(x), r) && Exclusive(s) && Has(s, x) && !s.thr[x].state.Dead?
    requires s.thr[s.tr].state.Running?
    ensures s.thr[s.tr].prio < 4 && |s.rq| == 4 && Has(r, x)
    ensures var h := s.thr[x].held;
            && FrontTaken(if x == s.tr || s.tr in HandedTo(s, h, s.thr[s.tr].prio) then LevelsWithout(s, x)
                          else WithRunning(LevelsWithout(s, x), s), r)
            && r.mtx.Keys == s.mtx.Keys
            && (forall m :: m in s.mtx ==> r.mtx[m] == if m in h then GivenUp(s.mtx[m]) else s.mtx[m])
            && r.thr[x].held == []
  {
    assert OwnsHeld(s, x) && TcbOk(s, s.thr[s.tr]) && Wf(s);
    TerminateStep(s, x, r);
    var b := Finish(s, x);
    hide Finish, Wf, FrontTaken, Schedule, Step, GivenUp, Requeue, SomeoneReady, LevelsWithout, Exclusive;
    FinishGives(s, x);
    ScheduleTakesFront(b);
    ScheduleKeepsHeld(b, x);
    hide HandedTo;
    assert WithRunning(b.rq, b)
        == if x == s.tr || s.tr in HandedTo(s, s.thr[x].held, s.thr[s.tr].prio) then LevelsWithout(s, x)
           else WithRunning(LevelsWithout(s, x), s);
    hide *;
  }

  lemma TerminateStep(s: Vm, x: nat, r: Vm)
    requires Step(s, Terminate(x), r) && Has(s, x) && !s.thr[x].state.Dead?
    ensures var b := Finish(s, x); Wf(b) && SomeoneReady(Requeue(b)) && r == Schedule(b)
  {
    hide Finish, Schedule, Requeue;
  }

  lemma ScheduleKeepsHeld(b: Vm, x: nat)
    requires Wf(b) && SomeoneReady(Requeue(b)) && Has(b, x)
    ensures Has(Schedule(b), x) && Schedule(b).thr[x].held == b.thr[x].held
  {
  }

  // ---------- Calls of the running thread ----------

  /** Nothing but the mutexes and the fields of the current thread has changed; then it waits, and the front of
      the highest level is taken. */
  predicate Blocked(s: Vm, c: Tcb, r: Vm) {
    && Has(s, s.tr) && |r.thr| == |s.thr| && c.state.Waiting? && FrontTaken(s.rq, r)
    && forall t :: 0 <= t < |s.thr| ==>
         var was := if t == s.tr then c else s.thr[t];
         r.thr[t] == if t == r.tr then was.(state := Running) else was
  }

  lemma BlockedBySchedule(s: Vm, b: Vm, c: Tcb)
    requires Wf(s) && Wf(b) && SomeoneReady(Requeue(b)) && c.state.Waiting?
    requires b.thr == s.thr[s.tr := c] && b.rq == s.rq && b.tr == s.tr
    ensures Blocked(s, c, Schedule(b)) && Schedule(b).mtx == b.mtx && Schedule(b).io == b.io
  {
    ScheduleTakesFront(b);
    hide Wf, FrontTaken;
  }

  /** An acquire, in full.  Nothing happens to the mutexes if the caller holds the mutex already; a free one gets
      the caller as its owner and enters its held list at the end; otherwise the caller joins the queue, at its
      end, unless it is in it or the call is immediate.  Without the mutex, the caller of any other than an
      immediate call waits with the timeout, taken as a signed number, as its count. */
  lemma AcquireInFull(s: Vm, m: nat, timeout: uint32, r: Vm)
    requires Step(s, MutexAcquire(m, timeout), r) && m in s.mtx
    ensures Has(s, s.tr)
    ensures var t, c, me := s.tr, s.mtx[m], s.thr[s.tr];
            var holds, free := m in me.held, c.owner.None?;
            var after := me.(waiting := if holds || free then None else Some(m),
                             held := if !holds && free then me.held + [m] else me.held);
            var count := if timeout < 0x8000_0000 then timeout else timeout - 0x1_0000_0000;
            && r.io == s.io
            && r.mtx == (if holds then s.mtx
                         else if free then s.mtx[m := Mcb(Some(t), c.queue)]
                         else if t in c.queue || timeout == 0xFFFF_FFFF then s.mtx
                         else s.mtx[m := Mcb(c.owner, c.queue + [t])])
            && if timeout == 0xFFFF_FFFF || (!holds && free)
               then r.thr == s.thr[t := after] && (r.tr, r.rq) == (s.tr, s.rq)
               else Blocked(s, after.(state := Waiting, ticks := count), r)
  {
    var t, c, me := s.tr, s.mtx[m], s.thr[s.tr];
    var after := me.(waiting := if m in me.held || c.owner.None? then None else Some(m),
                     held := if m !in me.held && c.owner.None? then me.held + [m] else me.held);
    var (u, code) := TryAcquire(s, t, m, timeout);
    AttemptInFull(s, m, timeout);
    assert r == if timeout == IMMEDIATE || code == Success then u else Schedule(Block(u, ToInt(timeout)));
    if timeout != IMMEDIATE && code != Success {
      var b := Block(u, ToInt(timeout));
      assert b.thr == s.thr[t := after.(state := Waiting, ticks := ToInt(timeout))];
      assert (b.rq, b.tr, b.io, b.mtx) == (u.rq, u.tr, u.io, u.mtx);
      hide TryAcquire, Block, Schedule, Blocked, Wf, Step;
      BlockedBySchedule(s, b, after.(state := Waiting, ticks := ToInt(timeout)));
    } else {
      hide TryAcquire, Wf, Blocked, Step;
    }
  }

  lemma AttemptInFull(s: Vm, m: nat, timeout: uint32)
    requires Wf(s) && m in s.mtx
    ensures Has(s, s.tr)
    ensures var t, c, me := s.tr, s.mtx[m], s.thr[s.tr];
            var holds, free := m in me.held, c.owner.None?;
            var (u, code) := TryAcquire(s, t, m, timeout);
            && (code == Success <==> !holds && free) && (u.rq, u.tr, u.io) == (s.rq, s.tr, s.io)
            && u.thr == s.thr[t := me.(waiting := if holds || free then None else Some(m),
                                       held := if !holds && free then me.held + [m] else me.held)]
            && u.mtx == (if holds then s.mtx
                         else if free then s.mtx[m := Mcb(Some(t), c.queue)]
                         else if t in c.queue || timeout == 0xFFFF_FFFF then s.mtx
                         else s.mtx[m := Mcb(c.owner, c.queue + [t])])
  {
  }

  /** A sleep, in full: nothing for 0; the caller goes behind the others of its priority for an immediate one;
      otherwise it waits with the number of ticks, taken as a signed number, as its count. */
  lemma SleepInFull(s: Vm, n: uint32, r: Vm)
    requires Step(s, Sleep(n), r) && s.thr[s.tr].state.Running?
    ensures Has(s, s.tr) && s.thr[s.tr].prio < |s.rq| == 4
    ensures n == 0 ==> r == s
    ensures n == 0xFFFF_FFFF ==> FrontTaken(WithRunning(s.rq, s), r)
    ensures 0 < n < 0xFFFF_FFFF ==>
              var count := if n < 0x8000_0000 then n else n - 0x1_0000_0000;
              Blocked(s, s.thr[s.tr].(state := Waiting, ticks := count), r)
    ensures r.mtx == s.mtx && r.io == s.io
  {
    assert TcbOk(s, s.thr[s.tr]);
    if n == IMMEDIATE {
      var b := MakeReady(s, s.tr);
      assert b.rq == WithRunning(s.rq, s) && b.thr[b.tr].state.Ready? && b.tr == s.tr;
      ScheduleTakesFront(b);
      hide Wf;
    } else if n != INFINITE {
      var b := Block(s, ToInt(n));
      assert b.thr == s.thr[s.tr := s.thr[s.tr].(state := Waiting, ticks := ToInt(n))];
      BlockedBySchedule(s, b, b.thr[s.tr]);
      hide Wf;
    }
  }

  /** A file request, in full: the call result is preset, and the caller waits with one more request out. */
  lemma FileRequestInFull(s: Vm, initial: int, r: Vm)
    requires Step(s, FileRequest(initial), r)
    ensures Has(s, s.tr) && Blocked(s, s.thr[s.tr].(cd := initial, state := Waiting), r)
    ensures r.mtx == s.mtx && r.io == s.io + multiset{s.tr}
  {
    var b := SendRequest(s, initial);
    BlockedBySchedule(s, b, s.thr[s.tr].(cd := initial, state := Waiting));
    hide Wf;
  }

  /** A file callback, in full: the result is stored, and the thread goes behind the others of its priority. */
  lemma FileDoneInFull(s: Vm, t: nat, result: int, r: Vm)
    requires Step(s, FileDone(t, result), r)
    ensures Has(s, t) && s.thr[t].prio < |s.rq|
    ensures r.thr == s.thr[t := s.thr[t].(cd := result, state := Ready)]
    ensures r.rq == s.rq[s.thr[t].prio := s.rq[s.thr[t].prio] + [t]]
    ensures (r.tr, r.mtx, r.io) == (s.tr, s.mtx, s.io - multiset{t})
  {
    assert TcbOk(s, s.thr[t]);
    hide Wf;
  }

  /** The levels after a release of mutex m: the thread it is handed to goes behind the others. */
  function LevelsWithHeir(s: Vm, m: nat): (q: seq<seq<nat>>)
    requires |s.rq| == 4 && m in s.mtx
    ensures |q| == 4
  {
    var q := s.mtx[m].queue;
    seq(4, p requires 0 <= p < 4 =>
      s.rq[p] + if q != [] && Has(s, q[0]) && s.thr[q[0]].prio == p then [q[0]] else [])
  }

  predicate Inherits(s: Vm, m: nat, t: nat) {
    m in s.mtx && s.mtx[m].queue != [] && s.mtx[m].queue[0] == t
  }

  /** A release of a held mutex, in full: it is freed or handed to the first of its queue, who becomes ready and
      forgets what it waited for, and it leaves the held list at its first place.  Then the caller goes behind
      the others, unless the mutex was handed to the caller itself. */
  lemma ReleaseInFull(s: Vm, m: nat, i: nat, r: Vm)
    requires Step(s, MutexRelease(m), r) && m in s.mtx && s.thr[s.tr].state.Running?
    requires i < |s.thr[s.tr].held| && s.thr[s.tr].held[i] == m && m !in s.thr[s.tr].held[..i]
    ensures r.mtx == s.mtx[m := GivenUp(s.mtx[m])] && r.io == s.io
    ensures |s.rq| == 4 && s.thr[s.tr].prio < 4
    ensures FrontTaken(if Inherits(s, m, s.tr) then LevelsWithHeir(s, m) else WithRunning(LevelsWithHeir(s, m), s), r)
    ensures |r.thr| == |s.thr| && forall t :: 0 <= t < |s.thr| ==>
              var c, held := s.thr[t], s.thr[s.tr].held;
              && r.thr[t].held == (if t == s.tr then held[..i] + held[i + 1..] else c.held)
              && r.thr[t].waiting == (if Inherits(s, m, t) then None else c.waiting)
              && r.thr[t].state == (if t == r.tr then Running
                                    else if t == s.tr || Inherits(s, m, t) then Ready else c.state)
  {
    var held := s.thr[s.tr].held;
    assert held[i] in held && TcbOk(s, s.thr[s.tr]) && Wf(s);
    ReleaseStep(s, m, r);
    var b := ReleaseHeld(s, s.tr, m);
    hide ReleaseHeld, Wf, FrontTaken, Schedule, Step, GivenUp, LevelsWithHeir, Inherits, Requeue, SomeoneReady;
    ReleasedShape(s, m, i);
    ScheduleTakesFront(b);
    assert WithRunning(b.rq, b) == if Inherits(s, m, s.tr) then b.rq else WithRunning(b.rq, s);
    hide WithRunning;
    ScheduledThreads(b);
  }

  lemma ScheduledThreads(b: Vm)
    requires Wf(b) && SomeoneReady(Requeue(b))
    ensures var r := Schedule(b);
            && |r.thr| == |b.thr| && r.io == b.io
            && forall t :: 0 <= t < |b.thr| ==>
                 var c := b.thr[t];
                 r.thr[t] == if t == r.tr then c.(state := Running)
                             else if t == b.tr && c.state.Running? then c.(state := Ready) else c
  {
    hide Wf, TopLevel;
  }

  lemma ReleaseStep(s: Vm, m: nat, r: Vm)
    requires Step(s, MutexRelease(m), r) && m in s.mtx && m in s.thr[s.tr].held
    ensures var b := ReleaseHeld(s, s.tr, m); Wf(b) && SomeoneReady(Requeue(b)) && r == Schedule(b)
  {
    hide ReleaseHeld, Schedule, Requeue;
  }

  lemma ReleasedShape(s: Vm, m: nat, i: nat)
    requires Wf(s) && m in s.mtx && i < |s.thr[s.tr].held|
    requires s.thr[s.tr].held[i] == m && m !in s.thr[s.tr].held[..i]
    ensures m in s.thr[s.tr].held
    ensures var held, b := s.thr[s.tr].held, ReleaseHeld(s, s.tr, m);
            && b.mtx == s.mtx[m := GivenUp(s.mtx[m])] && b.io == s.io && b.tr == s.tr && |b.rq| == 4
            && b.rq == LevelsWithHeir(s, m)
            && |b.thr| == |s.thr| && forall t :: 0 <= t < |s.thr| ==>
                 var c := s.thr[t];
                 && b.thr[t].prio == c.prio
                 && b.thr[t].held == (if t == s.tr then held[..i] + held[i + 1..] else c.held)
                 && b.thr[t].waiting == (if Inherits(s, m, t) then None else c.waiting)
                 && b.thr[t].state == (if Inherits(s, m, t) then Ready else c.state)
  {
    var held := s.thr[s.tr].held;
    assert held[i] in held && TcbOk(s, s.thr[s.tr]);
    FirstPlace(held, i, m);
    ReleaseQueues(s, m);
    ReleaseMutexShape(s, m);
    ReleasedWaits(s, m);
    var u := ReleaseMutex(s, m);
    var b := ReleaseHeld(s, s.tr, m);
    assert b.thr == u.thr[s.tr := u.thr[s.tr].(held := held[..i] + held[i + 1..])];
    assert (b.rq, b.mtx, b.tr, b.io) == (u.rq, u.mtx, u.tr, u.io);
    assert u.rq == LevelsWithHeir(s, m);
    hide ReleaseMutex, ReleaseHeld, Wf, IndexOf, LevelsWithHeir;
  }

  lemma FirstPlace(q: seq<nat>, i: nat, x: nat)
    requires i < |q| && q[i] == x && x !in q[..i]
    ensures x in q && IndexOf(q, x) == i
  {
    var j := IndexOf(q, x);
    assert forall k :: 0 <= k < j ==> q[k] in q[..j];
    assert forall k :: 0 <= k < i ==> q[k] in q[..i];
  }

  lemma ReleasedWaits(s: Vm, m: nat)
    requires Wf(s) && m in s.mtx
    ensures var q := s.mtx[m].queue; var r := ReleaseMutex(s, m);
            && r.io == s.io
            && forall t :: 0 <= t < |s.thr| ==>
                 r.thr[t].waiting == if q != [] && q[0] == t then None else s.thr[t].waiting
  {
  }

  // ---------- Creation, activation and deletion ----------

  /** Creation appends one dead thread of the priority asked for, and changes nothing else. */
  lemma CreationInFull(s: Vm, prio: nat, r: Vm)
    requires Step(s, Create(prio), r)
    ensures r.thr == s.thr + [Tcb(prio, Dead, -1, -5, None, [])]
    ensures (r.tr, r.rq, r.mtx, r.nextMid, r.io) == (s.tr, s.rq, s.mtx, s.nextMid, s.io)
  {
  }

  /** Activation queues a dead thread behind all others of its priority, and changes nothing else. */
  lemma ActivationInFull(s: Vm, t: nat, r: Vm)
    requires Step(s, Activate(t), r)
    ensures !Has(s, t) || !s.thr[t].state.Dead? ==> r == s
    ensures Has(s, t) && s.thr[t].state.Dead? ==>
              var p := s.thr[t].prio;
              && p < |s.rq| && r.rq == s.rq[p := s.rq[p] + [t]]
              && r.thr == s.thr[t := s.thr[t].(state := Ready)]
              && (r.tr, r.mtx, r.nextMid, r.io) == (s.tr, s.mtx, s.nextMid, s.io)
  {
    assert Has(s, t) ==> TcbOk(s, s.thr[t]);
    hide Wf;
  }

  /** A new mutex has an id that no other has, no owner and no queue. */
  lemma MutexCreationInFull(s: Vm, r: Vm)
    requires Step(s, MutexCreate, r)
    ensures exists m: nat :: m !in s.mtx && r.mtx == s.mtx[m := Mcb(None, [])]
    ensures (r.tr, r.thr, r.rq, r.io) == (s.tr, s.thr, s.rq, s.io)
  {
    assert s.nextMid !in s.mtx;
    hide Wf;
  }

  /** Deletion takes away an unowned mutex, and changes nothing else; an owned one stays. */
  lemma MutexDeletionInFull(s: Vm, m: nat, r: Vm)
    requires Step(s, MutexDelete(m), r)
    ensures m in s.mtx && r.mtx == if s.mtx[m].owner.None? then s.mtx - {m} else s.mtx
    ensures (r.tr, r.thr, r.rq, r.io) == (s.tr, s.thr, s.rq, s.io)
  {
    hide Wf, Referenced;
  }
}
