/** The exact condition for every ready thread to be queued once and no other thread at all: which steps keep
    it, and which runs have it throughout. */
module QueuedOnce {
  import opened Basics
  import opened VmState
  import opened MutexSafety
  import opened SchedulerSafety
  import opened ExactlyOnce
  import opened Timing
  import opened Revival

  /** Thread t is queued once if it is ready, and not at all otherwise. */
  predicate Right(s: Vm, t: nat)
    requires Wf(s) && Has(s, t)
  {
    Entries(s, t) == if s.thr[t].state.Ready? then 1 else 0
  }

  predicate Once(s: Vm)
    requires Wf(s)
  {
    forall t :: 0 <= t < |s.thr| ==> Right(s, t)
  }

  predicate IsReady(s: Vm, t: nat) {
    Has(s, t) && s.thr[t].state.Ready?
  }

  /** The action queues no thread that is queued already, and none twice: no thread times out that waits for a
      mutex, and nobody is handed a mutex who is ready, or is handed two at once. */
  predicate QueuesOnce(s: Vm, a: Action)
    requires Wf(s)
  {
    match a
    case Timer => forall t :: 0 <= t < |s.thr| && Wakes(s.thr[t]) ==> s.thr[t].waiting.None?
    case MutexRelease(m) =>
      m in s.thr[s.tr].held && HasWaiter(s, m) ==> !IsReady(s, s.mtx[m].queue[0])
    case Terminate(x) => Has(s, x) && !s.thr[x].state.Dead? ==> HandsOnce(s, s.thr[x].held)
    case _ => true
  }

  predicate HasWaiter(s: Vm, m: nat) {
    m in s.mtx && s.mtx[m].queue != []
  }

  /** Nobody who is ready heads the queue of one of the mutexes, and nobody those of two. */
  predicate HandsOnce(s: Vm, held: seq<nat>) {
    && (forall m :: m in held && HasWaiter(s, m) ==> !IsReady(s, s.mtx[m].queue[0]))
    && (forall m, k :: m in held && k in held && m != k && HasWaiter(s, m) && HasWaiter(s, k) ==>
                         s.mtx[m].queue[0] != s.mtx[k].queue[0])
  }

  // ---------- Counting ----------

  lemma EntriesByMakeReady(s: Vm, x: nat, t: nat)
    requires Wf(s) && Has(s, x) && Has(s, t)
    ensures var r := MakeReady(s, x);
            && Entries(r, t) == Entries(s, t) + (if x == t then 1 else 0)
            && (IsReady(r, t) <==> IsReady(s, t) || x == t)
  {
    EntriesByPush(SetState(s, x, Ready), x, t);
    hide Push;
  }

  lemma NoEntriesBeyond(s: Vm, t: nat)
    requires Wf(s) && !Has(s, t)
    ensures Entries(s, t) == 0
  {
    assert forall p :: 0 <= p < 4 ==> QueueOk(s, s.rq[p]);
    assert forall p :: 0 <= p < 4 ==> t !in s.rq[p];
    hide Wf, QueueOk;
  }

  lemma OnceByMakeReady(s: Vm, x: nat)
    requires Wf(s) && Once(s) && Has(s, x) && !IsReady(s, x)
    ensures Once(MakeReady(s, x))
  {
    var r := MakeReady(s, x);
    hide Wf, MakeReady, Entries;
    forall t | 0 <= t < |r.thr| ensures Right(r, t) {
      assert Right(s, t);
      EntriesByMakeReady(s, x, t);
    }
  }

  lemma OnceBySame(s: Vm, r: Vm)
    requires Wf(s) && Wf(r) && Once(s) && r.rq == s.rq && |s.thr| <= |r.thr|
    requires forall t :: 0 <= t < |r.thr| ==> (IsReady(r, t) <==> IsReady(s, t))
    ensures Once(r)
  {
    forall t | 0 <= t < |r.thr| ensures Right(r, t) {
      if Has(s, t) { assert Right(s, t); } else { NoEntriesBeyond(s, t); }
      assert Entries(r, t) == Entries(s, t);
      assert IsReady(r, t) <==> IsReady(s, t);
    }
  }

  // ---------- The scheduler ----------

  lemma EntriesByTake(s: Vm, p: nat, t: nat)
    requires Wf(s) && p < 4 && s.rq[p] != []
    ensures Entries(TakeHead(s, p), t) == Entries(s, t) - if s.rq[p][0] == t then 1 else 0
  {
    var q := s.rq[p];
    assert q == [q[0]] + q[1..];
    assert multiset(q) == multiset{q[0]} + multiset(q[1..]);
    assert forall k :: 0 <= k < 4 && k != p ==> TakeHead(s, p).rq[k] == s.rq[k];
  }

  lemma TopIsNotEmpty(s: Vm)
    requires Wf(s) && SomeoneReady(s)
    ensures s.rq[TopLevel(s)] != []
  {
  }

  lemma EntriesBySchedule(b: Vm, t: nat)
    requires Wf(b) && Queued(b) && SomeoneReady(Requeue(b)) && Has(b, t)
    ensures var s1, r := Requeue(b), Schedule(b);
            && Has(r, t) && Has(s1, t)
            && Entries(r, t) == Entries(s1, t) - (if r.tr == t then 1 else 0)
            && (IsReady(r, t) <==> IsReady(s1, t) && r.tr != t)
  {
    var s1 := Requeue(b);
    TopIsNotEmpty(s1);
    EntriesByTake(s1, TopLevel(s1), t);
    var s2 := TakeHead(s1, TopLevel(s1));
    assert Entries(SetState(s2, s2.tr, Running), t) == Entries(s2, t);
    hide Wf, Queued, Requeue, TopLevel, Entries;
  }

  lemma EntriesByRequeue(b: Vm, t: nat)
    requires Wf(b) && Has(b, t)
    ensures var s1 := Requeue(b); var more := if b.thr[b.tr].state.Running? && b.tr == t then 1 else 0;
            Entries(s1, t) == Entries(b, t) + more && (IsReady(s1, t) <==> IsReady(b, t) || more == 1)
  {
    assert Has(b, b.tr);
    EntriesByMakeReady(b, b.tr, t);
    hide MakeReady, Entries, Wf;
  }

  lemma OnceBySchedule(b: Vm)
    requires Wf(b) && Queued(b) && Once(b) && SomeoneReady(Requeue(b))
    ensures Once(Schedule(b))
  {
    var r := Schedule(b);
    EntriesBySchedule(b, b.tr);
    HeadIsQueued(b);
    hide Wf, Queued, Schedule, Requeue, Entries;
    forall t | 0 <= t < |r.thr| ensures Right(r, t) {
      assert Right(b, t);
      EntriesByRequeue(b, t);
      EntriesBySchedule(b, t);
    }
  }

  lemma HeadIsQueued(b: Vm)
    requires Wf(b) && SomeoneReady(Requeue(b))
    ensures Has(b, Schedule(b).tr) && Entries(Requeue(b), Schedule(b).tr) > 0
  {
    var s1 := Requeue(b);
    TopIsNotEmpty(s1);
    var q := s1.rq[TopLevel(s1)];
    assert q[0] in q && q[0] in multiset(q) && QueueOk(s1, q);
    hide Wf, Requeue;
  }

  /** Queued twice, or while not ready: the scheduler leaves one entry too many. */
  lemma TwiceBySchedule(b: Vm, t: nat)
    requires Wf(b) && Queued(b) && SomeoneReady(Requeue(b)) && IsReady(b, t) && Entries(b, t) >= 2
    ensures !Once(Schedule(b))
  {
    EntriesByRequeue(b, t);
    EntriesBySchedule(b, t);
    hide Wf, Queued, Schedule, Requeue, Entries;
    assert !Right(Schedule(b), t);
  }

  // ---------- What an action queues ----------

  /** After the action everybody is queued rightly if it queues once, and somebody twice otherwise. */
  predicate OnceOrTwice(r: Vm, once: bool)
    requires Wf(r)
  {
    if once then Once(r) else exists t :: 0 <= t < |r.thr| && IsReady(r, t) && Entries(r, t) >= 2
  }

  lemma TimerQueues(s: Vm)
    requires Wf(s) && Once(s)
    ensures OnceOrTwice(Before(s, Timer), QueuesOnce(s, Timer))
  {
    var r := Before(s, Timer);
    assert r == TickFirst(s, |s.thr|);
    hide Wf, TickFirst, Entries;
    forall t | 0 <= t < |s.thr|
      ensures Entries(r, t) == Entries(s, t) + PushesOf(s.thr[t]) && r.thr[t] == Ticked(s.thr[t]) && Right(s, t)
    {
      EntriesByTicks(s, |s.thr|, t);
      TickEffect(s, |s.thr|, t);
    }
    if QueuesOnce(s, Timer) {
      forall t | 0 <= t < |r.thr| ensures Right(r, t) { }
    } else {
      var t :| 0 <= t < |s.thr| && Wakes(s.thr[t]) && s.thr[t].waiting.Some?;
      assert IsReady(r, t) && Entries(r, t) >= 2;
    }
  }

  lemma ReleaseQueues(s: Vm, m: nat, t: nat)
    requires Wf(s) && m in s.mtx && Has(s, t)
    ensures var r := ReleaseMutex(s, m);
            && Entries(r, t) == Entries(s, t) + (if Heads(s, m, t) then 1 else 0)
            && (IsReady(r, t) <==> IsReady(s, t) || Heads(s, m, t))
  {
    var q := s.mtx[m].queue;
    if q != [] {
      assert McbOk(s, s.mtx[m]) && q[0] in q && forall x :: x in q[1..] ==> x in q;
      var s1 := SetWaiting(SetMutex(s, m, Mcb(Some(q[0]), q[1..])), q[0], None);
      assert ReleaseMutex(s, m) == MakeReady(s1, q[0]) && s1.rq == s.rq;
      EntriesByMakeReady(s1, q[0], t);
      assert Entries(s1, t) == Entries(s, t) && (IsReady(s1, t) <==> IsReady(s, t));
      hide Wf, MakeReady, Entries, ReleaseMutex;
    }
  }

  lemma ReleaseHeldQueues(s: Vm, m: nat)
    requires Wf(s) && Once(s) && m in s.mtx && m in s.thr[s.tr].held && s.tr != IDLE
    ensures OnceOrTwice(Before(s, MutexRelease(m)), QueuesOnce(s, MutexRelease(m)))
  {
    var r := Before(s, MutexRelease(m));
    var u := ReleaseMutex(s, m);
    assert r.rq == u.rq && |r.thr| == |u.thr| == |s.thr|;
    assert forall t :: 0 <= t < |u.thr| ==> (IsReady(r, t) <==> IsReady(u, t));
    assert s.mtx[m].queue != [] ==> Has(s, s.mtx[m].queue[0]) by {
      assert McbOk(s, s.mtx[m]) && (s.mtx[m].queue != [] ==> s.mtx[m].queue[0] in s.mtx[m].queue);
    }
    assert forall t :: Entries(r, t) == Entries(u, t);
    hide Wf, ReleaseMutex, Before, Entries;
    forall t | 0 <= t < |s.thr|
      ensures Right(s, t) && Entries(u, t) == Entries(s, t) + (if Heads(s, m, t) then 1 else 0)
      ensures IsReady(u, t) <==> IsReady(s, t) || Heads(s, m, t)
    {
      ReleaseQueues(s, m, t);
    }
    if QueuesOnce(s, MutexRelease(m)) {
      forall t | 0 <= t < |r.thr| ensures Right(r, t) { assert IsReady(r, t) <==> IsReady(u, t); }
    } else {
      var t := s.mtx[m].queue[0];
      assert Heads(s, m, t) && IsReady(r, t) && Entries(r, t) >= 2;
    }
  }

  /** How many of the mutexes have t at the head of their queues. */
  function Handed(s: Vm, held: seq<nat>, t: nat): nat {
    if held == [] then 0
    else Handed(s, held[..|held| - 1], t) + if Heads(s, held[|held| - 1], t) then 1 else 0
  }

  lemma {:induction false} HandedSame(s: Vm, r: Vm, held: seq<nat>, t: nat)
    requires forall m :: m in held ==> (Heads(r, m, t) <==> Heads(s, m, t))
    ensures Handed(r, held, t) == Handed(s, held, t)
    decreases |held|
  {
    if held != [] {
      assert held == held[..|held| - 1] + [held[|held| - 1]];
      hide Heads;
      HandedSame(s, r, held[..|held| - 1], t);
    }
  }

  lemma {:induction false} HandedSome(s: Vm, held: seq<nat>, t: nat)
    requires NoDup(held)
    ensures Handed(s, held, t) >= 1 <==> exists m :: m in held && Heads(s, m, t)
    ensures Handed(s, held, t) >= 2 <==>
              exists m, k :: m in held && k in held && m != k && Heads(s, m, t) && Heads(s, k, t)
    decreases |held|
  {
    if held != [] {
      var m, h := held[|held| - 1], held[..|held| - 1];
      WithoutLast(held);
      hide Heads, NoDup;
      HandedSome(s, h, t);
    }
  }

  lemma {:induction false} ReleaseAllQueues(s: Vm, x: nat, t: nat)
    requires Wf(s) && Has(s, x) && Has(s, t) && NoDup(s.thr[x].held)
    ensures var r := ReleaseAll(s, x); var n := Handed(s, s.thr[x].held, t);
            Entries(r, t) == Entries(s, t) + n && (IsReady(r, t) <==> IsReady(s, t) || n > 0)
    decreases |s.thr[x].held|
  {
    var held := s.thr[x].held;
    if held == [] {
      assert ReleaseAll(s, x) == s;
    } else {
      var m, r := ReleaseAllStep(s, x);
      var h := held[..|held| - 1];
      WithoutLast(held);
      OneRelease(s, m, x, h, t);
      hide *;
      ReleaseAllQueues(r, x, t);
      HandedStep(s, r, held, m, t);
    }
  }

  lemma OneRelease(s: Vm, m: nat, x: nat, h: seq<nat>, t: nat)
    requires Wf(s) && m in s.mtx && Has(s, x) && Has(s, t) && forall k :: k in h ==> k in s.mtx && k != m
    ensures (forall k :: k in h ==> k in ReleaseMutex(s, m).mtx)
    ensures var r := SetHeld(ReleaseMutex(s, m), x, h);
            && Entries(r, t) == Entries(s, t) + (if Heads(s, m, t) then 1 else 0)
            && (IsReady(r, t) <==> IsReady(s, t) || Heads(s, m, t))
            && forall k :: k in h ==> (Heads(r, k, t) <==> Heads(s, k, t))
  {
    ReleaseMutexShape(s, m);
    ReleaseQueues(s, m, t);
    ReleaseLeavesOthers(s, m, h, x, t);
    hide Wf, ReleaseMutex;
  }

  lemma HandedStep(s: Vm, r: Vm, held: seq<nat>, m: nat, t: nat)
    requires held != [] && m == held[|held| - 1]
    requires forall k :: k in held[..|held| - 1] ==> (Heads(r, k, t) <==> Heads(s, k, t))
    ensures Handed(s, held, t) == Handed(r, held[..|held| - 1], t) + if Heads(s, m, t) then 1 else 0
  {
    HandedSame(s, r, held[..|held| - 1], t);
  }

  lemma EntriesByFlush(s: Vm, x: nat, t: nat)
    requires Wf(s) && Has(s, x)
    ensures t != x ==> Entries(FlushLevel(s, x), t) == Entries(s, t)
    ensures (forall p :: 0 <= p < 4 && p != s.thr[x].prio ==> x !in s.rq[p]) ==> Entries(FlushLevel(s, x), x) == 0
  {
    var p, r := s.thr[x].prio, FlushLevel(s, x);
    assert forall k :: 0 <= k < 4 && k != p ==> r.rq[k] == s.rq[k];
    if t != x { CountWithout(s.rq[p], x, t); }
    assert x !in r.rq[p];
  }

  lemma {:induction false} CountWithout(q: seq<nat>, x: nat, t: nat)
    requires t != x
    ensures multiset(Without(q, x))[t] == multiset(q)[t]
  {
    if q != [] {
      assert q == [q[0]] + q[1..];
      CountWithout(q[1..], x, t);
    }
  }

  lemma FinishQueues(s: Vm, x: nat, t: nat)
    requires Wf(s) && Queued(s) && Exclusive(s) && Has(s, x) && Has(s, t)
    ensures var r := Finish(s, x);
            if t == x then Entries(r, t) == 0
            else Entries(r, t) == Entries(s, t) + Handed(s, s.thr[x].held, t)
                 && (IsReady(r, t) <==> IsReady(s, t) || Handed(s, s.thr[x].held, t) > 0)
  {
    assert OwnsHeld(s, x);
    var s1 := SetState(s, x, Dead);
    var s2 := ReleaseAll(s1, x);
    FinishQueued(s, x);
    ReleaseAllQueues(s1, x, t);
    HandedSame(s, s1, s.thr[x].held, t);
    EntriesByFlush(s2, x, t);
    assert Entries(s1, t) == Entries(s, t) && (t != x ==> (IsReady(s1, t) <==> IsReady(s, t)));
    assert IsReady(FlushLevel(s2, x), t) <==> IsReady(s2, t);
    hide Wf, Queued, Exclusive, Entries, FlushLevel, ReleaseAll;
  }

  lemma FinishLeavesDead(s: Vm, x: nat)
    requires Wf(s) && Queued(s) && Exclusive(s) && Has(s, x) && x != IDLE
    ensures !IsReady(Finish(s, x), x)
  {
    DyingBegins(s, x);
    DyingKept(SetState(s, x, Dead), x);
    hide Wf, Queued, Exclusive, ReleaseAll;
  }

  lemma HandsOnceMeans(s: Vm, held: seq<nat>)
    requires Wf(s) && NoDup(held)
    ensures HandsOnce(s, held) <==>
              forall t :: 0 <= t < |s.thr| ==> Owed(s, held, t) <= 1
  {
    forall t: nat
      ensures Handed(s, held, t) >= 1 <==> exists m :: m in held && Heads(s, m, t)
      ensures Handed(s, held, t) >= 2 <==>
                exists m, k :: m in held && k in held && m != k && Heads(s, m, t) && Heads(s, k, t)
    {
      HandedSome(s, held, t);
    }
    HeadsExist(s);
    hide Handed, NoDup, Wf;
    if forall t :: 0 <= t < |s.thr| ==> Owed(s, held, t) <= 1 {
      forall m | m in held && HasWaiter(s, m) ensures !IsReady(s, s.mtx[m].queue[0]) {
        assert Heads(s, m, s.mtx[m].queue[0]) && Owed(s, held, s.mtx[m].queue[0]) <= 1;
      }
      forall m, k | m in held && k in held && m != k && HasWaiter(s, m) && HasWaiter(s, k)
        ensures s.mtx[m].queue[0] != s.mtx[k].queue[0]
      {
        assert Heads(s, m, s.mtx[m].queue[0]) && Heads(s, k, s.mtx[k].queue[0]);
        assert Owed(s, held, s.mtx[m].queue[0]) <= 1;
      }
    }
  }

  lemma HeadsExist(s: Vm)
    requires Wf(s)
    ensures forall m :: m in s.mtx && s.mtx[m].queue != [] ==> Has(s, s.mtx[m].queue[0])
  {
    forall m | m in s.mtx && s.mtx[m].queue != [] ensures Has(s, s.mtx[m].queue[0]) {
      assert McbOk(s, s.mtx[m]) && s.mtx[m].queue[0] in s.mtx[m].queue;
    }
  }

  /** What a thread is owed when all these mutexes are given up: its entry if it is ready, and one for each
      queue that it heads. */
  function Owed(s: Vm, held: seq<nat>, t: nat): nat {
    Handed(s, held, t) + if IsReady(s, t) then 1 else 0
  }

  lemma FinishRightIff(s: Vm, x: nat, t: nat)
    requires Wf(s) && Queued(s) && Exclusive(s) && Has(s, x) && x != IDLE && Has(s, t) && Right(s, t)
    ensures Owed(s, s.thr[x].held, t) <= 1 ==> Right(Finish(s, x), t)
    ensures Owed(s, s.thr[x].held, t) >= 2 ==> IsReady(Finish(s, x), t) && Entries(Finish(s, x), t) >= 2
  {
    FinishQueues(s, x, t);
    FinishLeavesDead(s, x);
    OwnHeads(s, x);
    hide Wf, Queued, Exclusive, Entries, Finish, Handed;
  }

  lemma TerminateQueues(s: Vm, x: nat)
    requires Wf(s) && Queued(s) && Exclusive(s) && Once(s) && s.tr != IDLE && x != IDLE
    requires Has(s, x) && !s.thr[x].state.Dead?
    ensures OnceOrTwice(Before(s, Terminate(x)), QueuesOnce(s, Terminate(x)))
  {
    var r, held := Finish(s, x), s.thr[x].held;
    assert OwnsHeld(s, x);
    assert Before(s, Terminate(x)) == r && (QueuesOnce(s, Terminate(x)) <==> HandsOnce(s, held));
    assert forall t :: 0 <= t < |s.thr| ==> Right(s, t);
    hide Wf, Queued, Exclusive, Entries, Finish, HandsOnce, Owed, Before, QueuesOnce, Right;
    HandsOnceMeans(s, held);
    if HandsOnce(s, held) {
      forall t | 0 <= t < |r.thr| ensures Right(r, t) { FinishRightIff(s, x, t); }
    } else {
      var t :| 0 <= t < |s.thr| && Owed(s, held, t) >= 2;
      FinishRightIff(s, x, t);
    }
  }

  /** A thread is in no queue of a mutex that it holds. */
  lemma OwnHeads(s: Vm, x: nat)
    requires Wf(s) && Exclusive(s) && Has(s, x)
    ensures Handed(s, s.thr[x].held, x) == 0
  {
    assert OwnsHeld(s, x);
    HandedSome(s, s.thr[x].held, x);
    hide Wf, Handed;
  }

  lemma OthersQueueOnce(s: Vm, a: Action)
    requires Wf(s) && Safe(s) && Once(s) && Enabled(s, a)
    requires !a.Timer? && !a.Terminate? && !a.MutexRelease?
    ensures Once(Before(s, a))
  {
    assert s.tr < |s.thr| && !IsReady(s, s.tr);
    match a {
      case FileDone(t, result) => AnswerQueuesOnce(s, t, result);
      case Activate(t) => if IsDead(s, t) { OnceByMakeReady(s, t); }
      case MutexAcquire(m, timeout) => AcquireQueuesNobody(s, m, timeout);
      case Sleep(tick) => SleepQueuesOnce(s, tick);
      case FileRequest(initial) => CallQueuesNobody(s, a);
      case Create(prio) => CallQueuesNobody(s, a);
      case MutexCreate => CallQueuesNobody(s, a);
      case MutexDelete(_) => CallQueuesNobody(s, a);
      case _ =>
    }
    hide Wf, Safe, Enabled, Once, MakeReady, Append, AddMutex, DropMutex, SendRequest, Answer, TryAcquire, Block;
  }

  lemma AnswerQueuesOnce(s: Vm, t: nat, result: int)
    requires Wf(s) && Once(s) && Has(s, t) && !IsReady(s, t)
    ensures Once(Answer(s, t, result))
  {
    var s1 := s.(thr := s.thr[t := s.thr[t].(cd := result)], io := s.io - multiset{t});
    assert Wf(s1) && Answer(s, t, result) == MakeReady(s1, t);
    hide Wf, MakeReady, Answer, Once;
    OnceBySame(s, s1);
    OnceByMakeReady(s1, t);
  }

  lemma AcquireQueuesNobody(s: Vm, m: nat, timeout: uint32)
    requires Wf(s) && Once(s) && Enabled(s, MutexAcquire(m, timeout)) && s.thr[s.tr].state.Running?
    ensures Once(Before(s, MutexAcquire(m, timeout)))
  {
    AcquireShape(s, m, timeout);
    hide Wf, Before, Once;
    OnceBySame(s, Before(s, MutexAcquire(m, timeout)));
  }

  lemma SleepQueuesOnce(s: Vm, tick: uint32)
    requires Wf(s) && Once(s) && s.tr != IDLE && s.thr[s.tr].state.Running?
    ensures Once(Before(s, Sleep(tick)))
  {
    assert Has(s, s.tr);
    OnceByMakeReady(s, s.tr);
    hide Wf, MakeReady, Once;
    OnceBySame(s, Block(s, ToInt(tick)));
  }

  lemma CallQueuesNobody(s: Vm, a: Action)
    requires Wf(s) && Once(s) && Enabled(s, a) && s.thr[s.tr].state.Running?
    requires a.FileRequest? || a.Create? || a.MutexCreate? || a.MutexDelete?
    ensures Once(Before(s, a))
  {
    assert Has(s, s.tr);
    hide Wf, Enabled, Once, Referenced;
    OnceBySame(s, Before(s, a));
  }

  // ---------- Steps and runs ----------

  lemma BeforeQueues(s: Vm, a: Action)
    requires Wf(s) && Safe(s) && Exclusive(s) && Once(s) && Enabled(s, a)
    ensures OnceOrTwice(Before(s, a), QueuesOnce(s, a))
  {
    match a {
      case Timer => TimerQueues(s);
      case MutexRelease(m) => if m in s.mtx && m in s.thr[s.tr].held { ReleaseHeldQueues(s, m); }
      case Terminate(x) => if Has(s, x) && !s.thr[x].state.Dead? { TerminateQueues(s, x); }
      case _ => OthersQueueOnce(s, a);
    }
    hide Wf, Queued, Exclusive, Once, HandsOnce, TickFirst, Finish, ReleaseHeld, TryAcquire;
  }

  /** A step keeps every ready thread queued once, and no other at all, exactly when it queues once. */
  lemma StepKeepsOnceIff(s: Vm, a: Action, r: Vm)
    requires Step(s, a, r) && Exclusive(s) && Safe(s) && Once(s)
    ensures Wf(r) && (Once(r) <==> QueuesOnce(s, a))
  {
    hide Before, Exclusive, Queued, Schedule, QueuesOnce, Once, Wf, Enabled;
    BeforeQueues(s, a);
    QueuedBefore(s, a);
    var b := Before(s, a);
    if Dispatches(s, a) {
      if QueuesOnce(s, a) {
        OnceBySchedule(b);
      } else {
        var t :| 0 <= t < |b.thr| && IsReady(b, t) && Entries(b, t) >= 2;
        TwiceBySchedule(b, t);
      }
    } else if !QueuesOnce(s, a) {
      var t :| 0 <= t < |b.thr| && IsReady(b, t) && Entries(b, t) >= 2;
      TwiceIsWrong(b, t);
    }
  }

  lemma TwiceIsWrong(s: Vm, t: nat)
    requires Wf(s) && IsReady(s, t) && Entries(s, t) >= 2
    ensures !Once(s)
  {
    assert !Right(s, t);
  }

  lemma WaiterNotScheduled(b: Vm, t: nat)
    requires Wf(b) && SomeoneReady(Requeue(b)) && Has(b, t) && b.thr[t].state.Waiting? && Entries(b, t) == 0
    ensures Schedule(b).thr[t] == b.thr[t]
  {
    HeadIsQueued(b);
    EntriesByRequeue(b, t);
    hide Wf, Entries;
  }

  /** A failed immediate acquire leaves `waiting` set.  If the thread then sleeps, its waking is taken for a
      timeout of the mutex wait, and queues it twice. */
  lemma StaleWaitingQueuesTwice(s: Vm, m: nat, r1: Vm, r2: Vm)
    requires Wf(s) && Safe(s) && Once(s) && m in s.mtx && m !in s.thr[s.tr].held && s.mtx[m].owner.Some?
    requires Step(s, MutexAcquire(m, IMMEDIATE), r1) && Step(r1, Sleep(1), r2)
    ensures !QueuesOnce(r2, Timer)
  {
    var t := s.tr;
    assert Has(s, t) && r1.tr == t && r1.rq == s.rq && r1.thr[t].waiting == Some(m);
    assert Right(s, t);
    var b := Before(r1, Sleep(1));
    assert b.thr[t].ticks == 1 && b.thr[t].state.Waiting? && b.thr[t].waiting == Some(m) && b.rq == s.rq;
    assert Entries(b, t) == 0;
    assert r2 == Schedule(b);
    hide Wf, Before, Entries, Once, Queued;
    WaiterNotScheduled(b, t);
    assert Wakes(r2.thr[t]) && r2.thr[t].waiting.Some?;
  }

  lemma InitialIsOnce(s: Vm)
    requires Initial(s)
    ensures Wf(s) && Once(s)
  {
    InitialIsSafe(s);
  }

  predicate OnceThroughout(ss: seq<Vm>) {
    forall n :: 0 <= n < |ss| ==> Wf(ss[n]) && Once(ss[n])
  }

  /** Every step of the run queues once. */
  predicate EveryStepQueuesOnce(ss: seq<Vm>, acts: seq<Action>) {
    && |ss| == |acts| + 1
    && forall n :: 0 <= n < |acts| ==> Wf(ss[n]) && QueuesOnce(ss[n], acts[n])
  }

  lemma {:induction false} OnceInRun(ss: seq<Vm>, acts: seq<Action>, n: nat)
    requires Run(ss, acts) && EveryStepQueuesOnce(ss, acts) && n < |ss|
    ensures Wf(ss[n]) && Once(ss[n])
  {
    if n == 0 {
      InitialIsOnce(ss[0]);
    } else {
      OnceInRun(ss, acts, n - 1);
      EveryRunIsSafe(ss, acts, n - 1);
      StepOf(ss, acts, n);
      assert QueuesOnce(ss[n - 1], acts[n - 1]);
      hide *;
      StepKeepsOnceIff(ss[n - 1], acts[n - 1], ss[n]);
    }
  }

  /** The runs of ReadyExactlyOnce are among these. */
  lemma RestrictedRunQueuesOnce(ss: seq<Vm>, acts: seq<Action>)
    requires RestrictedRun(ss, acts)
    ensures EveryStepQueuesOnce(ss, acts)
  {
    forall n | 0 <= n < |ss| ensures Wf(ss[n]) && Once(ss[n]) {
      EveryRestrictedRunIsJoint(ss, acts, n);
      forall t | 0 <= t < |ss[n].thr| ensures Right(ss[n], t) { ReadyExactlyOnce(ss, acts, n, t); }
    }
    OnceIff(ss, acts);
  }

  /** In every state of a run every ready thread is queued once and no other thread at all, if and only if
      every step of the run queues once. */
  lemma OnceIff(ss: seq<Vm>, acts: seq<Action>)
    requires Run(ss, acts)
    ensures OnceThroughout(ss) <==> EveryStepQueuesOnce(ss, acts)
  {
    if EveryStepQueuesOnce(ss, acts) {
      forall n | 0 <= n < |ss| ensures Wf(ss[n]) && Once(ss[n]) { OnceInRun(ss, acts, n); }
    } else {
      EveryRunIsSafe(ss, acts, 0);
      forall n | 0 <= n < |acts| ensures Wf(ss[n]) { EveryRunIsSafe(ss, acts, n); }
      var n :| 0 <= n < |acts| && !QueuesOnce(ss[n], acts[n]);
      EveryRunIsSafe(ss, acts, n);
      StepOf(ss, acts, n + 1);
      hide Path, Step, Exclusive, Safe, Once, QueuesOnce, Wf, EveryStepQueuesOnce;
      if Once(ss[n]) { StepKeepsOnceIff(ss[n], acts[n], ss[n + 1]); }
    }
  }
}
