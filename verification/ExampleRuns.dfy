/** Runs from the initial state that show where the obvious claims fail: a thread that is handed a mutex
    is its owner and is told that the acquire failed, a timed-out wait and a hand-off to a ready thread leave a
    running thread in a ready queue, and a thread that was terminated while it waited runs again. */
module ExampleRuns {
  import opened Basics
  import opened VmState
  import opened HandOff

  const MAIN_THREAD: Tcb := Tcb(NORMAL, Running, 0, 0, None, [])
  const IDLE_THREAD: Tcb := Tcb(NIL, Ready, -1, -5, None, [])
  const WORKER: Tcb := Tcb(HIGH, Dead, -1, -5, None, [])
  const MAIN_HOLDING: Tcb := MAIN_THREAD.(held := [0])

  const CREATED: Vm := Vm(0, [MAIN_THREAD, IDLE_THREAD], [[1], [], [], []], map[0 := Mcb(None, [])], 1, multiset{})
  const LOCKED: Vm := CREATED.(thr := [MAIN_HOLDING, IDLE_THREAD], mtx := map[0 := Mcb(Some(0), [])])
  const FORKED: Vm := LOCKED.(thr := [MAIN_HOLDING, IDLE_THREAD, WORKER])
  const ACTIVATED: Vm := FORKED.(thr := [MAIN_HOLDING, IDLE_THREAD, WORKER.(state := Ready)], rq := [[1], [], [], [2]])
  const SWITCHED: Vm := ACTIVATED.(tr := 2, rq := [[1], [], [0], []],
    thr := [MAIN_HOLDING.(state := Ready), IDLE_THREAD, WORKER.(state := Running)])

  function Blocked(timeout: uint32): Vm {
    SWITCHED.(tr := 0, rq := [[1], [], [], []], mtx := map[0 := Mcb(Some(0), [2])],
      thr := [MAIN_HOLDING, IDLE_THREAD, WORKER.(state := Waiting, ticks := ToInt(timeout), waiting := Some(0))])
  }

  const HANDED_OVER: Vm := SWITCHED.(rq := [[1], [], [0], []], mtx := map[0 := Mcb(Some(2), [])],
    thr := [MAIN_THREAD.(state := Ready), IDLE_THREAD, WORKER.(state := Running, ticks := 0)])

  const TIMED_OUT: Vm := SWITCHED.(rq := [[1], [], [0], [2]], mtx := map[0 := Mcb(Some(0), [])],
    thr := [MAIN_HOLDING.(state := Ready, ticks := -5), IDLE_THREAD.(ticks := -5),
        WORKER.(state := Running, ticks := 0)])

  function Start(): Vm {
    Vm(0, [MAIN_THREAD, IDLE_THREAD], [[1], [], [], []], map[], 0, multiset{})
  }

  function States(timeout: uint32): seq<Vm> {
    [Start(), CREATED, LOCKED, FORKED, ACTIVATED, SWITCHED, Blocked(timeout)]
  }

  function Actions(timeout: uint32): seq<Action> {
    [MutexCreate, MutexAcquire(0, INFINITE), Create(HIGH), Activate(2), Yield, MutexAcquire(0, timeout)]
  }

  lemma Create0()
    ensures Step(Start(), MutexCreate, CREATED)
  {
  }

  lemma Lock0()
    ensures Step(CREATED, MutexAcquire(0, INFINITE), LOCKED)
  {
    assert [] + [0] == [0];
    assert [MAIN_THREAD, IDLE_THREAD][0 := MAIN_HOLDING] == [MAIN_HOLDING, IDLE_THREAD];
    assert Before(CREATED, MutexAcquire(0, INFINITE)).thr == LOCKED.thr;
  }

  lemma Fork2()
    ensures Step(LOCKED, Create(HIGH), FORKED)
  {
  }

  lemma SetUp()
    ensures Step(Start(), MutexCreate, CREATED)
    ensures Step(CREATED, MutexAcquire(0, INFINITE), LOCKED)
    ensures Step(LOCKED, Create(HIGH), FORKED)
  {
    hide *;
    Create0();
    Lock0();
    Fork2();
  }

  lemma Activate2()
    ensures Step(FORKED, Activate(2), ACTIVATED)
  {
    assert [] + [2] == [2];
    assert Before(FORKED, Activate(2)).rq == ACTIVATED.rq;
    assert Before(FORKED, Activate(2)).thr == ACTIVATED.thr;
  }

  lemma Switch()
    ensures Step(ACTIVATED, Yield, SWITCHED)
  {
    var s1 := Requeue(ACTIVATED);
    assert [] + [0] == [0] && [2][1..] == [];
    assert s1.rq == [[1], [], [0], [2]];
    assert s1.rq[3] != [] && TopLevel(s1) == 3;
    assert Schedule(ACTIVATED).rq == SWITCHED.rq && Schedule(ACTIVATED).thr == SWITCHED.thr;
  }

  lemma Block2(timeout: uint32)
    requires timeout != IMMEDIATE
    ensures Step(SWITCHED, MutexAcquire(0, timeout), Blocked(timeout))
  {
    var a := MutexAcquire(0, timeout);
    var b := Before(SWITCHED, a);
    assert [] + [2] == [2] && [0][1..] == [];
    assert b.thr == [MAIN_HOLDING.(state := Ready), IDLE_THREAD,
           WORKER.(state := Waiting, ticks := ToInt(timeout), waiting := Some(0))];
    assert b.mtx == map[0 := Mcb(Some(0), [2])];
    assert Requeue(b) == b && b.rq == [[1], [], [0], []];
    assert b.rq[2] != [] && TopLevel(b) == 2;
    hide TryAcquire, Block;
    assert Schedule(b).rq == Blocked(timeout).rq && Schedule(b).thr == Blocked(timeout).thr;
  }

  const HANDING: Vm := SWITCHED.(tr := 0, rq := [[1], [], [], [2]], mtx := map[0 := Mcb(Some(2), [])],
    thr := [MAIN_THREAD, IDLE_THREAD, WORKER.(state := Ready, ticks := 0)])

  /** Handing mutex 0 to thread 2, which is waiting or dead in state `st`. */
  function Giving(st: RunState): Vm {
    Blocked(INFINITE).(
      thr := [MAIN_HOLDING, IDLE_THREAD, WORKER.(state := st, ticks := 0, waiting := Some(0))])
  }

  const GIVEN: Vm := HANDING.(thr := [MAIN_HOLDING, IDLE_THREAD, WORKER.(state := Ready, ticks := 0)])

  lemma HandsToTwo(st: RunState)
    ensures Wf(Giving(st)) && ReleaseMutex(Giving(st), 0) == GIVEN
  {
    var s := Giving(st);
    assert [2][1..] == [] && [] + [2] == [2];
    var r := ReleaseMutex(s, 0);
    assert r.mtx == GIVEN.mtx && r.rq == GIVEN.rq && r.thr == GIVEN.thr;
  }

  lemma ReleaseToTwo(st: RunState)
    ensures Wf(Giving(st)) && Enabled(Giving(st), MutexRelease(0)) && Dispatches(Giving(st), MutexRelease(0))
    ensures Before(Giving(st), MutexRelease(0)) == HANDING
  {
    var s := Giving(st);
    HandsToTwo(st);
    hide ReleaseMutex, Wf;
    assert s.thr[0].held == [0] && GIVEN.thr[0].held == [0] && IndexOf([0], 0) == 0;
    assert EraseAt([0], 0) == [];
    assert GIVEN.thr[0 := MAIN_THREAD] == HANDING.thr;
  }

  lemma HandingSchedules()
    ensures Wf(HANDING) && SomeoneReady(Requeue(HANDING)) && Schedule(HANDING) == HANDED_OVER
  {
    var b := HANDING;
    assert [] + [0] == [0] && [2][1..] == [];
    assert Requeue(b).rq == [[1], [], [0], [2]] && Requeue(b).rq[3] != [] && TopLevel(Requeue(b)) == 3;
    assert Schedule(b).rq == HANDED_OVER.rq && Schedule(b).thr == HANDED_OVER.thr;
  }

  lemma HandOver()
    ensures Step(Blocked(INFINITE), MutexRelease(0), HANDED_OVER)
  {
    assert Blocked(INFINITE) == Giving(Waiting);
    ReleaseToTwo(Waiting);
    HandingSchedules();
    hide Blocked, Giving, Before, Schedule, Enabled, Dispatches;
  }

  const WAKING: Vm := SWITCHED.(tr := 0, rq := [[1], [], [], [2, 2]], mtx := map[0 := Mcb(Some(0), [])],
    thr := [MAIN_HOLDING.(ticks := -5), IDLE_THREAD.(ticks := -5), WORKER.(state := Ready, ticks := 0)])

  const TICKING: Vm := Blocked(1).(thr := [MAIN_HOLDING.(ticks := -5), IDLE_THREAD.(ticks := -5),
                                           WORKER.(state := Waiting, ticks := 1, waiting := Some(0))])

  lemma TickOthers()
    ensures Wf(Blocked(1)) && TickFirst(Blocked(1), 2) == TICKING
  {
    var s := Blocked(1);
    var t1 := Tick(s, 0);
    assert TickFirst(s, 0) == s && TickFirst(s, 1) == t1 && TickFirst(s, 2) == Tick(t1, 1);
    assert Tick(t1, 1).thr == TICKING.thr;
  }

  const TIMING_OUT: Vm := TICKING.(
    thr := [MAIN_HOLDING.(ticks := -5), IDLE_THREAD.(ticks := -5),
            WORKER.(state := Ready, ticks := 0, waiting := Some(0))])

  lemma WaiterTimesOut()
    ensures Wf(TIMING_OUT) && WaitTimeout(TIMING_OUT, 2, 0) == WAKING.(rq := [[1], [], [], [2]])
  {
    assert Without([2], 2) == [] by { assert [2][1..] == []; }
    assert [] + [2] == [2];
    var r := WaitTimeout(TIMING_OUT, 2, 0);
    assert r.rq == [[1], [], [], [2]] && r.mtx == WAKING.mtx && r.thr == WAKING.thr;
  }

  lemma TickWaiter()
    ensures Wf(TICKING) && Tick(TICKING, 2) == WAKING
  {
    assert SetState(SetTicks(TICKING, 2, 0), 2, Ready) == TIMING_OUT;
    WaiterTimesOut();
    hide WaitTimeout;
    assert [2] + [2] == [2, 2];
  }

  lemma TimeOut()
    ensures Step(Blocked(1), Timer, TIMED_OUT)
  {
    hide Tick;
    TickOthers();
    TickWaiter();
    var s := Blocked(1);
    assert |s.thr| == 3 && TickFirst(s, 3) == WAKING;
    assert Before(s, Timer) == WAKING;
    var b := WAKING;
    assert [] + [0] == [0] && [2, 2][1..] == [2];
    assert Requeue(b).rq == [[1], [], [0], [2, 2]] && Requeue(b).rq[3] != [] && TopLevel(Requeue(b)) == 3;
    assert Schedule(b).rq == TIMED_OUT.rq && Schedule(b).thr == TIMED_OUT.thr;
  }

  lemma RunToBlocked(timeout: uint32)
    requires timeout != IMMEDIATE
    ensures Run(States(timeout), Actions(timeout))
  {
    hide Step;
    SetUp();
    Activate2();
    Switch();
    Block2(timeout);
  }

  lemma RunGoesOn(ss: seq<Vm>, acts: seq<Action>, a: Action, r: Vm)
    requires Run(ss, acts) && Step(ss[|ss| - 1], a, r)
    ensures Run(ss + [r], acts + [a])
  {
    hide Step, Initial;
  }

  /** The thread that is handed the mutex is its owner when its acquire reports failure, cannot release
      it, and no later step of any kind ever frees it. */
  lemma OwnerIsToldFailure()
    ensures var ss := States(INFINITE) + [HANDED_OVER]; var acts := Actions(INFINITE) + [MutexRelease(0)];
            && Run(ss, acts)
            && ss[7].tr == 2
            && ss[7].mtx[0].owner == Some(2)
            && !ReportsSuccess(ss[7], 2, 0)
            && Stranded(ss[7], 0, 2)
  {
    hide Run, Step, Before, Blocked;
    HandOver();
    RunToBlocked(INFINITE);
    RunGoesOn(States(INFINITE), Actions(INFINITE), MutexRelease(0), HANDED_OVER);
  }

  /** With a timeout of one tick the run leaves the running thread in the queue of its level, so the
      claim of ReadyExactlyOnce needs its restriction. */
  lemma TimeoutLeavesRunningThreadQueued()
    ensures var ss := States(1) + [TIMED_OUT]; var acts := Actions(1) + [Timer];
            && Run(ss, acts)
            && ss[7].tr == 2
            && ss[7].thr[2].state.Running?
            && 2 in ss[7].rq[HIGH]
  {
    hide Run, Step, Before, Blocked;
    TimeOut();
    RunToBlocked(1);
    RunGoesOn(States(1), Actions(1), Timer, TIMED_OUT);
  }

  const KILLED: Vm := Blocked(INFINITE).(
    thr := [MAIN_HOLDING, IDLE_THREAD, WORKER.(ticks := 0, waiting := Some(0))])

  lemma FinishTwo()
    ensures Wf(Blocked(INFINITE)) && Finish(Blocked(INFINITE), 2) == KILLED.(tr := 0)
  {
    assert Without([], 2) == [];
    var r := Finish(Blocked(INFINITE), 2);
    assert r.thr == KILLED.thr && r.rq == [[1], [], [], []];
  }

  lemma KillingSchedules()
    ensures Wf(KILLED) && SomeoneReady(Requeue(KILLED)) && Schedule(KILLED) == KILLED
  {
    assert [] + [0] == [0] && [0][1..] == [];
    var q := Requeue(KILLED);
    assert q.rq == [[1], [], [0], []] && q.rq[2] != [] && TopLevel(q) == 2;
    assert Schedule(KILLED).rq == KILLED.rq && Schedule(KILLED).thr == KILLED.thr;
  }

  lemma Kill2()
    ensures Step(Blocked(INFINITE), Terminate(2), KILLED)
  {
    FinishTwo();
    KillingSchedules();
    hide Finish, Schedule, Requeue, Wf;
  }

  lemma ReviveTwo()
    ensures Step(KILLED, MutexRelease(0), HANDED_OVER)
  {
    assert KILLED == Giving(Dead);
    ReleaseToTwo(Dead);
    HandingSchedules();
    hide Blocked, Giving, Before, Schedule, Enabled, Dispatches;
  }

  /** A thread that is terminated while it waits for a mutex runs again after the mutex is released. */
  lemma DeadThreadRunsAgain()
    ensures var ss := States(INFINITE) + [KILLED] + [HANDED_OVER];
            var acts := Actions(INFINITE) + [Terminate(2)] + [MutexRelease(0)];
            && Run(ss, acts)
            && ss[7].thr[2].state.Dead?
            && ss[8].tr == 2 && ss[8].thr[2].state.Running?
  {
    hide Run, Step, Before, Blocked;
    Kill2();
    ReviveTwo();
    RunToBlocked(INFINITE);
    RunGoesOn(States(INFINITE), Actions(INFINITE), Terminate(2), KILLED);
    RunGoesOn(States(INFINITE) + [KILLED], Actions(INFINITE) + [Terminate(2)], MutexRelease(0), HANDED_OVER);
  }

  const REACTIVATED: Vm := KILLED.(
    rq := [[1], [], [], [2]],
    thr := [MAIN_HOLDING, IDLE_THREAD, WORKER.(state := Ready, ticks := 0, waiting := Some(0))])

  const HANDED_TWICE: Vm := HANDED_OVER.(rq := [[1], [], [0], [2]])

  lemma Reactivate2()
    ensures Step(KILLED, Activate(2), REACTIVATED)
  {
    assert [] + [2] == [2];
    var b := Before(KILLED, Activate(2));
    assert b.rq == REACTIVATED.rq && b.thr == REACTIVATED.thr;
  }

  const TWICE: Vm := HANDING.(rq := [[1], [], [], [2, 2]])

  lemma ReleaseToReady()
    ensures Wf(REACTIVATED) && Enabled(REACTIVATED, MutexRelease(0)) && Dispatches(REACTIVATED, MutexRelease(0))
    ensures Before(REACTIVATED, MutexRelease(0)) == TWICE
  {
    var s := REACTIVATED;
    assert [2][1..] == [] && [2] + [2] == [2, 2];
    var r := ReleaseMutex(s, 0);
    assert r == GIVEN.(rq := TWICE.rq) by {
      assert r.mtx == GIVEN.mtx && r.rq == TWICE.rq && r.thr == GIVEN.thr;
    }
    hide ReleaseMutex, Wf;
    assert s.thr[0].held == [0] && IndexOf([0], 0) == 0 && EraseAt([0], 0) == [];
    assert GIVEN.thr[0 := MAIN_THREAD] == HANDING.thr;
  }

  lemma TwiceSchedules()
    ensures Wf(TWICE) && SomeoneReady(Requeue(TWICE)) && Schedule(TWICE) == HANDED_TWICE
  {
    assert [] + [0] == [0] && [2, 2][1..] == [2];
    var q := Requeue(TWICE);
    assert q.rq == [[1], [], [0], [2, 2]] && q.rq[3] != [] && TopLevel(q) == 3;
    assert Schedule(TWICE).rq == HANDED_TWICE.rq && Schedule(TWICE).thr == HANDED_TWICE.thr;
  }

  lemma QueueTwice()
    ensures Step(REACTIVATED, MutexRelease(0), HANDED_TWICE)
  {
    ReleaseToReady();
    TwiceSchedules();
    hide Before, Schedule, Enabled, Dispatches, Requeue;
  }

  /** Without any timeout: a waiter that is terminated and activated again is ready when it is handed the mutex,
      so it is queued twice, and still queued when it runs. */
  lemma ReleaseLeavesRunningThreadQueued()
    ensures var ss := States(INFINITE) + [KILLED] + [REACTIVATED] + [HANDED_TWICE];
            var acts := Actions(INFINITE) + [Terminate(2)] + [Activate(2)] + [MutexRelease(0)];
            && Run(ss, acts)
            && ss[9].tr == 2 && ss[9].thr[2].state.Running? && 2 in ss[9].rq[HIGH]
  {
    hide Run, Step, Before, Blocked;
    Kill2();
    Reactivate2();
    QueueTwice();
    RunToBlocked(INFINITE);
    RunGoesOn(States(INFINITE), Actions(INFINITE), Terminate(2), KILLED);
    RunGoesOn(States(INFINITE) + [KILLED], Actions(INFINITE) + [Terminate(2)], Activate(2), REACTIVATED);
    RunGoesOn(States(INFINITE) + [KILLED] + [REACTIVATED], Actions(INFINITE) + [Terminate(2)] + [Activate(2)],
              MutexRelease(0), HANDED_TWICE);
  }
}
