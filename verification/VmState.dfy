/** The state of the virtual machine's scheduler as a value, and every atomic step as a function of
    that value.  Threads and mutexes are named by their ids.  A step is one VM call up to its call of
    `scheduler()`, one timer interrupt, or one file callback.  The classes in VmObjects.dfy are
    proved to compute exactly these functions. */
module VmState {
  import opened Basics

  const NIL: nat := 0
  const NORMAL: nat := 2
  const HIGH: nat := 3

  const INFINITE: uint32 := 0
  const IMMEDIATE: uint32 := 0xFFFF_FFFF

  const MAIN: nat := 0
  const IDLE: nat := 1

  datatype RunState = Dead | Running | Ready | Waiting

  datatype AcquireCode = Success | Wait | Unnecessary

  datatype Tcb = Tcb(prio: nat, state: RunState, ticks: int, cd: int, waiting: Option<nat>, held: seq<nat>)

  datatype Mcb = Mcb(owner: Option<nat>, queue: seq<nat>)

  /** `io` counts the file requests that were sent for a thread and not yet answered. */
  datatype Vm = Vm(tr: nat, thr: seq<Tcb>, rq: seq<seq<nat>>, mtx: map<nat, Mcb>, nextMid: nat, io: multiset<nat>)

  datatype Action =
    | Timer
    | FileDone(thread: nat, result: int)
    | FileRequest(initial: int)
    | Yield
    | Create(prio: nat)
    | Activate(thread: nat)
    | Terminate(thread: nat)
    | Sleep(tick: uint32)
    | MutexCreate
    | MutexAcquire(mutex: nat, timeout: uint32)
    | MutexRelease(mutex: nat)
    | MutexDelete(mutex: nat)

  // ---------- Shape ----------

  predicate QueueOk(s: Vm, q: seq<nat>) {
    forall x :: x in q ==> x < |s.thr|
  }

  predicate TcbOk(s: Vm, c: Tcb) {
    && c.prio < 4
    && (c.waiting.Some? ==> c.waiting.value in s.mtx)
    && forall m :: m in c.held ==> m in s.mtx
  }

  predicate McbOk(s: Vm, m: Mcb) {
    && (m.owner.Some? ==> m.owner.value < |s.thr|)
    && QueueOk(s, m.queue)
  }

  /** Every index in the state refers to something that exists. */
  predicate Wf(s: Vm) {
    && |s.rq| == 4
    && IDLE < |s.thr|
    && s.tr < |s.thr|
    && (forall t :: 0 <= t < |s.thr| ==> TcbOk(s, s.thr[t]))
    && (forall p :: 0 <= p < 4 ==> QueueOk(s, s.rq[p]))
    && (forall m :: m in s.mtx ==> m < s.nextMid && McbOk(s, s.mtx[m]))
  }

  predicate Has(s: Vm, t: nat) {
    t < |s.thr|
  }

  // ---------- Queues ----------

  /** The queue without any entry for x. */
  function Without(q: seq<nat>, x: nat): (r: seq<nat>)
    ensures forall y :: y in r <==> y in q && y != x
  {
    if q == [] then []
    else if q[0] == x then Without(q[1..], x)
    else [q[0]] + Without(q[1..], x)
  }

  // ---------- Thread.cpp and Mutex.cpp ----------

  function Push(s: Vm, t: nat): (r: Vm)
    requires Wf(s) && Has(s, t)
    ensures Wf(r) && |r.thr| == |s.thr|
  {
    var p := s.thr[t].prio;
    s.(rq := s.rq[p := s.rq[p] + [t]])
  }

  function SetState(s: Vm, t: nat, st: RunState): (r: Vm)
    requires Wf(s) && Has(s, t)
    ensures Wf(r) && |r.thr| == |s.thr|
  {
    s.(thr := s.thr[t := s.thr[t].(state := st)])
  }

  function SetTicks(s: Vm, t: nat, n: int): (r: Vm)
    requires Wf(s) && Has(s, t)
    ensures Wf(r) && |r.thr| == |s.thr|
  {
    s.(thr := s.thr[t := s.thr[t].(ticks := n)])
  }

  function SetWaiting(s: Vm, t: nat, w: Option<nat>): (r: Vm)
    requires Wf(s) && Has(s, t)
    requires w.Some? ==> w.value in s.mtx
    ensures Wf(r) && |r.thr| == |s.thr|
  {
    s.(thr := s.thr[t := s.thr[t].(waiting := w)])
  }

  function SetHeld(s: Vm, t: nat, h: seq<nat>): (r: Vm)
    requires Wf(s) && Has(s, t)
    requires forall m :: m in h ==> m in s.mtx
    ensures Wf(r) && |r.thr| == |s.thr|
  {
    s.(thr := s.thr[t := s.thr[t].(held := h)])
  }

  function SetMutex(s: Vm, m: nat, c: Mcb): (r: Vm)
    requires Wf(s) && m in s.mtx && McbOk(s, c)
    ensures Wf(r) && |r.thr| == |s.thr|
  {
    s.(mtx := s.mtx[m := c])
  }

  function MakeReady(s: Vm, t: nat): (r: Vm)
    requires Wf(s) && Has(s, t)
    ensures Wf(r) && |r.thr| == |s.thr|
  {
    Push(SetState(s, t, Ready), t)
  }

  /** `stopWaiting`: forget the mutex and become ready; the tick count is not touched. */
  function StopWaiting(s: Vm, t: nat): (r: Vm)
    requires Wf(s) && Has(s, t)
    ensures Wf(r) && |r.thr| == |s.thr|
  {
    MakeReady(SetWaiting(s, t, None), t)
  }

  /** `Mutex::release`: hand the mutex to the head of its queue, or leave it without owner. */
  function ReleaseMutex(s: Vm, m: nat): (r: Vm)
    requires Wf(s) && m in s.mtx
    ensures Wf(r) && |r.thr| == |s.thr|
  {
    var q := s.mtx[m].queue;
    if q == [] then SetMutex(s, m, Mcb(None, []))
    else
      assert McbOk(s, s.mtx[m]) && q[0] in q && forall x :: x in q[1..] ==> x in q;
      StopWaiting(SetMutex(s, m, Mcb(Some(q[0]), q[1..])), q[0])
  }

  function IndexOf(q: seq<nat>, x: nat): (i: nat)
    requires x in q
    ensures i < |q| && q[i] == x && x !in q[..i]
  {
    if q[0] == x then 0 else
      assert q == [q[0]] + q[1..];
      1 + IndexOf(q[1..], x)
  }

  function EraseAt(q: seq<nat>, i: nat): (r: seq<nat>)
    requires i < |q|
    ensures forall y :: y in r ==> y in q
  {
    q[..i] + q[i + 1..]
  }

  function ReleaseHeld(s: Vm, t: nat, m: nat): (r: Vm)
    requires Wf(s) && Has(s, t) && m in s.thr[t].held
    ensures Wf(r) && |r.thr| == |s.thr|
  {
    var s1 := ReleaseMutex(s, m);
    SetHeld(s1, t, EraseAt(s1.thr[t].held, IndexOf(s1.thr[t].held, m)))
  }

  /** `releaseAllMutex`: release from the back of the held list until it is empty. */
  function ReleaseAll(s: Vm, t: nat): (r: Vm)
    requires Wf(s) && Has(s, t)
    ensures Wf(r) && |r.thr| == |s.thr|
    decreases |s.thr[t].held|
  {
    var h := s.thr[t].held;
    if h == [] then s else
      var s1 := ReleaseMutex(s, h[|h| - 1]);
      ReleaseAll(SetHeld(s1, t, h[..|h| - 1]), t)
  }

  /** `waitTimeout`: leave the queue of the mutex, then stop waiting. */
  function WaitTimeout(s: Vm, t: nat, m: nat): (r: Vm)
    requires Wf(s) && Has(s, t) && m in s.mtx
    ensures Wf(r) && |r.thr| == |s.thr|
  {
    StopWaiting(SetMutex(s, m, s.mtx[m].(queue := Without(s.mtx[m].queue, t))), t)
  }

  /** `decrementTicks`: a waiting thread whose count reaches zero becomes ready; when it was also
      waiting for a mutex it is queued once by `waitTimeout` and once more here. */
  function Tick(s: Vm, t: nat): (r: Vm)
    requires Wf(s) && Has(s, t)
    ensures Wf(r) && |r.thr| == |s.thr|
  {
    var c := s.thr[t];
    var n := c.ticks - 1;
    var s1 := SetTicks(s, t, if n < 0 then -5 else n);
    if n == 0 && c.state.Waiting? then
      var s2 := SetState(s1, t, Ready);
      if c.waiting.Some? then Push(WaitTimeout(s2, t, c.waiting.value), t) else Push(s2, t)
    else
      s1
  }

  /** The first n threads have had their tick. */
  function TickFirst(s: Vm, n: nat): (r: Vm)
    requires Wf(s) && n <= |s.thr|
    ensures Wf(r) && |r.thr| == |s.thr|
  {
    if n == 0 then s else Tick(TickFirst(s, n - 1), n - 1)
  }

  /** `Mutex::acquire` and `Thread::acquireMutex` together. */
  function TryAcquire(s: Vm, t: nat, m: nat, timeout: uint32): (r: (Vm, AcquireCode))
    requires Wf(s) && Has(s, t) && m in s.mtx
    ensures Wf(r.0)
  {
    var s1 := SetWaiting(s, t, None);
    var c := s.mtx[m];
    if m in s.thr[t].held then (s1, Unnecessary)
    else if c.owner.None? then
      (SetHeld(SetMutex(s1, m, c.(owner := Some(t))), t, s.thr[t].held + [m]), Success)
    else
      var q := if t !in c.queue && timeout != IMMEDIATE then c.queue + [t] else c.queue;
      (SetWaiting(SetMutex(s1, m, c.(queue := q)), t, Some(m)), Wait)
  }

  // ---------- VirtualMachine.cpp ----------

  /** An unsigned tick count stored in the signed field of a thread. */
  function ToInt(x: uint32): int {
    if x < 0x8000_0000 then x else x - 0x1_0000_0000
  }

  /** The level `scheduler` takes its next thread from. */
  function TopLevel(s: Vm): (p: nat)
    requires Wf(s)
    ensures p < 4
    ensures forall q :: p < q < 4 ==> s.rq[q] == []
    ensures p > 0 ==> s.rq[p] != []
  {
    if s.rq[3] != [] then 3 else if s.rq[2] != [] then 2 else if s.rq[1] != [] then 1 else 0
  }

  /** A preempted thread goes back to the end of its level. */
  function Requeue(s: Vm): (r: Vm)
    requires Wf(s)
    ensures Wf(r) && |r.thr| == |s.thr|
  {
    if s.thr[s.tr].state.Running? then MakeReady(s, s.tr) else s
  }

  predicate SomeoneReady(s: Vm)
    requires Wf(s)
  {
    exists p :: 0 <= p < 4 && s.rq[p] != []
  }

  /** Remove the head of level p and make it the current thread. */
  function TakeHead(s: Vm, p: nat): (r: Vm)
    requires Wf(s) && p < 4 && s.rq[p] != []
    ensures Wf(r) && |r.thr| == |s.thr| && r.tr == s.rq[p][0]
  {
    var q := s.rq[p];
    assert QueueOk(s, q) && q[0] in q && forall x :: x in q[1..] ==> x in q;
    s.(rq := s.rq[p := q[1..]], tr := q[0])
  }

  /** `scheduler`: requeue the old thread, then run the head of the highest non-empty level. */
  function Schedule(s: Vm): (r: Vm)
    requires Wf(s) && SomeoneReady(Requeue(s))
    ensures Wf(r) && |r.thr| == |s.thr|
  {
    var s1 := Requeue(s);
    var s2 := TakeHead(s1, TopLevel(s1));
    SetState(s2, s2.tr, Running)
  }

  /** Removes every entry of a thread from its level. */
  function FlushLevel(s: Vm, t: nat): (r: Vm)
    requires Wf(s) && Has(s, t)
    ensures Wf(r) && |r.thr| == |s.thr|
  {
    var p := s.thr[t].prio;
    s.(rq := s.rq[p := Without(s.rq[p], t)])
  }

  function Finish(s: Vm, t: nat): (r: Vm)
    requires Wf(s) && Has(s, t)
    ensures Wf(r) && |r.thr| == |s.thr|
  {
    FlushLevel(ReleaseAll(SetState(s, t, Dead), t), t)
  }

  function Append(s: Vm, prio: nat): (r: Vm)
    requires Wf(s) && prio < 4
    ensures Wf(r)
  {
    s.(thr := s.thr + [Tcb(prio, Dead, -1, -5, None, [])])
  }

  function AddMutex(s: Vm): (r: Vm)
    requires Wf(s)
    ensures Wf(r)
  {
    s.(mtx := s.mtx[s.nextMid := Mcb(None, [])], nextMid := s.nextMid + 1)
  }

  predicate Referenced(s: Vm, m: nat) {
    exists t :: 0 <= t < |s.thr| && (s.thr[t].waiting == Some(m) || m in s.thr[t].held)
  }

  function DropMutex(s: Vm, m: nat): (r: Vm)
    requires Wf(s) && !Referenced(s, m)
    ensures Wf(r)
  {
    s.(mtx := map k | k in s.mtx && k != m :: s.mtx[k])
  }

  function Block(s: Vm, ticks: int): (r: Vm)
    requires Wf(s)
    ensures Wf(r) && |r.thr| == |s.thr|
  {
    SetState(SetTicks(s, s.tr, ticks), s.tr, Waiting)
  }

  function SendRequest(s: Vm, initial: int): (r: Vm)
    requires Wf(s)
    ensures Wf(r) && |r.thr| == |s.thr|
  {
    var c := s.thr[s.tr];
    s.(thr := s.thr[s.tr := c.(cd := initial, state := Waiting)], io := s.io + multiset{s.tr})
  }

  function Answer(s: Vm, t: nat, result: int): (r: Vm)
    requires Wf(s) && Has(s, t)
    ensures Wf(r) && |r.thr| == |s.thr|
  {
    MakeReady(s.(thr := s.thr[t := s.thr[t].(cd := result)], io := s.io - multiset{t}), t)
  }

  /** When an action can happen.  Calls are made by the running thread, which is never the idle
      thread: that one only spins.  A file callback spins until its thread waits.  Deleting a mutex that a
      thread still points to would leave a dangling pointer and is not a step of this model. */
  predicate Enabled(s: Vm, a: Action)
    requires Wf(s)
  {
    match a
    case Timer => true
    case FileDone(t, _) => Has(s, t) && t in s.io && s.thr[t].state.Waiting?
    case Create(prio) => s.tr != IDLE && prio < 4
    case Terminate(t) => s.tr != IDLE && t != IDLE
    case MutexDelete(m) =>
      s.tr != IDLE && m in s.mtx && (s.mtx[m].owner.None? ==> !Referenced(s, m))
    case _ => s.tr != IDLE
  }

  /** The state in which the step calls `scheduler()`, or in which it ends. */
  function Before(s: Vm, a: Action): (r: Vm)
    requires Wf(s) && Enabled(s, a)
    ensures Wf(r) && |s.thr| <= |r.thr|
  {
    match a
    case Timer => TickFirst(s, |s.thr|)
    case FileDone(t, result) => Answer(s, t, result)
    case FileRequest(initial) => SendRequest(s, initial)
    case Yield => s
    case Create(prio) => Append(s, prio)
    case Activate(t) => if Has(s, t) && s.thr[t].state.Dead? then MakeReady(s, t) else s
    case Terminate(t) => if Has(s, t) && !s.thr[t].state.Dead? then Finish(s, t) else s
    case Sleep(tick) =>
      if tick == IMMEDIATE then MakeReady(s, s.tr)
      else if tick == INFINITE then s
      else Block(s, ToInt(tick))
    case MutexCreate => AddMutex(s)
    case MutexAcquire(m, timeout) =>
      if m !in s.mtx then s else
        var (s1, code) := TryAcquire(s, s.tr, m, timeout);
        if timeout == IMMEDIATE || code == Success then s1 else Block(s1, ToInt(timeout))
    case MutexRelease(m) =>
      if m in s.mtx && m in s.thr[s.tr].held then ReleaseHeld(s, s.tr, m) else s
    case MutexDelete(m) => if s.mtx[m].owner.None? then DropMutex(s, m) else s
  }

  /** Whether the step calls `scheduler()`. */
  predicate Dispatches(s: Vm, a: Action)
    requires Wf(s)
  {
    match a
    case Timer => true
    case FileRequest(_) => true
    case Yield => true
    case Terminate(t) => Has(s, t) && !s.thr[t].state.Dead?
    case Sleep(tick) => tick != INFINITE
    case MutexAcquire(m, timeout) =>
      m in s.mtx && timeout != IMMEDIATE && TryAcquire(s, s.tr, m, timeout).1 != Success
    case MutexRelease(m) => m in s.mtx && m in s.thr[s.tr].held
    case _ => false
  }

  /** The source takes the front of an empty queue unless this holds. */
  predicate CanDispatch(s: Vm, a: Action)
    requires Wf(s) && Enabled(s, a)
  {
    Dispatches(s, a) ==> SomeoneReady(Requeue(Before(s, a)))
  }

  predicate Step(s: Vm, a: Action, r: Vm) {
    && Wf(s)
    && Enabled(s, a)
    && CanDispatch(s, a)
    && r == if Dispatches(s, a) then Schedule(Before(s, a)) else Before(s, a)
  }

  /** The machine as `VMStart` leaves it: the main thread runs, the idle thread is ready. */
  predicate Initial(s: Vm) {
    && |s.thr| == 2
    && s.thr[MAIN] == Tcb(NORMAL, Running, s.thr[MAIN].ticks, s.thr[MAIN].cd, None, [])
    && s.thr[MAIN].ticks <= 0
    && s.thr[IDLE] == Tcb(NIL, Ready, -1, -5, None, [])
    && s.tr == MAIN
    && s.rq == [[IDLE], [], [], []]
    && s.mtx == map[]
    && s.io == multiset{}
  }

  /** States ss linked by the actions acts, beginning in any state. */
  predicate Path(ss: seq<Vm>, acts: seq<Action>) {
    && |ss| == |acts| + 1
    && forall i :: 0 <= i < |acts| ==> Step(ss[i], acts[i], ss[i + 1])
  }

  predicate Run(ss: seq<Vm>, acts: seq<Action>) {
    Path(ss, acts) && Initial(ss[0])
  }

  /** The step that leads to state j. */
  lemma StepOf(ss: seq<Vm>, acts: seq<Action>, j: nat)
    requires Path(ss, acts) && 0 < j < |ss|
    ensures j <= |acts| && Step(ss[j - 1], acts[j - 1], ss[j])
  {
    hide Step;
  }
}
