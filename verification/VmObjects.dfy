/** The scheduler, threads and mutexes as objects that change in place.  `VirtualMachine.s` is the value
    of the whole machine; every method is proved to change it by the step of the same name in VmState. */
module VmObjects {
  import opened Basics
  import opened VmState
  import Status = VmStatus

  function Ids(q: seq<Thread>): (r: seq<nat>)
    ensures |r| == |q| && forall i :: 0 <= i < |q| ==> r[i] == q[i].id
  {
    seq(|q|, i requires 0 <= i < |q| => q[i].id)
  }

  lemma InIds(q: seq<Thread>, tid: nat)
    ensures tid in Ids(q) <==> exists j :: 0 <= j < |q| && q[j].id == tid
  {
    if tid in Ids(q) {
      var j :| 0 <= j < |q| && Ids(q)[j] == tid;
    }
    if j :| 0 <= j < |q| && q[j].id == tid { assert Ids(q)[j] == tid; }
  }

  /** One step of dropping a thread while rotating a queue. */
  lemma DropStep(q: seq<Thread>, i: nat, kept: seq<Thread>, tid: nat)
    requires i < |q| && Ids(kept) == Without(Ids(q[..i]), tid)
    ensures Ids(if q[i].id == tid then kept else kept + [q[i]]) == Without(Ids(q[..i + 1]), tid)
  {
    assert q[..i + 1] == q[..i] + [q[i]];
    assert Ids(q[..i + 1]) == Ids(q[..i]) + [q[i].id];
    WithoutAppend(Ids(q[..i]), q[i].id, tid);
    assert Ids(kept + [q[i]]) == Ids(kept) + [q[i].id];
  }

  /** One step of rotating a queue whose first part has been kept. */
  lemma RotateStep(queue: seq<Thread>, q: seq<Thread>, i: nat, kept: seq<Thread>)
    requires i < |q| && queue == q[i..] + kept
    ensures |queue| > 0 && queue[0] == q[i] && queue[1..] == q[i + 1..] + kept
    ensures queue[1..] + [q[i]] == q[i + 1..] + (kept + [q[i]])
  {
    assert queue[1..] == q[i..][1..] + kept;
  }

  function MutexIds(q: seq<Mutex>): (r: seq<nat>)
    ensures |r| == |q| && forall i :: 0 <= i < |q| ==> r[i] == q[i].id
  {
    seq(|q|, i requires 0 <= i < |q| => q[i].id)
  }

  /** A name of its own keeps this membership from feeding the solver's quantifiers. */
  predicate Listed(mid: nat, mutexes: seq<Mutex>) {
    mid in MutexIds(mutexes)
  }

  lemma ErasedAt(mutexes: seq<Mutex>, pos: nat, rest: seq<Mutex>)
    requires pos < |mutexes| && rest == mutexes[..pos] + mutexes[pos + 1..]
    ensures |rest| == |mutexes| - 1
    ensures forall j :: 0 <= j < |rest| ==> rest[j] == mutexes[if j < pos then j else j + 1]
  {
  }

  lemma OthersRemain(mutexes: seq<Mutex>, pos: nat, rest: seq<Mutex>)
    requires pos < |mutexes| && rest == mutexes[..pos] + mutexes[pos + 1..]
    ensures forall m :: m in mutexes && m != mutexes[pos] ==> m in rest
    ensures forall m :: m in rest ==> m in mutexes
  {
    assert mutexes == mutexes[..pos] + [mutexes[pos]] + mutexes[pos + 1..];
  }

  lemma ErasedIsGone(mutexes: seq<Mutex>, pos: nat, rest: seq<Mutex>)
    requires pos < |mutexes| && rest == mutexes[..pos] + mutexes[pos + 1..]
    requires forall i, j :: 0 <= i < j < |mutexes| ==> mutexes[i].id != mutexes[j].id
    ensures forall m :: m in rest ==> m.id != mutexes[pos].id
  {
    ErasedAt(mutexes, pos, rest);
    forall m | m in rest ensures m.id != mutexes[pos].id {
      var j :| 0 <= j < |rest| && rest[j] == m;
      assert m == mutexes[if j < pos then j else j + 1];
    }
  }

  lemma OtherIdsRemain(mutexes: seq<Mutex>, pos: nat, rest: seq<Mutex>)
    requires pos < |mutexes| && rest == mutexes[..pos] + mutexes[pos + 1..]
    ensures forall x :: x in MutexIds(mutexes) && x != mutexes[pos].id ==> x in MutexIds(rest)
  {
    ErasedAt(mutexes, pos, rest);
    forall x | x in MutexIds(mutexes) && x != mutexes[pos].id ensures x in MutexIds(rest) {
      var j :| 0 <= j < |mutexes| && MutexIds(mutexes)[j] == x;
      assert MutexIds(rest)[if j < pos then j else j - 1] == x;
    }
  }

  /** Erasing one of several mutexes with distinct ids leaves the others. */
  lemma ErasedMembers(mutexes: seq<Mutex>, pos: nat, rest: seq<Mutex>)
    requires pos < |mutexes| && rest == mutexes[..pos] + mutexes[pos + 1..]
    requires forall i, j :: 0 <= i < j < |mutexes| ==> mutexes[i].id != mutexes[j].id
    ensures forall m :: m in rest <==> m in mutexes && m.id != mutexes[pos].id
    ensures forall x :: x in MutexIds(mutexes) && x != mutexes[pos].id ==> x in MutexIds(rest)
  {
    hide *;
    OthersRemain(mutexes, pos, rest);
    ErasedIsGone(mutexes, pos, rest);
    OtherIdsRemain(mutexes, pos, rest);
  }

  lemma ListedAfter(keys: set<nat>, mutexes: seq<Mutex>, mtx: Mutex)
    requires forall k {:trigger Listed(k, mutexes)} :: k in keys ==> Listed(k, mutexes)
    ensures forall k {:trigger Listed(k, mutexes + [mtx])} :: k in keys || k == mtx.id ==> Listed(k, mutexes + [mtx])
  {
    assert MutexIds(mutexes + [mtx]) == MutexIds(mutexes) + [mtx.id];
    forall k | k in keys || k == mtx.id ensures Listed(k, mutexes + [mtx]) {
      assert k in keys ==> Listed(k, mutexes);
      assert MutexIds(mutexes + [mtx])[|mutexes|] == mtx.id;
    }
  }

  function ThreadId(t: Thread?): Option<nat> {
    if t == null then None else Some(t.id)
  }

  function MutexId(m: Mutex?): Option<nat> {
    if m == null then None else Some(m.id)
  }

  lemma {:induction false} WithoutAppend(q: seq<nat>, y: nat, x: nat)
    ensures Without(q + [y], x) == Without(q, x) + if y == x then [] else [y]
  {
    if q != [] {
      assert (q + [y])[1..] == q[1..] + [y];
      WithoutAppend(q[1..], y, x);
    }
  }

  /** `release` names the owner first, wakes it, and only then takes it off the queue. */
  lemma ReleaseInSteps(s: Vm, m: nat)
    requires Wf(s) && m in s.mtx && s.mtx[m].queue != []
    ensures var q := s.mtx[m].queue;
            && McbOk(s, s.mtx[m].(owner := Some(q[0])))
            && var s1 := SetMutex(s, m, s.mtx[m].(owner := Some(q[0])));
               && Has(s1, q[0])
               && var s2 := StopWaiting(s1, q[0]);
                  && m in s2.mtx
                  && McbOk(s2, s2.mtx[m].(queue := q[1..]))
                  && SetMutex(s2, m, s2.mtx[m].(queue := q[1..])) == ReleaseMutex(s, m)
  {
    var q := s.mtx[m].queue;
    assert McbOk(s, s.mtx[m]) && q[0] in q && forall x :: x in q[1..] ==> x in q;
    var s2 := StopWaiting(SetMutex(s, m, s.mtx[m].(owner := Some(q[0]))), q[0]);
    assert SetMutex(s2, m, s2.mtx[m].(queue := q[1..])).mtx == ReleaseMutex(s, m).mtx;
  }

  lemma ReleaseUnwaited(s: Vm, m: nat)
    requires Wf(s) && m in s.mtx && s.mtx[m].queue == []
    ensures McbOk(s, s.mtx[m].(owner := None)) && ReleaseMutex(s, m) == SetMutex(s, m, s.mtx[m].(owner := None))
  {
    assert s.mtx[m].(owner := None) == Mcb(None, []);
  }

  /** `decrementTicks` in the order of the source. */
  lemma TickInSteps(s: Vm, t: nat)
    requires Wf(s) && Has(s, t)
    ensures var c := s.thr[t];
            var s1 := SetTicks(s, t, c.ticks - 1);
            if c.ticks - 1 == 0 && c.state == Waiting then
              var s2 := SetState(s1, t, Ready);
              && (c.waiting.Some? ==> c.waiting.value in s2.mtx)
              && Tick(s, t) == Push(if c.waiting.Some? then WaitTimeout(s2, t, c.waiting.value) else s2, t)
            else if c.ticks - 1 < 0 then SetTicks(s1, t, -5) == Tick(s, t)
            else s1 == Tick(s, t)
  {
    var s1 := SetTicks(s, t, s.thr[t].ticks - 1);
    assert SetTicks(s1, t, -5).thr == SetTicks(s, t, -5).thr;
  }

  lemma ReleaseHeldInSteps(s: Vm, t: nat, m: nat, i: nat)
    requires Wf(s) && Has(s, t) && i < |s.thr[t].held| && s.thr[t].held[i] == m && m !in s.thr[t].held[..i]
    requires m in s.mtx
    ensures var s1 := ReleaseMutex(s, m);
            && (forall k :: k in EraseAt(s.thr[t].held, i) ==> k in s1.mtx)
            && VmState.SetHeld(s1, t, EraseAt(s.thr[t].held, i)) == ReleaseHeld(s, t, m)
  {
    var held := s.thr[t].held;
    var j := IndexOf(held, m);
    assert forall k :: 0 <= k < j ==> held[k] in held[..j];
    assert forall k :: 0 <= k < i ==> held[k] in held[..i];
    assert ReleaseMutex(s, m).thr[t].held == s.thr[t].held;
  }

  lemma ReleaseAllInSteps(s: Vm, t: nat)
    requires Wf(s) && Has(s, t) && s.thr[t].held != []
    ensures var h := s.thr[t].held;
            && h[|h| - 1] in s.mtx
            && var s1 := ReleaseMutex(s, h[|h| - 1]);
               && s1.thr[t].held == h
               && (forall k :: k in h[..|h| - 1] ==> k in s1.mtx)
               && ReleaseAll(VmState.SetHeld(s1, t, h[..|h| - 1]), t) == ReleaseAll(s, t)
  {
    var h := s.thr[t].held;
    assert h[|h| - 1] in h && forall k :: k in h[..|h| - 1] ==> k in h;
  }

  /** How `VMMutexAcquire` of an existing mutex goes on after the attempt to take it. */
  lemma AcquireStep(s: Vm, m: nat, timeout: uint32)
    requires Wf(s) && m in s.mtx && s.tr != IDLE
    ensures var (s1, code) := TryAcquire(s, s.tr, m, timeout);
            var a := MutexAcquire(m, timeout);
            && s1.tr == s.tr
            && (Dispatches(s, a) <==> timeout != IMMEDIATE && code != Success)
            && Before(s, a) == (if Dispatches(s, a) then Block(s1, ToInt(timeout)) else s1)
            && (code == Success <==> m !in s.thr[s.tr].held && s.mtx[m].owner.None?)
            && (code == Success ==> m in s1.thr[s.tr].held)
  {
  }

  lemma ScheduleKeepsRequests(b: Vm)
    requires Wf(b) && SomeoneReady(Requeue(b))
    ensures Schedule(b).io == b.io
  {
  }

  class Mutex {
    const id: nat
    var owner: Thread?
    var queue: seq<Thread>

    constructor (id: nat)
      ensures this.id == id && owner == null && queue == []
    {
      this.id := id;
      owner := null;
      queue := [];
    }

    ghost function View(): Mcb
      reads this
    {
      Mcb(ThreadId(owner), Ids(queue))
    }

    /** Rotates the queue once around, looking for a thread. */
    method IsInQueue(tid: nat) returns (found: bool)
      modifies this`queue
      ensures queue == old(queue)
      ensures found <==> tid in Ids(queue)
    {
      found := false;
      var size := |queue|;
      var i := 0;
      ghost var q := queue;
      while i < size
        invariant 0 <= i <= size == |q|
        invariant queue == q[i..] + q[..i]
        invariant found <==> exists j :: 0 <= j < i && q[j].id == tid
      {
        var temp := queue[0];
        queue := queue[1..];
        if temp.id == tid { found := true; }
        queue := queue + [temp];
        i := i + 1;
      }
      InIds(q, tid);
    }

    method SetOwner(vm: VirtualMachine, thread: Thread?)
      requires vm.Valid() && this in vm.mutexes && (thread != null ==> thread in vm.threads)
      modifies this`owner, vm`s
      ensures vm.Valid() && owner == thread
      ensures vm.s == SetMutex(old(vm.s), id, old(vm.s).mtx[id].(owner := ThreadId(thread)))
    {
      assert vm.MutexOk(this);
      hide Wf;
      vm.s := SetMutex(vm.s, id, vm.s.mtx[id].(owner := ThreadId(thread)));
      owner := thread;
    }

    method SetQueue(vm: VirtualMachine, q: seq<Thread>)
      requires vm.Valid() && this in vm.mutexes && forall t :: t in q ==> t in vm.threads
      modifies this`queue, vm`s
      ensures vm.Valid() && queue == q
      ensures vm.s == SetMutex(old(vm.s), id, old(vm.s).mtx[id].(queue := Ids(q)))
    {
      assert vm.MutexOk(this);
      hide Wf;
      forall x | x in Ids(q) ensures x < |vm.threads| {
        var i :| 0 <= i < |q| && Ids(q)[i] == x;
        assert q[i] in q && vm.ThreadOk(q[i]);
      }
      vm.s := SetMutex(vm.s, id, vm.s.mtx[id].(queue := Ids(q)));
      queue := q;
    }

    method Acquire(vm: VirtualMachine, thread: Thread, timeout: uint32) returns (code: AcquireCode)
      requires vm.Valid() && this in vm.mutexes && thread in vm.threads
      modifies this, vm`s
      ensures vm.Valid()
      ensures old(owner) == null ==>
                code == Success && vm.s == SetMutex(old(vm.s), id, old(vm.s).mtx[id].(owner := Some(thread.id)))
      ensures old(owner) != null ==> code != Success
      ensures old(owner) != null ==>
                var c := old(vm.s).mtx[id];
                vm.s == SetMutex(old(vm.s), id,
                  if thread.id !in c.queue && timeout != IMMEDIATE then c.(queue := c.queue + [thread.id]) else c)
    {
      assert vm.MutexOk(this);
      hide Wf;
      if owner != null {
        var found := IsInQueue(thread.id);
        assert vm.s == SetMutex(vm.s, id, vm.s.mtx[id]);
        if !found && timeout != IMMEDIATE {
          assert Ids(queue + [thread]) == Ids(queue) + [thread.id];
          SetQueue(vm, queue + [thread]);
          return Wait;
        }
        return Unnecessary;
      }
      SetOwner(vm, thread);
      return Success;
    }

    method Release(vm: VirtualMachine)
      requires vm.Valid() && this in vm.mutexes
      modifies this, vm.threads`state, vm.threads`waiting, vm`readyQ, vm`s
      ensures vm.Valid() && vm.s == ReleaseMutex(old(vm.s), id)
    {
      assert vm.MutexOk(this);
      if queue != [] {
        var first := queue[0];
        assert Ids(queue)[0] == first.id && Ids(queue[1..]) == Ids(queue)[1..];
        ReleaseInSteps(vm.s, id);
        hide Wf, VirtualMachine.Valid, SetMutex, ReleaseMutex, VmState.StopWaiting;
        SetOwner(vm, first);
        first.StopWaiting(vm);
        SetQueue(vm, queue[1..]);
      } else {
        ReleaseUnwaited(vm.s, id);
        hide Wf, VirtualMachine.Valid, SetMutex, ReleaseMutex;
        SetOwner(vm, null);
      }
    }

    /** Rotates the queue once around, dropping the thread. */
    method DropFromQueue(thread: Thread)
      requires forall t :: t in queue && t.id == thread.id ==> t == thread
      modifies this`queue
      ensures Ids(queue) == Without(old(Ids(queue)), thread.id)
      ensures forall t :: t in queue ==> t in old(queue)
    {
      var size := |queue|;
      var i := 0;
      ghost var q := queue;
      ghost var kept: seq<Thread> := [];
      assert Ids(kept) == Without(Ids(q[..0]), thread.id);
      hide Ids, Without;
      while i < size
        invariant 0 <= i <= size == |q|
        invariant queue == q[i..] + kept
        invariant Ids(kept) == Without(Ids(q[..i]), thread.id)
        invariant forall t :: t in kept ==> t in q
      {
        assert q[i] in q;
        DropStep(q, i, kept, thread.id);
        RotateStep(queue, q, i, kept);
        var temp := queue[0];
        queue := queue[1..];
        if temp != thread {
          queue := queue + [temp];
          kept := kept + [temp];
        }
        i := i + 1;
      }
      assert q[..size] == q && queue == kept;
    }

    method WaitTimeout(vm: VirtualMachine, thread: Thread)
      requires vm.Valid() && this in vm.mutexes && thread in vm.threads
      modifies this`queue, thread`state, thread`waiting, vm`readyQ, vm`s
      ensures vm.Valid() && vm.s == VmState.WaitTimeout(old(vm.s), thread.id, id)
      ensures Ids(queue) == Without(old(Ids(queue)), thread.id)
      ensures thread.waiting == null && thread.state == Ready
    {
      assert vm.MutexOk(this);
      hide Wf;
      DropFromQueue(thread);
      vm.s := SetMutex(vm.s, id, vm.s.mtx[id].(queue := Ids(queue)));
      thread.StopWaiting(vm);
      assert vm.ThreadOk(thread);
    }
  }

  class Thread {
    const id: nat
    var priority: nat
    var state: RunState
    var ticks: int
    var cd: int
    var heldMutex: seq<Mutex>
    var waiting: Mutex?

    constructor (id: nat, priority: nat, state: RunState)
      ensures this.id == id && View() == Tcb(priority, state, -1, -5, None, [])
      ensures heldMutex == [] && waiting == null
    {
      this.id := id;
      this.priority := priority;
      this.state := state;
      ticks := -1;
      cd := -5;
      heldMutex := [];
      waiting := null;
    }

    ghost function View(): Tcb
      reads this
    {
      Tcb(priority, state, ticks, cd, MutexId(waiting), MutexIds(heldMutex))
    }

    method SetState(vm: VirtualMachine, newState: RunState)
      requires vm.Valid() && this in vm.threads
      modifies this`state, vm`s
      ensures vm.Valid() && state == newState && vm.s == VmState.SetState(old(vm.s), id, newState)
    {
      assert vm.ThreadOk(this);
      hide Wf;
      vm.s := VmState.SetState(vm.s, id, newState);
      state := newState;
    }

    method SetTicks(vm: VirtualMachine, newTicks: int)
      requires vm.Valid() && this in vm.threads
      modifies this`ticks, vm`s
      ensures vm.Valid() && ticks == newTicks && vm.s == VmState.SetTicks(old(vm.s), id, newTicks)
    {
      assert vm.ThreadOk(this);
      hide Wf;
      vm.s := VmState.SetTicks(vm.s, id, newTicks);
      ticks := newTicks;
    }

    method SetWaiting(vm: VirtualMachine, m: Mutex?)
      requires vm.Valid() && this in vm.threads && (m != null ==> m in vm.mutexes)
      modifies this`waiting, vm`s
      ensures vm.Valid() && waiting == m && vm.s == VmState.SetWaiting(old(vm.s), id, MutexId(m))
    {
      assert vm.ThreadOk(this) && (m != null ==> vm.MutexOk(m));
      hide Wf;
      vm.s := VmState.SetWaiting(vm.s, id, MutexId(m));
      waiting := m;
    }

    method StopWaiting(vm: VirtualMachine)
      requires vm.Valid() && this in vm.threads
      modifies this`state, this`waiting, vm`readyQ, vm`s
      ensures vm.Valid() && vm.s == VmState.StopWaiting(old(vm.s), id)
    {
      hide Wf;
      SetWaiting(vm, null);
      SetState(vm, Ready);
      vm.Enqueue(this);
    }

    ghost predicate AllIn(h: seq<Mutex>, vm: VirtualMachine)
      reads vm
    {
      && (forall m :: m in h ==> m in vm.mutexes)
      && (forall k :: k in MutexIds(h) ==> k in vm.s.mtx)
    }

    method SetHeld(vm: VirtualMachine, h: seq<Mutex>)
      requires vm.Valid() && this in vm.threads && AllIn(h, vm)
      modifies this`heldMutex, vm`s
      ensures vm.Valid() && heldMutex == h && vm.s == VmState.SetHeld(old(vm.s), id, MutexIds(h))
    {
      assert vm.ThreadOk(this);
      hide Wf;
      vm.s := VmState.SetHeld(vm.s, id, MutexIds(h));
      heldMutex := h;
    }

    lemma HeldAreMutexes(vm: VirtualMachine, h: seq<Mutex>)
      requires vm.Valid() && this in vm.threads && forall m :: m in h ==> m in heldMutex
      ensures AllIn(h, vm)
    {
      assert vm.ThreadOk(this);
      forall k | k in MutexIds(h) ensures k in vm.s.mtx {
        var i :| 0 <= i < |h| && MutexIds(h)[i] == k;
        assert h[i] in h && vm.MutexOk(h[i]);
      }
    }

    method FindMutex(mid: nat) returns (m: Mutex?)
      ensures m != null <==> mid in MutexIds(heldMutex)
      ensures m != null ==> m in heldMutex && m.id == mid
    {
      for i := 0 to |heldMutex|
        invariant forall j :: 0 <= j < i ==> heldMutex[j].id != mid
      {
        if heldMutex[i].id == mid {
          assert MutexIds(heldMutex)[i] == mid;
          return heldMutex[i];
        }
      }
      return null;
    }

    method AcquireMutex(vm: VirtualMachine, mtx: Mutex, timeout: uint32) returns (code: AcquireCode)
      requires vm.Valid() && this in vm.threads && mtx in vm.mutexes
      modifies this`waiting, this`heldMutex, mtx, vm`s
      ensures vm.Valid() && (vm.s, code) == TryAcquire(old(vm.s), id, mtx.id, timeout)
      ensures heldMutex == old(heldMutex) + (if code == Success then [mtx] else [])
      ensures waiting == if code == Wait then mtx else null
    {
      assert vm.ThreadOk(this) && vm.MutexOk(mtx);
      HeldAreMutexes(vm, heldMutex);
      assert MutexIds(heldMutex + [mtx]) == MutexIds(heldMutex) + [mtx.id];
      hide Wf, VirtualMachine.Valid;
      SetWaiting(vm, null);
      var found := FindMutex(mtx.id);
      if found == null {
        code := mtx.Acquire(vm, this, timeout);
        if code == Success {
          SetHeld(vm, heldMutex + [mtx]);
          return Success;
        }
        SetWaiting(vm, mtx);
        return Wait;
      }
      return Unnecessary;
    }

    method DecrementTicks(vm: VirtualMachine)
      requires vm.Valid() && this in vm.threads
      modifies this`ticks, this`state, this`waiting, vm.mutexes`queue, vm`readyQ, vm`s
      ensures vm.Valid() && vm.s == Tick(old(vm.s), id)
    {
      assert vm.ThreadOk(this);
      TickInSteps(vm.s, id);
      hide Wf, VirtualMachine.Valid, VmState.SetTicks, VmState.SetState, VmState.WaitTimeout, Push, Tick;
      SetTicks(vm, ticks - 1);
      if ticks == 0 && state == Waiting {
        SetState(vm, Ready);
        WakeUp(vm);
      }
      if ticks < 0 {
        SetTicks(vm, -5);
      }
    }

    /** Leaves the queue of the mutex it waits for, if any, and enters its ready queue. */
    method WakeUp(vm: VirtualMachine)
      requires vm.Valid() && this in vm.threads
      modifies this`state, this`waiting, vm.mutexes`queue, vm`readyQ, vm`s
      ensures vm.Valid()
      ensures var w := old(vm.s.thr[id].waiting);
              vm.s == Push(if w.Some? then VmState.WaitTimeout(old(vm.s), id, w.value) else old(vm.s), id)
    {
      assert vm.ThreadOk(this);
      assert waiting != null ==> waiting in vm.mutexes;
      hide Wf, VirtualMachine.Valid, VmState.WaitTimeout, Push;
      if waiting != null { waiting.WaitTimeout(vm, this); }
      vm.Enqueue(this);
    }

    /** The place of a mutex in the held list, or the length of the list. */
    method FindHeld(mid: nat) returns (i: nat)
      ensures i <= |heldMutex| && (i < |heldMutex| ==> heldMutex[i].id == mid)
      ensures mid !in MutexIds(heldMutex[..i])
    {
      i := 0;
      while i < |heldMutex| && heldMutex[i].id != mid
        invariant i <= |heldMutex|
        invariant forall j :: 0 <= j < i ==> heldMutex[j].id != mid
      {
        i := i + 1;
      }
    }

    lemma OneHeld(vm: VirtualMachine, i: nat)
      requires vm.Valid() && this in vm.threads && i < |heldMutex|
      requires heldMutex[i].id !in MutexIds(heldMutex[..i])
      ensures var mid := heldMutex[i].id; var h := heldMutex[..i] + heldMutex[i + 1..];
              && heldMutex[i] in vm.mutexes && AllIn(h, vm) && Has(vm.s, id) && mid in vm.s.thr[id].held
              && mid in vm.s.mtx
              && var s1 := VmState.ReleaseMutex(vm.s, mid);
                 && (forall k :: k in MutexIds(h) ==> k in s1.mtx)
                 && VmState.SetHeld(s1, id, MutexIds(h)) == ReleaseHeld(vm.s, id, mid)
    {
      var mid, h := heldMutex[i].id, heldMutex[..i] + heldMutex[i + 1..];
      assert vm.ThreadOk(this) && heldMutex[i] in heldMutex && heldMutex[i] in vm.mutexes && vm.MutexOk(heldMutex[i]);
      assert MutexIds(h) == EraseAt(MutexIds(heldMutex), i);
      assert MutexIds(heldMutex)[i] == mid && MutexIds(heldMutex[..i]) == MutexIds(heldMutex)[..i];
      HeldAreMutexes(vm, h);
      hide VirtualMachine.Valid, VmState.SetHeld, ReleaseHeld, VmState.ReleaseMutex;
      ReleaseHeldInSteps(vm.s, id, mid, i);
    }

    method ReleaseMutex(vm: VirtualMachine, mid: nat) returns (found: bool)
      requires vm.Valid() && this in vm.threads
      modifies vm.threads`state, vm.threads`waiting, this`heldMutex, vm.mutexes, vm`readyQ, vm`s
      ensures vm.Valid()
      ensures found <==> mid in old(vm.s.thr[id].held)
      ensures vm.s == if found then ReleaseHeld(old(vm.s), id, mid) else old(vm.s)
    {
      assert vm.ThreadOk(this);
      var i := FindHeld(mid);
      if i == |heldMutex| { return false; }
      var mtx := heldMutex[i];
      var h := heldMutex[..i] + heldMutex[i + 1..];
      OneHeld(vm, i);
      hide Wf, VirtualMachine.Valid, VmState.SetHeld, ReleaseHeld, VmState.ReleaseMutex, MutexIds;
      mtx.Release(vm);
      SetHeld(vm, h);
      return true;
    }

    /** The state that releasing all held mutexes leads to. */
    ghost function Emptied(vm: VirtualMachine): Vm
      requires vm.Valid() && this in vm.threads
      reads vm, vm.threads, vm.mutexes
    {
      assert vm.ThreadOk(this);
      ReleaseAll(vm.s, id)
    }

    method ReleaseAllMutex(vm: VirtualMachine)
      requires vm.Valid() && this in vm.threads
      modifies vm.threads`state, vm.threads`waiting, this`heldMutex, vm.mutexes, vm`readyQ, vm`s
      ensures vm.Valid() && vm.s == ReleaseAll(old(vm.s), id)
    {
      assert vm.ThreadOk(this);
      while heldMutex != []
        invariant vm.Valid() && Emptied(vm) == old(Emptied(vm))
        decreases |heldMutex|
      {
        ReleaseLast(vm);
      }
      assert vm.ThreadOk(this) && vm.s.thr[id].held == [];
    }

    method ReleaseLast(vm: VirtualMachine)
      requires vm.Valid() && this in vm.threads && heldMutex != []
      modifies vm.threads`state, vm.threads`waiting, this`heldMutex, vm.mutexes, vm`readyQ, vm`s
      ensures vm.Valid() && |heldMutex| < old(|heldMutex|)
      ensures Emptied(vm) == old(Emptied(vm))
    {
      var mtx := heldMutex[|heldMutex| - 1];
      var h := heldMutex[..|heldMutex| - 1];
      assert vm.ThreadOk(this);
      assert mtx in heldMutex && mtx in vm.mutexes;
      assert MutexIds(h) == MutexIds(heldMutex)[..|heldMutex| - 1];
      HeldAreMutexes(vm, h);
      ReleaseAllInSteps(vm.s, id);
      hide Wf, VirtualMachine.Valid, VmState.SetHeld, ReleaseAll, VmState.ReleaseMutex;
      mtx.Release(vm);
      SetHeld(vm, h);
    }
  }

  class VirtualMachine {
    var threads: seq<Thread>
    var tr: Thread
    var readyQ: seq<seq<Thread>>
    var mutexes: seq<Mutex>
    var nextMutexId: nat
    ghost var s: Vm

    ghost predicate ThreadOk(t: Thread)
      reads this, t
    {
      && t.id < |s.thr|
      && t.View() == s.thr[t.id]
      && (forall m :: m in t.heldMutex ==> m in mutexes)
      && (t.waiting != null ==> t.waiting in mutexes)
    }

    ghost predicate MutexOk(m: Mutex)
      reads this, m
    {
      && m.id in s.mtx
      && m.View() == s.mtx[m.id]
      && (m.owner != null ==> m.owner in threads)
      && forall t :: t in m.queue ==> t in threads
    }

    ghost predicate Valid()
      reads this, threads, mutexes
    {
      && Wf(s)
      && |threads| == |s.thr|
      && (forall i :: 0 <= i < |threads| ==> threads[i].id == i)
      && (forall t :: t in threads ==> ThreadOk(t))
      && tr in threads && tr.id == s.tr
      && |readyQ| == |s.rq| == 4
      && (forall p :: 0 <= p < 4 ==> Ids(readyQ[p]) == s.rq[p])
      && (forall p, t :: 0 <= p < 4 && t in readyQ[p] ==> t in threads)
      && (forall i, j :: 0 <= i < j < |mutexes| ==> mutexes[i].id != mutexes[j].id)
      && (forall m :: m in mutexes ==> MutexOk(m))
      && (forall k {:trigger Listed(k, mutexes)} :: k in s.mtx ==> Listed(k, mutexes))
      && nextMutexId == s.nextMid
    }

    /** `VMStart` up to the point where signals are enabled: the main thread runs and the idle thread has
        been created and activated.  The main thread's tick count and call result are never initialised;
        the count is taken to be at most 0. */
    constructor (mainTicks: int, mainCd: int)
      requires mainTicks <= 0
      ensures Valid() && Initial(s)
    {
      var main := new Thread(MAIN, NORMAL, Running);
      main.ticks := mainTicks;
      main.cd := mainCd;
      var idle := new Thread(IDLE, NIL, Ready);
      threads := [main, idle];
      tr := main;
      readyQ := [[idle], [], [], []];
      mutexes := [];
      nextMutexId := 0;
      s := Vm(MAIN, [Tcb(NORMAL, Running, mainTicks, mainCd, None, []), Tcb(NIL, Ready, -1, -5, None, [])],
              [[IDLE], [], [], []], map[], 0, multiset{});
    }

    method Enqueue(t: Thread)
      requires Valid() && t in threads
      modifies this`readyQ, this`s
      ensures Valid() && s == Push(old(s), t.id)
    {
      assert ThreadOk(t) && s.thr[t.id].prio < 4;
      hide Wf;
      assert Ids(readyQ[t.priority] + [t]) == Ids(readyQ[t.priority]) + [t.id];
      readyQ := readyQ[t.priority := readyQ[t.priority] + [t]];
      s := Push(s, t.id);
    }

    /** Takes the head of level p as the current thread. */
    method Take(p: nat)
      requires Valid() && p < 4 && readyQ[p] != []
      modifies this`readyQ, this`tr, this`s
      ensures Valid() && s == TakeHead(old(s), p)
    {
      assert readyQ[p][0] in readyQ[p] && forall t :: t in readyQ[p][1..] ==> t in readyQ[p];
      assert Ids(readyQ[p])[0] == readyQ[p][0].id && Ids(readyQ[p][1..]) == Ids(readyQ[p])[1..];
      hide Wf;
      s := TakeHead(s, p);
      tr := readyQ[p][0];
      readyQ := readyQ[p := readyQ[p][1..]];
    }

    method Scheduler()
      requires Valid() && SomeoneReady(Requeue(s))
      modifies this`readyQ, this`tr, this`s, threads`state
      ensures Valid() && s == Schedule(old(s))
    {
      var pt := tr;
      assert ThreadOk(pt);
      if pt.state == Running {
        pt.SetState(this, Ready);
        Enqueue(pt);
      }
      assert s == Requeue(old(s));
      var p := if readyQ[3] != [] then 3 else if readyQ[2] != [] then 2 else if readyQ[1] != [] then 1 else 0;
      LevelChosen(p);
      hide Wf, Valid, TopLevel, TakeHead, SomeoneReady, Requeue, VmState.SetState;
      Take(p);
      tr.SetState(this, Running);
    }

    lemma LevelChosen(p: nat)
      requires Valid() && SomeoneReady(s) && p < 4
      requires p == if readyQ[3] != [] then 3 else if readyQ[2] != [] then 2 else if readyQ[1] != [] then 1 else 0
      ensures p == TopLevel(s) && readyQ[p] != []
    {
      assert forall k :: 0 <= k < 4 ==> |readyQ[k]| == |s.rq[k]|;
      var k :| 0 <= k < 4 && s.rq[k] != [];
    }

    method TimerISR()
      requires Valid() && CanDispatch(s, Timer)
      modifies this, threads, mutexes
      ensures Valid() && Step(old(s), Timer, s)
    {
      TickAll();
      Scheduler();
    }

    method TickAll()
      requires Valid()
      modifies this`readyQ, this`s, threads, mutexes
      ensures Valid() && s == TickFirst(old(s), |old(s).thr|)
    {
      hide Wf, Tick;
      for i := 0 to |threads|
        invariant Valid() && s == TickFirst(old(s), i)
      {
        TickNext(i, old(s));
      }
    }

    method TickNext(i: nat, ghost s0: Vm)
      requires Valid() && i < |threads| && Wf(s0) && |s0.thr| == |threads| && s == TickFirst(s0, i)
      modifies this`readyQ, this`s, threads, mutexes
      ensures Valid() && s == TickFirst(s0, i + 1)
    {
      hide Tick;
      threads[i].DecrementTicks(this);
    }

    method FindThread(thread: nat) returns (found: Thread?)
      requires Valid()
      ensures found != null <==> Has(s, thread)
      ensures found != null ==> found in threads && found.id == thread
    {
      found := null;
      for i := 0 to |threads|
        invariant found != null <==> thread < i
        invariant found != null ==> found in threads && found.id == thread
      {
        if threads[i].id == thread { found := threads[i]; }
      }
    }

    method FindMutex(mutex: nat) returns (found: Mutex?)
      requires Valid()
      ensures found != null <==> mutex in s.mtx
      ensures found != null ==> found in mutexes && found.id == mutex
    {
      for i := 0 to |mutexes|
        invariant forall j :: 0 <= j < i ==> mutexes[j].id != mutex
      {
        if mutexes[i].id == mutex {
          assert MutexOk(mutexes[i]);
          return mutexes[i];
        }
      }
      assert !Listed(mutex, mutexes);
      return null;
    }

    // ---------- File calls ----------

    /** What every blocking file call does up to `scheduler()`: preset the call result, send one request
        and wait.  Sending is described by `s.io` alone. */
    method FileRequest(initial: int)
      requires Valid() && Enabled(s, Action.FileRequest(initial)) && CanDispatch(s, Action.FileRequest(initial))
      modifies this`readyQ, this`tr, this`s, threads`state, threads`cd
      ensures Valid() && Step(old(s), Action.FileRequest(initial), s)
      ensures old(tr).cd == initial && s.io == old(s).io + multiset{old(s).tr}
      ensures forall t :: t in threads && t != old(tr) ==> t.cd == old(t.cd)
    {
      Send(initial);
      assert s.io == old(s).io + multiset{old(s).tr};
      ScheduleKeepsRequests(s);
      hide Valid, Schedule, Requeue, SendRequest;
      Scheduler();
    }

    method Send(initial: int)
      requires Valid()
      modifies this`s, tr`state, tr`cd
      ensures Valid() && s == SendRequest(old(s), initial)
    {
      assert ThreadOk(tr);
      hide Wf;
      s := SendRequest(s, initial);
      tr.cd := initial;
      tr.state := Waiting;
    }

    method FileCallback(cbt: Thread, result: int)
      requires Valid() && cbt in threads && Enabled(s, FileDone(cbt.id, result))
      modifies this`readyQ, this`s, cbt`state, cbt`cd
      ensures Valid() && Step(old(s), FileDone(cbt.id, result), s)
      ensures cbt.cd == result && cbt.state == Ready
      ensures var c := old(s).thr[cbt.id];
              && s.thr == old(s).thr[cbt.id := c.(cd := result, state := Ready)]
              && c.prio < 4 && s.rq == old(s).rq[c.prio := old(s).rq[c.prio] + [cbt.id]]
              && (s.tr, s.mtx, s.io) == (old(s).tr, old(s).mtx, old(s).io - multiset{cbt.id})
    {
      assert ThreadOk(cbt) && TcbOk(s, s.thr[cbt.id]);
      Deliver(cbt, result);
      hide Valid, Wf;
      cbt.SetState(this, Ready);
      Enqueue(cbt);
    }

    method Deliver(cbt: Thread, result: int)
      requires Valid() && cbt in threads
      modifies this`s, cbt`cd
      ensures Valid()
      ensures s == var c := old(s).thr[cbt.id];
                   old(s).(thr := old(s).thr[cbt.id := c.(cd := result)], io := old(s).io - multiset{cbt.id})
    {
      assert ThreadOk(cbt);
      s := s.(thr := s.thr[cbt.id := s.thr[cbt.id].(cd := result)], io := s.io - multiset{cbt.id});
      hide Wf;
      cbt.cd := result;
    }

    // ---------- Thread calls ----------

    /** The part of `VMThreadCreate` after its allocation loop; each round of that loop is a Yield. */
    method VMThreadCreate(nullArgument: bool, prio: nat) returns (status: Status.Status, tid: nat)
      requires Valid() && Enabled(s, Create(prio))
      modifies this`threads, this`s
      ensures Valid()
      ensures nullArgument ==> status == Status.InvalidParameter && s == old(s)
      ensures !nullArgument ==> status == Status.Success && tid == |old(threads)| && Step(old(s), Create(prio), s)
      ensures !nullArgument ==>
                && |threads| == tid + 1 && threads[..tid] == old(threads) && fresh(threads[tid])
                && threads[tid].View() == Tcb(prio, Dead, -1, -5, None, [])
                && s.thr == old(s).thr + [Tcb(prio, Dead, -1, -5, None, [])]
                && (s.tr, s.rq, s.mtx, s.io) == (old(s).tr, old(s).rq, old(s).mtx, old(s).io)
    {
      if nullArgument { return Status.InvalidParameter, 0; }
      var t := new Thread(|threads|, prio, Dead);
      assert forall u :: u in threads ==> ThreadOk(u);
      threads := threads + [t];
      s := Append(s, prio);
      return Status.Success, t.id;
    }

    method VMThreadActivate(thread: nat) returns (status: Status.Status)
      requires Valid() && Enabled(s, Activate(thread))
      modifies this`readyQ, this`s, threads`state
      ensures Valid() && Step(old(s), Activate(thread), s)
      ensures status == if !Has(old(s), thread) then Status.InvalidId
                        else if !old(s).thr[thread].state.Dead? then Status.InvalidState
                        else Status.Success
      ensures status == Status.Success ==>
                var c := old(s).thr[thread];
                && s.thr == old(s).thr[thread := c.(state := Ready)]
                && c.prio < 4 && s.rq == old(s).rq[c.prio := old(s).rq[c.prio] + [thread]]
                && (s.tr, s.mtx, s.io) == (old(s).tr, old(s).mtx, old(s).io)
      ensures status != Status.Success ==> s == old(s)
    {
      var nt := FindThread(thread);
      if nt == null { return Status.InvalidId; }
      assert ThreadOk(nt) && TcbOk(s, s.thr[thread]);
      hide Valid, Wf;
      if nt.state != Dead { return Status.InvalidState; }
      nt.SetState(this, Ready);
      Enqueue(nt);
      return Status.Success;
    }

    /** Rotates level p once around, dropping the thread. */
    method DropFromLevel(p: nat, term: Thread)
      requires p < |readyQ|
      requires forall t :: t in readyQ[p] && t.id == term.id ==> t == term
      modifies this`readyQ
      ensures |readyQ| == old(|readyQ|) && forall k :: 0 <= k < |readyQ| && k != p ==> readyQ[k] == old(readyQ[k])
      ensures Ids(readyQ[p]) == Without(old(Ids(readyQ[p])), term.id)
      ensures forall t :: t in readyQ[p] ==> t in old(readyQ[p])
    {
      ghost var level := readyQ[p];
      var target := |readyQ[p]|;
      var i := 0;
      ghost var kept: seq<Thread> := [];
      assert Ids(kept) == Without(Ids(level[..0]), term.id);
      hide Ids, Without;
      while i < target
        invariant 0 <= i <= target == |level|
        invariant |readyQ| == old(|readyQ|) && readyQ[p] == level[i..] + kept
        invariant forall k :: 0 <= k < |readyQ| && k != p ==> readyQ[k] == old(readyQ[k])
        invariant Ids(kept) == Without(Ids(level[..i]), term.id)
        invariant forall t :: t in kept ==> t in level
      {
        assert level[i] in level;
        DropStep(level, i, kept, term.id);
        RotateStep(readyQ[p], level, i, kept);
        var temp := readyQ[p][0];
        readyQ := readyQ[p := readyQ[p][1..]];
        if temp != term {
          readyQ := readyQ[p := readyQ[p] + [temp]];
          kept := kept + [temp];
        }
        i := i + 1;
      }
      assert level[..target] == level && readyQ[p] == kept;
    }

    method Flush(term: Thread)
      requires Valid() && term in threads
      modifies this`readyQ, this`s
      ensures Valid() && s == FlushLevel(old(s), term.id)
    {
      assert ThreadOk(term);
      assert term.priority < 4 && forall t :: t in readyQ[term.priority] ==> t in threads;
      assert forall t :: t in threads && t.id == term.id ==> t == term;
      hide Wf;
      DropFromLevel(term.priority, term);
      s := FlushLevel(s, term.id);
    }

    method VMThreadTerminate(thread: nat) returns (status: Status.Status)
      requires Valid() && Enabled(s, Terminate(thread)) && CanDispatch(s, Terminate(thread))
      modifies this`readyQ, this`tr, this`s, threads`state, threads`waiting, threads`heldMutex, mutexes
      ensures Valid() && Step(old(s), Terminate(thread), s)
      ensures status == if !Has(old(s), thread) then Status.InvalidId
                        else if old(s).thr[thread].state.Dead? then Status.InvalidState
                        else Status.Success
    {
      var term := FindThread(thread);
      if term == null { return Status.InvalidId; }
      assert ThreadOk(term);
      if term.state == Dead { return Status.InvalidState; }
      Kill(term);
      hide Valid, Schedule, Requeue, VmState.Finish;
      Scheduler();
      return Status.Success;
    }

    method Kill(term: Thread)
      requires Valid() && term in threads
      modifies this`readyQ, this`s, threads`state, threads`waiting, term`heldMutex, mutexes
      ensures Valid() && s == Finish(old(s), term.id)
    {
      assert ThreadOk(term);
      hide Valid, ReleaseAll, Wf, FlushLevel;
      term.SetState(this, Dead);
      term.ReleaseAllMutex(this);
      Flush(term);
    }

    method VMThreadSleep(tick: uint32) returns (status: Status.Status)
      requires Valid() && Enabled(s, Sleep(tick)) && CanDispatch(s, Sleep(tick))
      modifies this`readyQ, this`tr, this`s, threads`state, threads`ticks
      ensures Valid() && Step(old(s), Sleep(tick), s)
      ensures status == if tick == INFINITE then Status.InvalidParameter else Status.Success
    {
      assert ThreadOk(tr);
      hide Valid, Schedule, Requeue;
      if tick == IMMEDIATE {
        tr.SetState(this, Ready);
        Enqueue(tr);
        Scheduler();
      } else if tick == INFINITE {
        return Status.InvalidParameter;
      } else {
        BlockAndSchedule(ToInt(tick));
      }
      return Status.Success;
    }

    method BlockCurrent(newTicks: int)
      requires Valid()
      modifies this`s, tr`state, tr`ticks
      ensures Valid() && s == Block(old(s), newTicks)
    {
      assert ThreadOk(tr) && tr.id == s.tr;
      hide Valid, Wf;
      tr.SetTicks(this, newTicks);
      tr.SetState(this, Waiting);
    }

    method BlockAndSchedule(newTicks: int)
      requires Valid() && SomeoneReady(Requeue(Block(s, newTicks)))
      modifies this`readyQ, this`tr, this`s, threads`state, threads`ticks
      ensures Valid() && s == Schedule(Block(old(s), newTicks))
    {
      assert tr in threads;
      hide Valid, Schedule, Requeue, Block, Wf;
      BlockCurrent(newTicks);
      Scheduler();
    }

    // ---------- Mutex calls ----------

    method VMMutexCreate(nullArgument: bool) returns (status: Status.Status, mid: nat)
      requires Valid() && Enabled(s, MutexCreate)
      modifies this`mutexes, this`nextMutexId, this`s
      ensures Valid()
      ensures nullArgument ==> status == Status.InvalidParameter && s == old(s)
      ensures !nullArgument ==>
                status == Status.Success && mid !in old(s).mtx && Step(old(s), MutexCreate, s)
      ensures !nullArgument ==>
                && s.mtx == old(s).mtx[mid := Mcb(None, [])]
                && (s.tr, s.thr, s.rq, s.io) == (old(s).tr, old(s).thr, old(s).rq, old(s).io)
    {
      if nullArgument { return Status.InvalidParameter, 0; }
      var mtx := new Mutex(nextMutexId);
      AddNew(mtx);
      return Status.Success, mtx.id;
    }

    method AddNew(mtx: Mutex)
      requires Valid() && mtx.id == nextMutexId && mtx.owner == null && mtx.queue == []
      modifies this`mutexes, this`nextMutexId, this`s
      ensures Valid() && s == AddMutex(old(s))
    {
      forall m | m in mutexes ensures m.id < nextMutexId { assert MutexOk(m); }
      assert forall m :: m in mutexes ==> MutexOk(m);
      assert forall t :: t in threads ==> ThreadOk(t);
      assert s.nextMid !in s.mtx;
      ListedAfter(s.mtx.Keys, mutexes, mtx);
      hide Wf, Listed, MutexIds;
      s := AddMutex(s);
      mutexes := mutexes + [mtx];
      nextMutexId := nextMutexId + 1;
    }

    /** `VMMutexAcquire` up to `scheduler()`.  A call that blocks has no status yet: it is the result of
        AcquireResult when the thread runs again. */
    method VMMutexAcquire(mutex: nat, timeout: uint32) returns (status: Option<Status.Status>)
      requires Valid() && Enabled(s, MutexAcquire(mutex, timeout)) && CanDispatch(s, MutexAcquire(mutex, timeout))
      modifies this`readyQ, this`tr, this`s, threads`state, threads`ticks, threads`waiting, threads`heldMutex, mutexes
      ensures Valid() && Step(old(s), MutexAcquire(mutex, timeout), s)
      ensures status.None? <==> Dispatches(old(s), MutexAcquire(mutex, timeout))
      ensures status.Some? ==>
                status.value == if mutex !in old(s).mtx then Status.InvalidId
                                else if mutex !in old(s).thr[old(s).tr].held && old(s).mtx[mutex].owner.None?
                                then Status.Success
                                else Status.Failure
    {
      var mtx := FindMutex(mutex);
      if mtx == null { return Some(Status.InvalidId); }
      hide Valid, Step;
      status := AcquireFound(mtx, timeout);
    }

    method AcquireFound(mtx: Mutex, timeout: uint32) returns (status: Option<Status.Status>)
      requires Valid() && mtx in mutexes && mtx.id in s.mtx
      requires Enabled(s, MutexAcquire(mtx.id, timeout)) && CanDispatch(s, MutexAcquire(mtx.id, timeout))
      modifies this`readyQ, this`tr, this`s, threads`state, threads`ticks, threads`waiting, threads`heldMutex, mutexes
      ensures Valid() && Step(old(s), MutexAcquire(mtx.id, timeout), s)
      ensures status.None? <==> Dispatches(old(s), MutexAcquire(mtx.id, timeout))
      ensures status.Some? ==>
                status.value == if mtx.id !in old(s).thr[old(s).tr].held && old(s).mtx[mtx.id].owner.None?
                                then Status.Success else Status.Failure
    {
      var t := tr;
      assert ThreadOk(t) && t.id == s.tr && t in threads && Wf(s);
      AcquireStep(s, mtx.id, timeout);
      hide Valid, Schedule, Requeue, Block, Wf, TryAcquire, Before, Dispatches;
      var code := t.AcquireMutex(this, mtx, timeout);
      if timeout == IMMEDIATE {
        return Some(if code != AcquireCode.Success then Status.Failure else Status.Success);
      }
      if code != AcquireCode.Success {
        BlockAndSchedule(ToInt(timeout));
        return None;
      }
      var found := t.FindMutex(mtx.id);
      return Some(if found == null then Status.Failure else Status.Success);
    }

    /** The end of a `VMMutexAcquire` that blocked, when its thread runs again. */
    method AcquireResult(mutex: nat) returns (status: Status.Status)
      requires Valid()
      ensures status == if mutex in s.thr[s.tr].held then Status.Success else Status.Failure
    {
      assert ThreadOk(tr);
      var found := tr.FindMutex(mutex);
      return if found == null then Status.Failure else Status.Success;
    }

    method VMMutexRelease(mutex: nat) returns (status: Status.Status)
      requires Valid() && Enabled(s, MutexRelease(mutex)) && CanDispatch(s, MutexRelease(mutex))
      modifies this`readyQ, this`tr, this`s, threads`state, threads`waiting, threads`heldMutex, mutexes
      ensures Valid() && Step(old(s), MutexRelease(mutex), s)
      ensures status == if mutex !in old(s).mtx then Status.InvalidId
                        else if mutex !in old(s).thr[old(s).tr].held then Status.InvalidState
                        else Status.Success
    {
      var mtx := FindMutex(mutex);
      if mtx == null { return Status.InvalidId; }
      assert ThreadOk(tr) && tr.id == s.tr;
      var held := tr.FindMutex(mutex);
      if held == null { return Status.InvalidState; }
      hide Valid, Step, Before, Schedule, ReleaseHeld;
      ReleaseFound(mutex);
      return Status.Success;
    }

    method ReleaseFound(mutex: nat)
      requires Valid() && mutex in s.mtx && mutex in s.thr[s.tr].held
      requires Enabled(s, MutexRelease(mutex)) && CanDispatch(s, MutexRelease(mutex))
      modifies this`readyQ, this`tr, this`s, threads`state, threads`waiting, threads`heldMutex, mutexes
      ensures Valid() && Step(old(s), MutexRelease(mutex), s)
    {
      assert tr.id == s.tr && tr in threads && Wf(s);
      hide Valid, Schedule, Requeue, ReleaseHeld, Wf;
      var found := tr.ReleaseMutex(this, mutex);
      Scheduler();
    }

    /** Deleting an unknown mutex compares an uninitialised iterator and is not modelled. */
    method VMMutexDelete(mutex: nat) returns (status: Status.Status)
      requires Valid() && Enabled(s, MutexDelete(mutex))
      modifies this`mutexes, this`s
      ensures Valid() && Step(old(s), MutexDelete(mutex), s)
      ensures status == if old(s).mtx[mutex].owner.Some? then Status.InvalidState else Status.Success
      ensures status == Status.Success ==>
                && s.mtx == old(s).mtx - {mutex} && (forall m :: m in mutexes <==> m in old(mutexes) && m.id != mutex)
                && (s.tr, s.thr, s.rq, s.io) == (old(s).tr, old(s).thr, old(s).rq, old(s).io)
      ensures status != Status.Success ==> s == old(s) && mutexes == old(mutexes)
    {
      var pos := 0;
      while pos < |mutexes| && mutexes[pos].id != mutex
        invariant 0 <= pos <= |mutexes|
        invariant forall j :: 0 <= j < pos ==> mutexes[j].id != mutex
      {
        pos := pos + 1;
      }
      assert Listed(mutex, mutexes);
      assert pos < |mutexes| && MutexOk(mutexes[pos]);
      if mutexes[pos].owner != null { return Status.InvalidState; }
      Erase(pos);
      return Status.Success;
    }

    method Erase(pos: nat)
      requires Valid() && pos < |mutexes| && !Referenced(s, mutexes[pos].id)
      modifies this`mutexes, this`s
      ensures Valid() && s == DropMutex(old(s), old(mutexes[pos].id))
      ensures forall m :: m in mutexes <==> m in old(mutexes) && m.id != old(mutexes[pos].id)
    {
      var k := mutexes[pos].id;
      var rest := mutexes[..pos] + mutexes[pos + 1..];
      RestIsEnough(pos, rest);
      hide Wf, Referenced;
      s := DropMutex(s, k);
      mutexes := rest;
    }

    lemma RestIsEnough(pos: nat, rest: seq<Mutex>)
      requires Valid() && pos < |mutexes| && !Referenced(s, mutexes[pos].id)
      requires rest == mutexes[..pos] + mutexes[pos + 1..]
      ensures forall m :: m in rest <==> m in mutexes && m.id != mutexes[pos].id
      ensures forall i, j :: 0 <= i < j < |rest| ==> rest[i].id != rest[j].id
      ensures forall x {:trigger Listed(x, rest)} :: x in s.mtx && x != mutexes[pos].id ==> Listed(x, rest)
      ensures forall t :: t in threads ==>
                (forall m :: m in t.heldMutex ==> m in rest) && (t.waiting != null ==> t.waiting in rest)
    {
      RestIsTheOthers(pos, rest);
      forall x | x in s.mtx && x != mutexes[pos].id ensures Listed(x, rest) { assert Listed(x, mutexes); }
      forall t | t in threads
        ensures (forall m :: m in t.heldMutex ==> m in rest) && (t.waiting != null ==> t.waiting in rest)
      {
        assert ThreadOk(t);
        NobodyNeeds(t, mutexes[pos]);
      }
    }

    /** Nothing but the erased mutex is lost. */
    lemma RestIsTheOthers(pos: nat, rest: seq<Mutex>)
      requires pos < |mutexes| && rest == mutexes[..pos] + mutexes[pos + 1..]
      requires forall i, j :: 0 <= i < j < |mutexes| ==> mutexes[i].id != mutexes[j].id
      ensures forall m :: m in rest <==> m in mutexes && m.id != mutexes[pos].id
      ensures forall i, j :: 0 <= i < j < |rest| ==> rest[i].id != rest[j].id
      ensures forall x :: x in MutexIds(mutexes) && x != mutexes[pos].id ==> x in MutexIds(rest)
    {
      ErasedAt(mutexes, pos, rest);
      ErasedMembers(mutexes, pos, rest);
      hide *;
      forall i, j | 0 <= i < j < |rest| ensures rest[i].id != rest[j].id {
        var i1, j1 := if i < pos then i else i + 1, if j < pos then j else j + 1;
        assert mutexes[i1].id != mutexes[j1].id;
      }
    }

    /** Nothing refers to an unreferenced mutex. */
    lemma NobodyNeeds(t: Thread, mtx: Mutex)
      requires Valid() && mtx in mutexes && !Referenced(s, mtx.id) && t in threads
      ensures forall m :: m in t.heldMutex ==> m.id != mtx.id
      ensures t.waiting != null ==> t.waiting.id != mtx.id
    {
      assert ThreadOk(t) && MutexId(t.waiting) != Some(mtx.id) && mtx.id !in MutexIds(t.heldMutex);
      forall m | m in t.heldMutex ensures m.id != mtx.id {
        var j :| 0 <= j < |t.heldMutex| && t.heldMutex[j] == m;
        assert MutexIds(t.heldMutex)[j] == m.id;
      }
    }
  }
}
