/** The file service as a value: a parent that sends requests and waits for replies by request id, a child
    that performs them, and the two message queues between them. */
module Protocol {
  import opened Basics

  const MAX_TRANSFER: int := 512

  // ---------- Messages ----------

  /** What a request asks for, with the arguments that its message carries. */
  datatype Op =
    | Nothing
    | Open(name: seq<byte>, flags: int, mode: int)
    | Read(fd: int, length: int, buffer: nat)
    | Write(fd: int, length: int, buffer: nat)
    | Seek(fd: int, offset: int, whence: int)
    | Close(fd: int)
    | Terminate

  datatype Request = Request(id: uint32, op: Op)
  datatype Reply = Reply(id: uint32, result: int)
  datatype PendingRead = PendingRead(id: uint32, fd: int, length: int, buffer: nat)
  {
    function AsOp(): Op {
      Read(fd, length, buffer)
    }
  }

  // ---------- The child ----------

  datatype PollFD = PollFD(fd: int, revents: bool)

  /** Index 0 of `polls` is the signal pipe. */
  datatype Child = Child(base: nat, size: nat, polls: seq<PollFD>, waiting: seq<PendingRead>, terminated: bool)

  predicate ValidSharePointer(base: nat, size: nat, p: nat) {
    base <= p < base + size
  }

  predicate ValidTransfer(c: Child, length: int, buffer: nat) {
    ValidSharePointer(c.base, c.size, buffer) && length <= MAX_TRANSFER
  }

  /** What the system calls give during one iteration: the result of poll, what it reports at each index,
      the result of every operation, and whether the parent is gone. */
  datatype Input = Input(polled: int, ready: nat -> bool, io: Op -> int, parentGone: bool)

  /** The result that belongs to an operation. */
  function ResultOf(c: Child, io: Op -> int, op: Op): int {
    match op
    case Read(_, length, buffer) => if ValidTransfer(c, length, buffer) then io(op) else -1
    case Write(_, length, buffer) => if ValidTransfer(c, length, buffer) then io(op) else -1
    case _ => io(op)
  }

  predicate Watching(polls: seq<PollFD>, fd: int) {
    exists i :: 0 <= i < |polls| && polls[i].fd == fd
  }

  function Polled(polls: seq<PollFD>, ready: nat -> bool): seq<PollFD> {
    seq(|polls|, i requires 0 <= i < |polls| => polls[i].(revents := ready(i)))
  }

  /** One request: either it is answered, or it is a read that waits. */
  function Accept(c: Child, r: Request, io: Op -> int): (Child, seq<Reply>) {
    match r.op
    case Nothing => (c, [])
    case Terminate => (c.(terminated := true), [])
    case Read(fd, length, buffer) =>
      if ValidTransfer(c, length, buffer) then
        (c.(polls := if Watching(c.polls, fd) then c.polls else c.polls + [PollFD(fd, false)],
            waiting := c.waiting + [PendingRead(r.id, fd, length, buffer)]), [])
      else (c, [Reply(r.id, -1)])
    case _ => (c, [Reply(r.id, ResultOf(c, io, r.op))])
  }

  /** The oldest pending read on a descriptor. */
  function FirstOn(waiting: seq<PendingRead>, fd: int): (r: Option<nat>)
    ensures r.Some? ==> r.value < |waiting| && waiting[r.value].fd == fd
                        && forall i :: 0 <= i < r.value ==> waiting[i].fd != fd
    ensures r.None? ==> forall i :: 0 <= i < |waiting| ==> waiting[i].fd != fd
  {
    if waiting == [] then None
    else if waiting[0].fd == fd then Some(0)
    else match FirstOn(waiting[1..], fd)
      case None => None
      case Some(i) => Some(i + 1)
  }

  /** The reads left, and the reads performed in order, after each ready descriptor from index k on has
      given its oldest read. */
  function Serve(polls: seq<PollFD>, k: nat, waiting: seq<PendingRead>): (seq<PendingRead>, seq<PendingRead>)
    requires k <= |polls|
    decreases |polls| - k
  {
    if k == |polls| then (waiting, [])
    else
      var i := FirstOn(waiting, polls[k].fd);
      if !polls[k].revents || i.None? then Serve(polls, k + 1, waiting)
      else
        var (left, served) := Serve(polls, k + 1, RemoveAt(waiting, i.value));
        (left, [waiting[i.value]] + served)
  }

  function Answers(served: seq<PendingRead>, io: Op -> int): seq<Reply> {
    seq(|served|, i requires 0 <= i < |served| => Reply(served[i].id, io(served[i].AsOp())))
  }

  /** The descriptors that some pending read still needs. */
  function Prune(polls: seq<PollFD>, waiting: seq<PendingRead>): seq<PollFD> {
    if polls == [] then []
    else (if FirstOn(waiting, polls[0].fd).Some? then [polls[0]] else []) + Prune(polls[1..], waiting)
  }

  predicate TakesMessage(c: Child, input: Input) {
    c.polls != [] && input.polled > 0 && input.ready(0)
  }

  /** The child after the poll and the message, if there was one, with the replies sent. */
  function AfterMessage(c: Child, message: Option<Request>, input: Input): (Child, seq<Reply>) {
    var d := c.(polls := Polled(c.polls, input.ready));
    if TakesMessage(c, input) then
      match message
      case None => (d, [])
      case Some(r) => Accept(d, r, input.io)
    else if input.polled == 0 && input.parentGone then (d.(terminated := true), [])
    else (d, [])
  }

  function ServedBy(c: Child, message: Option<Request>, input: Input): seq<PendingRead>
    requires c.polls != []
  {
    var d := AfterMessage(c, message, input).0;
    Serve(d.polls, 1, d.waiting).1
  }

  /** One iteration of the child's loop. */
  function Iterate(c: Child, message: Option<Request>, input: Input): (Child, seq<Reply>)
    requires c.polls != []
  {
    var (d, answers) := AfterMessage(c, message, input);
    var (left, served) := Serve(d.polls, 1, d.waiting);
    (d.(waiting := left, polls := d.polls[..1] + Prune(d.polls[1..], left)), answers + Answers(served, input.io))
  }

  // ---------- The whole system ----------

  datatype Callback = Callback(code: nat, calldata: nat)

  /** A call that was made to a callback. */
  datatype Firing = Firing(callback: Callback, result: int)

  datatype System = System(
    pending: map<uint32, Callback>,
    lastId: uint32,
    requests: seq<Request>,
    child: Child,
    replies: seq<Reply>,
    fired: seq<Firing>
  )

  function NextId(id: uint32): uint32 {
    (id + 1) % 0x1_0000_0000
  }

  /** The parent sends a request. */
  function Issue(s: System, op: Op, callback: Callback): System {
    var id := NextId(s.lastId);
    s.(lastId := id, pending := s.pending[id := callback], requests := s.requests + [Request(id, op)])
  }

  function Head<T>(s: seq<T>): Option<T> {
    if s == [] then None else Some(s[0])
  }

  /** One iteration of the child. */
  function ChildTurn(s: System, input: Input): System
    requires s.child.polls != []
  {
    var message := if TakesMessage(s.child, input) then Head(s.requests) else None;
    var (c, answers) := Iterate(s.child, message, input);
    s.(child := c,
       requests := if message.Some? then s.requests[1..] else s.requests,
       replies := s.replies + answers)
  }

  /** The parent's signal handler takes one reply. */
  function Deliver(s: System): System
    requires s.replies != []
  {
    var r := s.replies[0];
    var t := s.(replies := s.replies[1..]);
    if r.id in s.pending then
      t.(pending := s.pending - {r.id}, fired := s.fired + [Firing(s.pending[r.id], r.result)])
    else t
  }

  /** The handler takes replies until there are none. */
  function DeliverAll(s: System): System
    decreases |s.replies|
  {
    if s.replies == [] then s else DeliverAll(Deliver(s))
  }

  datatype Event = Sent(op: Op, callback: Callback) | ChildRan(input: Input) | Delivered

  /** The requests that the parent sends before it ends the service. */
  predicate FileOp(op: Op) {
    op.Open? || op.Read? || op.Write? || op.Seek? || op.Close?
  }

  /** When an event can happen: no TERMINATE is sent and the parent lives, and a request id is not reused
      while it is outstanding. */
  predicate Enabled(s: System, e: Event) {
    match e
    case Sent(op, _) => FileOp(op) && NextId(s.lastId) !in s.pending
    case ChildRan(input) => s.child.polls != [] && !input.parentGone
    case Delivered => s.replies != []
  }

  function Next(s: System, e: Event): System
    requires Enabled(s, e)
  {
    match e
    case Sent(op, callback) => Issue(s, op, callback)
    case ChildRan(input) => ChildTurn(s, input)
    case Delivered => Deliver(s)
  }

  predicate Initial(s: System) {
    && s.pending == map[] && s.requests == [] && s.replies == [] && s.fired == []
    && |s.child.polls| == 1 && s.child.waiting == [] && !s.child.terminated
  }
}
