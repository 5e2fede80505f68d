/** Until the service is ended, every outstanding request is in exactly one place, and every callback is
    called at most once, with the result of its own operation. */
module Conservation {
  import opened Basics
  import opened Protocol
  import opened ChildLoop

  function RequestIds(rs: seq<Request>): seq<uint32> {
    seq(|rs|, i requires 0 <= i < |rs| => rs[i].id)
  }

  function ReadIds(rs: seq<PendingRead>): seq<uint32> {
    seq(|rs|, i requires 0 <= i < |rs| => rs[i].id)
  }

  function ReplyIds(rs: seq<Reply>): seq<uint32> {
    seq(|rs|, i requires 0 <= i < |rs| => rs[i].id)
  }

  /** The ids in the request queue, in the child, and in the reply queue, as often as they occur there. */
  function Underway(s: System): multiset<uint32> {
    multiset(RequestIds(s.requests)) + multiset(ReadIds(s.child.waiting)) + multiset(ReplyIds(s.replies))
  }

  lemma IdsPlus(rs: seq<Request>, rs1: seq<Request>, ps: seq<PendingRead>, ps1: seq<PendingRead>, qs: seq<Reply>,
    qs1: seq<Reply>)
    ensures RequestIds(rs + rs1) == RequestIds(rs) + RequestIds(rs1)
    ensures ReadIds(ps + ps1) == ReadIds(ps) + ReadIds(ps1)
    ensures ReplyIds(qs + qs1) == ReplyIds(qs) + ReplyIds(qs1)
  {
  }

  lemma IdsOne(r: Request, p: PendingRead, q: Reply)
    ensures RequestIds([r]) == [r.id] && ReadIds([p]) == [p.id] && ReplyIds([q]) == [q.id]
    ensures RequestIds([]) == [] && ReadIds([]) == [] && ReplyIds([]) == []
  {
  }

  lemma KeysPlus(keys: set<uint32>, id: uint32)
    requires id !in keys
    ensures multiset(keys + {id}) == multiset(keys) + multiset{id}
  {
  }

  lemma Cancel(a: multiset<uint32>, b: multiset<uint32>, x: multiset<uint32>)
    requires a + x == b + x
    ensures a == b
  {
    forall k: uint32 ensures a[k] == b[k] { assert (a + x)[k] == (b + x)[k]; }
  }

  lemma Chained(sum: multiset<uint32>, w: multiset<uint32>, q: multiset<uint32>, left: multiset<uint32>,
    served: multiset<uint32>)
    requires sum == w + q && w == left + served
    ensures sum == left + (q + served)
  {
  }

  lemma Regrouped(m: multiset<uint32>, r: multiset<uint32>, w: multiset<uint32>, p: multiset<uint32>,
                  w1: multiset<uint32>, q: multiset<uint32>)
    requires w + m == w1 + q
    ensures (m + r) + w + p == r + w1 + (p + q)
  {
    assert (m + r) + w + p == (w + m) + (r + p);
    assert r + w1 + (p + q) == (w1 + q) + (r + p);
  }

  /** The outstanding ids, each exactly once. */
  predicate Conserved(s: System) {
    Underway(s) == multiset(s.pending.Keys)
  }

  // ---------- Who asked for what ----------

  /** One call of the parent: what it asked for and whom it wants called back. */
  datatype Issued = Issued(op: Op, callback: Callback)

  /** The calls in the order in which they were made, the call that each outstanding id stands for, the
      result that the operation of each performed call had, and the call behind each firing. */
  datatype History = History(
    issued: seq<Issued>,
    call: map<uint32, nat>,
    results: map<nat, int>,
    fired: seq<nat>
  )

  predicate Start(h: History) {
    h == History([], map[], map[], [])
  }

  /** Every reply that the child sends stands for one operation performed now: its result is that of the
      operation that was asked for, whatever the reply says. */
  function Performed(h: History, replies: seq<Reply>, c: Child, io: Op -> int): map<nat, int>
    requires Known(h, replies)
  {
    if replies == [] then h.results
    else
      var k := |replies| - 1;
      var n := h.call[replies[k].id];
      Performed(h, replies[..k], c, io)[n := ResultOf(c, io, h.issued[n].op)]
  }

  function Sends(s: System, input: Input): seq<Reply>
    requires s.child.polls != []
  {
    Iterate(s.child, if TakesMessage(s.child, input) then Head(s.requests) else None, input).1
  }

  predicate Known(h: History, replies: seq<Reply>) {
    forall i :: 0 <= i < |replies| ==> replies[i].id in h.call && h.call[replies[i].id] < |h.issued|
  }

  function Record(s: System, h: History, e: Event): History
    requires Enabled(s, e)
  {
    match e
    case Sent(op, callback) =>
      h.(issued := h.issued + [Issued(op, callback)], call := h.call[NextId(s.lastId) := |h.issued|])
    case ChildRan(input) =>
      if Known(h, Sends(s, input)) then h.(results := Performed(h, Sends(s, input), s.child, input.io)) else h
    case Delivered =>
      var id := s.replies[0].id;
      if id in s.pending && id in h.call
      then h.(call := h.call - {id}, fired := h.fired + [h.call[id]])
      else h
  }

  // ---------- The invariant ----------

  predicate CallsKnown(s: System, h: History) {
    && h.call.Keys == s.pending.Keys
    && (forall id :: id in h.call ==> h.call[id] < |h.issued| && s.pending[id] == h.issued[h.call[id]].callback)
    && (forall id, other :: id in h.call && other in h.call && id != other ==> h.call[id] != h.call[other])
  }

  /** An id that still waits for its operation. */
  predicate Waits(h: History, id: uint32, op: Op) {
    id in h.call && h.call[id] < |h.issued| && h.issued[h.call[id]].op == op && h.call[id] !in h.results
  }

  predicate Unanswered(s: System, h: History) {
    && (forall i :: 0 <= i < |s.requests| ==> Waits(h, s.requests[i].id, s.requests[i].op) && FileOp(s.requests[i].op))
    && (forall i :: 0 <= i < |s.child.waiting| ==>
                      Waits(h, s.child.waiting[i].id, s.child.waiting[i].AsOp())
                      && ValidTransfer(s.child, s.child.waiting[i].length, s.child.waiting[i].buffer))
  }

  predicate Has(h: History, id: uint32, result: int) {
    id in h.call && h.call[id] in h.results && h.results[h.call[id]] == result
  }

  predicate Answered(s: System, h: History) {
    forall i :: 0 <= i < |s.replies| ==> Has(h, s.replies[i].id, s.replies[i].result)
  }

  /** Every firing belongs to a call of its own, with the callback and the result of that call. */
  predicate FiredOnce(s: System, h: History) {
    && |h.fired| == |s.fired|
    && (forall k :: 0 <= k < |h.fired| ==>
                      && h.fired[k] < |h.issued| && h.fired[k] in h.results
                      && s.fired[k] == Firing(h.issued[h.fired[k]].callback, h.results[h.fired[k]]))
    && (forall k, l :: 0 <= k < l < |h.fired| ==> h.fired[k] != h.fired[l])
    && (forall k, id :: 0 <= k < |h.fired| && id in h.call ==> h.call[id] != h.fired[k])
  }

  predicate ResultsKnown(h: History) {
    forall n :: n in h.results ==> n < |h.issued|
  }

  predicate Inv(s: System, h: History) {
    Conserved(s) && CallsKnown(s, h) && Unanswered(s, h) && Answered(s, h) && FiredOnce(s, h) && ResultsKnown(h)
    && s.child.polls != []
  }

  lemma InitialInv(s: System, h: History)
    requires Initial(s) && Start(h)
    ensures Inv(s, h)
  {
    assert RequestIds(s.requests) == [] && ReadIds(s.child.waiting) == [] && ReplyIds(s.replies) == [];
  }

  // ---------- Sending ----------

  /** Sending keeps the account exactly when the new id is not outstanding: a reused id takes the place of
      the callback that waited under it. */
  lemma IssueConservesIff(s: System, op: Op, callback: Callback)
    requires Conserved(s)
    ensures Conserved(Issue(s, op, callback)) <==> NextId(s.lastId) !in s.pending
  {
    var id := NextId(s.lastId);
    var t := Issue(s, op, callback);
    IdsPlus(s.requests, [Request(id, op)], [], [], [], []);
    IdsOne(Request(id, op), PendingRead(id, 0, 0, 0), Reply(id, 0));
    hide RequestIds, ReadIds, ReplyIds, NextId;
    assert Underway(t) == Underway(s) + multiset{id};
    assert t.pending.Keys == s.pending.Keys + {id};
    if id in s.pending {
      assert Underway(s)[id] == multiset(s.pending.Keys)[id];
      assert Underway(t)[id] == 2 && multiset(t.pending.Keys)[id] == 1;
    } else {
      KeysPlus(s.pending.Keys, id);
    }
  }

  /** The counter has come round to an id that is still outstanding: the callback that waits under it is lost,
      and the id is underway twice. */
  lemma ReusedIdLosesCallback(child: Child, first: Callback, second: Callback)
    requires child.waiting == []
    ensures var s := System(map[1 := first], 0, [Request(1, Close(3))], child, [], []);
            && Conserved(s) && !Conserved(Issue(s, Close(4), second))
            && Issue(s, Close(4), second).pending == map[1 := second]
  {
    var s := System(map[1 := first], 0, [Request(1, Close(3))], child, [], []);
    IdsOne(Request(1, Close(3)), PendingRead(1, 0, 0, 0), Reply(1, 0));
    assert s.pending.Keys == {1};
    hide RequestIds, ReadIds, ReplyIds;
    IssueConservesIff(s, Close(4), second);
  }

  /** A new call leaves what is known of the others. */
  lemma NewCall(h: History, id: uint32, call: Issued)
    requires id !in h.call && ResultsKnown(h)
    ensures var g := h.(issued := h.issued + [call], call := h.call[id := |h.issued|]);
            && Waits(g, id, call.op) && ResultsKnown(g)
            && (forall other, op :: Waits(h, other, op) ==> Waits(g, other, op))
            && (forall other, result :: Has(h, other, result) ==> Has(g, other, result))
  {
  }

  lemma IssueKeepsCalls(s: System, h: History, op: Op, callback: Callback)
    requires CallsKnown(s, h) && FiredOnce(s, h) && ResultsKnown(h) && Enabled(s, Sent(op, callback))
    ensures CallsKnown(Issue(s, op, callback), Record(s, h, Sent(op, callback)))
    ensures FiredOnce(Issue(s, op, callback), Record(s, h, Sent(op, callback)))
  {
    hide NextId;
  }

  lemma IssueKeepsInv(s: System, h: History, op: Op, callback: Callback)
    requires Inv(s, h) && Enabled(s, Sent(op, callback))
    ensures Inv(Issue(s, op, callback), Record(s, h, Sent(op, callback)))
  {
    var id := NextId(s.lastId);
    assert h.call.Keys == s.pending.Keys;
    hide Conserved, Waits, Has, CallsKnown, FiredOnce, ResultsKnown, NextId;
    IssueConservesIff(s, op, callback);
    NewCall(h, id, Issued(op, callback));
    IssueKeepsCalls(s, h, op, callback);
  }

  // ---------- Delivering ----------

  /** An id underway is outstanding, and is nowhere else. */
  lemma UnderwayOnce(s: System, a: multiset<uint32>, b: multiset<uint32>, id: uint32)
    requires Conserved(s) && Underway(s) == a + b && id in a
    ensures id in s.pending && a[id] == 1 && id !in b
  {
    assert (a + b)[id] == multiset(s.pending.Keys)[id] <= 1;
  }

  lemma InIds(rs: seq<Request>, ps: seq<PendingRead>, qs: seq<Reply>)
    ensures forall i :: 0 <= i < |rs| ==> rs[i].id in multiset(RequestIds(rs))
    ensures forall i :: 0 <= i < |ps| ==> ps[i].id in multiset(ReadIds(ps))
    ensures forall i :: 0 <= i < |qs| ==> qs[i].id in multiset(ReplyIds(qs))
  {
    assert forall i :: 0 <= i < |rs| ==> RequestIds(rs)[i] == rs[i].id;
    assert forall i :: 0 <= i < |ps| ==> ReadIds(ps)[i] == ps[i].id;
    assert forall i :: 0 <= i < |qs| ==> ReplyIds(qs)[i] == qs[i].id;
  }

  lemma DeliverTakesOne(s: System)
    requires Conserved(s) && s.replies != []
    ensures s.replies[0].id in s.pending && Conserved(Deliver(s))
    ensures forall i :: 0 <= i < |s.requests| ==> s.requests[i].id != s.replies[0].id
    ensures forall i :: 0 <= i < |s.child.waiting| ==> s.child.waiting[i].id != s.replies[0].id
    ensures forall i :: 1 <= i < |s.replies| ==> s.replies[i].id != s.replies[0].id
  {
    var id, rest := s.replies[0].id, s.replies[1..];
    IdsPlus([], [], [], [], [s.replies[0]], rest);
    IdsOne(Request(id, Nothing), PendingRead(id, 0, 0, 0), s.replies[0]);
    assert s.replies == [s.replies[0]] + rest;
    InIds(s.requests, s.child.waiting, rest);
    assert forall i :: 1 <= i < |s.replies| ==> s.replies[i] == rest[i - 1];
    var others := multiset(RequestIds(s.requests)) + multiset(ReadIds(s.child.waiting)) + multiset(ReplyIds(rest));
    hide RequestIds, ReadIds, ReplyIds;
    UnderwayOnce(s, multiset{id}, others, id);
    var keys := s.pending.Keys - {id};
    KeysPlus(keys, id);
    assert keys + {id} == s.pending.Keys;
    var t := Deliver(s);
    assert t.pending.Keys == keys && Underway(t) == others;
    Cancel(others, multiset(keys), multiset{id});
  }

  /** The call whose reply was delivered is forgotten; what is known of the others stays. */
  lemma EndedCall(h: History, id: uint32)
    ensures var g := h.(call := h.call - {id}, fired := h.fired + if id in h.call then [h.call[id]] else []);
            && (forall other, op :: other != id && Waits(h, other, op) ==> Waits(g, other, op))
            && (forall other, result :: other != id && Has(h, other, result) ==> Has(g, other, result))
  {
  }

  lemma DeliverKeepsCalls(s: System, h: History)
    requires CallsKnown(s, h) && FiredOnce(s, h) && ResultsKnown(h) && s.replies != []
    requires Has(h, s.replies[0].id, s.replies[0].result)
    ensures CallsKnown(Deliver(s), Record(s, h, Delivered)) && FiredOnce(Deliver(s), Record(s, h, Delivered))
  {
  }

  lemma DeliverKeepsInv(s: System, h: History)
    requires Inv(s, h) && s.replies != []
    ensures Inv(Deliver(s), Record(s, h, Delivered))
  {
    DeliverTakesOne(s);
    var t, g := Deliver(s), Record(s, h, Delivered);
    var id := s.replies[0].id;
    EndedCall(h, id);
    DeliverKeepsCalls(s, h);
    assert g == h.(call := h.call - {id}, fired := h.fired + [h.call[id]]);
    assert ResultsKnown(g);
    hide Conserved, Waits, Has, CallsKnown, FiredOnce, ResultsKnown;
  }

  // ---------- The child's turn ----------

  lemma RemoveMovesId(waiting: seq<PendingRead>, i: nat)
    requires i < |waiting|
    ensures multiset(ReadIds(waiting)) == multiset(ReadIds(RemoveAt(waiting, i))) + multiset{waiting[i].id}
  {
    var before, r, after := waiting[..i], waiting[i], waiting[i + 1..];
    assert waiting == before + ([r] + after);
    IdsPlus([], [], before, [r] + after, [], []);
    IdsPlus([], [], [r], after, [], []);
    IdsPlus([], [], before, after, [], []);
    IdsOne(Request(r.id, Nothing), r, Reply(r.id, 0));
    hide RequestIds, ReadIds, ReplyIds;
  }

  lemma {:induction false} ServeMovesIds(polls: seq<PollFD>, k: nat, waiting: seq<PendingRead>)
    requires k <= |polls|
    ensures var (left, served) := Serve(polls, k, waiting);
            multiset(ReadIds(waiting)) == multiset(ReadIds(left)) + multiset(ReadIds(served))
    decreases |polls| - k
  {
    if k == |polls| {
      assert ReadIds([]) == [];
    } else {
      var i := FirstOn(waiting, polls[k].fd);
      if !polls[k].revents || i.None? {
        ServeMovesIds(polls, k + 1, waiting);
      } else {
        var rest := RemoveAt(waiting, i.value);
        var r := waiting[i.value];
        ServeMovesIds(polls, k + 1, rest);
        RemoveMovesId(waiting, i.value);
        var (left, served) := Serve(polls, k + 1, rest);
        IdsPlus([], [], [r], served, [], []);
        IdsOne(Request(r.id, Nothing), r, Reply(r.id, 0));
        assert Serve(polls, k, waiting) == (left, [r] + served);
        hide RequestIds, ReadIds, ReplyIds, RemoveAt, Serve;
      }
    }
  }

  /** The message that a turn takes from the request queue. */
  function Taken(s: System, input: Input): Option<Request> {
    if TakesMessage(s.child, input) then Head(s.requests) else None
  }

  function IdOf(message: Option<Request>): seq<uint32> {
    if message.Some? then [message.value.id] else []
  }

  lemma AcceptMovesIds(c: Child, message: Option<Request>, input: Input)
    requires c.polls != [] && (message.Some? ==> TakesMessage(c, input) && FileOp(message.value.op))
    ensures var (d, replies) := AfterMessage(c, message, input);
            multiset(ReadIds(c.waiting)) + multiset(IdOf(message))
              == multiset(ReadIds(d.waiting)) + multiset(ReplyIds(replies))
  {
    var (d, replies) := AfterMessage(c, message, input);
    if message.Some? {
      var r := message.value;
      var p := if r.op.Read? then PendingRead(r.id, r.op.fd, r.op.length, r.op.buffer) else PendingRead(r.id, 0, 0, 0);
      IdsPlus([], [], c.waiting, [p], [], []);
      IdsOne(r, p, Reply(r.id, ResultOf(c, input.io, r.op)));
      IdsOne(r, p, Reply(r.id, -1));
    } else {
      IdsOne(Request(0, Nothing), PendingRead(0, 0, 0, 0), Reply(0, 0));
    }
    hide RequestIds, ReadIds, ReplyIds, ValidSharePointer, Polled, Watching;
  }

  lemma IterateMovesIds(c: Child, message: Option<Request>, input: Input)
    requires c.polls != [] && (message.Some? ==> TakesMessage(c, input) && FileOp(message.value.op))
    ensures var (d, replies) := Iterate(c, message, input);
            multiset(ReadIds(c.waiting)) + multiset(IdOf(message))
              == multiset(ReadIds(d.waiting)) + multiset(ReplyIds(replies))
  {
    AcceptMovesIds(c, message, input);
    var (d, replies) := AfterMessage(c, message, input);
    var served := Serve(d.polls, 1, d.waiting).1;
    ServeMovesIds(d.polls, 1, d.waiting);
    assert ReplyIds(Answers(served, input.io)) == ReadIds(served);
    IdsPlus([], [], [], [], replies, Answers(served, input.io));
    var (e, all) := Iterate(c, message, input);
    assert e.waiting == Serve(d.polls, 1, d.waiting).0 && all == replies + Answers(served, input.io);
    Chained(multiset(ReadIds(c.waiting)) + multiset(IdOf(message)), multiset(ReadIds(d.waiting)),
            multiset(ReplyIds(replies)), multiset(ReadIds(e.waiting)), multiset(ReadIds(served)));
    assert multiset(ReplyIds(all)) == multiset(ReplyIds(replies)) + multiset(ReadIds(served));
    hide *;
  }

  lemma TurnConserves(s: System, input: Input)
    requires Conserved(s) && s.child.polls != [] && (forall i :: 0 <= i < |s.requests| ==> FileOp(s.requests[i].op))
    ensures Conserved(ChildTurn(s, input))
  {
    var message := Taken(s, input);
    var (d, replies) := Iterate(s.child, message, input);
    IterateMovesIds(s.child, message, input);
    var t := ChildTurn(s, input);
    IdsPlus([], [], [], [], s.replies, replies);
    if message.Some? {
      assert s.requests == [message.value] + t.requests;
      IdsPlus([message.value], t.requests, [], [], [], []);
      IdsOne(message.value, PendingRead(0, 0, 0, 0), Reply(0, 0));
    }
    Regrouped(multiset(IdOf(message)), multiset(RequestIds(t.requests)), multiset(ReadIds(s.child.waiting)),
              multiset(ReplyIds(s.replies)), multiset(ReadIds(d.waiting)), multiset(ReplyIds(replies)));
    hide Iterate, TakesMessage, RequestIds, ReadIds, ReplyIds;
    assert t.pending == s.pending && t.child == d && t.replies == s.replies + replies;
  }

  /** A reply with the result that belongs to the operation of its own call. */
  predicate Own(h: History, c: Child, io: Op -> int, r: Reply) {
    && r.id in h.call && h.call[r.id] < |h.issued|
    && Waits(h, r.id, h.issued[h.call[r.id]].op)
    && r.result == ResultOf(c, io, h.issued[h.call[r.id]].op)
  }

  lemma SendsOwnResults(s: System, h: History, input: Input)
    requires Unanswered(s, h) && s.child.polls != []
    ensures forall i :: 0 <= i < |Sends(s, input)| ==> Own(h, s.child, input.io, Sends(s, input)[i])
    ensures var d := Iterate(s.child, Taken(s, input), input).0;
            forall i :: 0 <= i < |d.waiting| ==> Waits(h, d.waiting[i].id, d.waiting[i].AsOp())
                                                 && ValidTransfer(d, d.waiting[i].length, d.waiting[i].buffer)
  {
    var c, message := s.child, Taken(s, input);
    var (d, replies) := AfterMessage(c, message, input);
    AcceptOwn(s, h, input);
    ServeOnlyRemoves(d.polls, 1, d.waiting);
    var (left, served) := Serve(d.polls, 1, d.waiting);
    assert Sends(s, input) == replies + Answers(served, input.io);
    hide AfterMessage, Serve, Waits, Prune, ValidSharePointer, FileOp;
    forall i | 0 <= i < |served| ensures Own(h, c, input.io, Answers(served, input.io)[i]) {
      assert served[i] in d.waiting;
    }
    forall i | 0 <= i < |left|
      ensures Waits(h, left[i].id, left[i].AsOp()) && ValidTransfer(c, left[i].length, left[i].buffer)
    {
      assert left[i] in d.waiting;
    }
  }

  predicate WaitingReads(h: History, c: Child, waiting: seq<PendingRead>) {
    forall r :: r in waiting ==>
                  Waits(h, r.id, r.AsOp()) && r.id in h.call && h.call[r.id] < |h.issued|
                  && h.issued[h.call[r.id]].op == r.AsOp() && ValidTransfer(c, r.length, r.buffer)
  }

  lemma AcceptOwn(s: System, h: History, input: Input)
    requires Unanswered(s, h) && s.child.polls != []
    ensures var (d, replies) := AfterMessage(s.child, Taken(s, input), input);
            && d.base == s.child.base && d.size == s.child.size && d.polls != []
            && WaitingReads(h, s.child, d.waiting)
            && forall i :: 0 <= i < |replies| ==> Own(h, s.child, input.io, replies[i])
  {
    var message := Taken(s, input);
    assert message.Some? ==> message.value == s.requests[0] && Waits(h, s.requests[0].id, s.requests[0].op);
  }

  predicate DistinctReplies(h: History, replies: seq<Reply>)
    requires Known(h, replies)
  {
    forall i, j :: 0 <= i < j < |replies| ==> h.call[replies[i].id] != h.call[replies[j].id]
  }

  /** The results of the performed calls are recorded, and no others change. */
  lemma {:induction false} PerformedFacts(h: History, replies: seq<Reply>, c: Child, io: Op -> int)
    requires Known(h, replies) && DistinctReplies(h, replies)
    ensures var p := Performed(h, replies, c, io);
            && (forall i :: 0 <= i < |replies| ==>
                  var n := h.call[replies[i].id]; n in p && p[n] == ResultOf(c, io, h.issued[n].op))
            && (forall n :: n in p ==> n in h.results || exists i :: 0 <= i < |replies| && h.call[replies[i].id] == n)
            && (forall n :: n in h.results && (forall i :: 0 <= i < |replies| ==> h.call[replies[i].id] != n)
                 ==> n in p && p[n] == h.results[n])
  {
    if replies != [] {
      var k := |replies| - 1;
      assert forall i :: 0 <= i < k ==> replies[..k][i] == replies[i];
      PerformedFacts(h, replies[..k], c, io);
    }
  }

  lemma DistinctIn(ids: seq<uint32>, others: multiset<uint32>, keys: set<uint32>)
    requires multiset(ids) + others == multiset(keys)
    ensures forall i, j :: 0 <= i < j < |ids| ==> ids[i] != ids[j]
    ensures forall i :: 0 <= i < |ids| ==> ids[i] !in others
  {
    forall i, j | 0 <= i < j < |ids| ensures ids[i] != ids[j] {
      assert ids == ids[..j] + ids[j..];
      assert ids[i] in multiset(ids[..j]) && ids[j] in multiset(ids[j..]) by {
        assert ids[..j][i] == ids[i] && ids[j..][0] == ids[j];
      }
      assert (multiset(ids) + others)[ids[j]] <= 1;
    }
    forall i | 0 <= i < |ids| ensures ids[i] !in others {
      assert ids[i] in multiset(ids) && (multiset(ids) + others)[ids[i]] <= 1;
    }
  }

  predicate Elsewhere(replies: seq<Reply>, id: uint32) {
    forall i :: 0 <= i < |replies| ==> replies[i].id != id
  }

  predicate DistinctIds(replies: seq<Reply>) {
    forall i, j :: 0 <= i < j < |replies| ==> replies[i].id != replies[j].id
  }

  /** A reply's id is in no other reply and in neither other place. */
  lemma RepliesApart(s: System, old_: seq<Reply>, new_: seq<Reply>)
    requires Conserved(s) && s.replies == old_ + new_
    ensures DistinctIds(new_)
    ensures forall i :: 0 <= i < |old_| ==> Elsewhere(new_, old_[i].id)
    ensures forall i :: 0 <= i < |s.requests| ==> Elsewhere(new_, s.requests[i].id)
    ensures forall i :: 0 <= i < |s.child.waiting| ==> Elsewhere(new_, s.child.waiting[i].id)
  {
    var others := multiset(RequestIds(s.requests)) + multiset(ReadIds(s.child.waiting));
    var ids := ReplyIds(s.replies);
    assert multiset(ids) + others == multiset(s.pending.Keys);
    DistinctIn(ids, others, s.pending.Keys);
    InIds(s.requests, s.child.waiting, s.replies);
    assert forall i :: 0 <= i < |old_| ==> ids[i] == old_[i].id;
    assert forall i :: 0 <= i < |new_| ==> ids[|old_| + i] == new_[i].id;
    hide Conserved;
  }

  predicate Injective(h: History) {
    forall id, other :: id in h.call && other in h.call && id != other ==> h.call[id] != h.call[other]
  }

  /** What a turn records leaves what is known of the ids that it does not answer. */
  lemma OthersKept(h: History, replies: seq<Reply>, c: Child, io: Op -> int, id: uint32)
    requires Known(h, replies) && DistinctReplies(h, replies) && Injective(h) && Elsewhere(replies, id)
    ensures var g := h.(results := Performed(h, replies, c, io));
            && (forall op :: Waits(h, id, op) ==> Waits(g, id, op))
            && (forall result :: Has(h, id, result) ==> Has(g, id, result))
  {
    PerformedFacts(h, replies, c, io);
    hide Performed;
  }

  lemma OwnIsHeld(h: History, replies: seq<Reply>, c: Child, io: Op -> int)
    requires Known(h, replies) && DistinctReplies(h, replies)
    requires forall i :: 0 <= i < |replies| ==> Own(h, c, io, replies[i])
    ensures var g := h.(results := Performed(h, replies, c, io));
            && (forall i :: 0 <= i < |replies| ==> Has(g, replies[i].id, replies[i].result))
            && (ResultsKnown(h) ==> ResultsKnown(g))
  {
    PerformedFacts(h, replies, c, io);
    hide Performed, ResultOf, Waits;
  }

  lemma FiringsKept(s: System, h: History, replies: seq<Reply>, c: Child, io: Op -> int)
    requires Known(h, replies) && DistinctReplies(h, replies) && FiredOnce(s, h)
    ensures FiredOnce(s, h.(results := Performed(h, replies, c, io)))
  {
    PerformedFacts(h, replies, c, io);
    hide Performed, ResultOf;
  }

  lemma UnansweredKept(t: System, h: History, replies: seq<Reply>, c: Child, io: Op -> int)
    requires Known(h, replies) && DistinctReplies(h, replies) && Injective(h) && Unanswered(t, h)
    requires forall i :: 0 <= i < |t.requests| ==> Elsewhere(replies, t.requests[i].id)
    requires forall i :: 0 <= i < |t.child.waiting| ==> Elsewhere(replies, t.child.waiting[i].id)
    ensures Unanswered(t, h.(results := Performed(h, replies, c, io)))
  {
    hide Waits, Elsewhere, Known, DistinctReplies, Injective, FileOp, ValidTransfer, Performed;
    forall i | 0 <= i < |t.requests| {
      OthersKept(h, replies, c, io, t.requests[i].id);
    }
    forall i | 0 <= i < |t.child.waiting| {
      OthersKept(h, replies, c, io, t.child.waiting[i].id);
    }
  }

  lemma AnsweredKept(t: System, h: History, before: seq<Reply>, replies: seq<Reply>, c: Child, io: Op -> int)
    requires Known(h, replies) && DistinctReplies(h, replies) && Injective(h)
    requires t.replies == before + replies
    requires forall i :: 0 <= i < |before| ==>
                           Elsewhere(replies, before[i].id) && Has(h, before[i].id, before[i].result)
    requires forall i :: 0 <= i < |replies| ==> Own(h, c, io, replies[i])
    ensures Answered(t, h.(results := Performed(h, replies, c, io)))
  {
    OwnIsHeld(h, replies, c, io);
    hide Has, Elsewhere, Known, DistinctReplies, Injective, Own, Performed;
    forall i | 0 <= i < |before| {
      OthersKept(h, replies, c, io, before[i].id);
    }
  }

  lemma TurnLeavesUnanswered(s: System, h: History, input: Input)
    requires Unanswered(s, h) && s.child.polls != []
    ensures Unanswered(ChildTurn(s, input), h)
  {
    SendsOwnResults(s, h, input);
    hide Waits, FileOp, ValidSharePointer, Iterate, Own;
  }

  lemma TurnParts(s: System, input: Input)
    requires s.child.polls != []
    ensures var t := ChildTurn(s, input);
            && t.child.polls != [] && t.pending == s.pending && t.fired == s.fired
            && t.replies == s.replies + Sends(s, input)
  {
  }

  lemma OwnAreDistinct(h: History, replies: seq<Reply>, c: Child, io: Op -> int)
    requires Injective(h) && DistinctIds(replies) && forall i :: 0 <= i < |replies| ==> Own(h, c, io, replies[i])
    ensures Known(h, replies) && DistinctReplies(h, replies)
  {
    hide Waits, ResultOf;
  }

  lemma TurnKeepsInv(s: System, h: History, input: Input)
    requires Inv(s, h) && Enabled(s, ChildRan(input))
    ensures Inv(ChildTurn(s, input), Record(s, h, ChildRan(input)))
  {
    var t, out := ChildTurn(s, input), Sends(s, input);
    assert Injective(h) && forall i :: 0 <= i < |s.requests| ==> FileOp(s.requests[i].op);
    assert forall i :: 0 <= i < |s.replies| ==> Has(h, s.replies[i].id, s.replies[i].result);
    hide ChildTurn, Performed, Conserved, CallsKnown, Unanswered, Iterate, Sends, Own, Known, DistinctReplies,
         DistinctIds, Injective, Has, Elsewhere, FileOp, FiredOnce;
    TurnConserves(s, input);
    TurnParts(s, input);
    SendsOwnResults(s, h, input);
    TurnLeavesUnanswered(s, h, input);
    RepliesApart(t, s.replies, out);
    OwnAreDistinct(h, out, s.child, input.io);
    UnansweredKept(t, h, out, s.child, input.io);
    AnsweredKept(t, h, s.replies, out, s.child, input.io);
    FiringsKept(s, h, out, s.child, input.io);
    OwnIsHeld(h, out, s.child, input.io);
    OnlyResultsChange(s, t, h, Performed(h, out, s.child, input.io));
  }

  lemma OnlyResultsChange(s: System, t: System, h: History, results: map<nat, int>)
    requires t.pending == s.pending && t.fired == s.fired
    ensures var g := h.(results := results);
            (CallsKnown(s, h) ==> CallsKnown(t, g)) && (FiredOnce(s, g) ==> FiredOnce(t, g))
  {
  }

  // ---------- Runs ----------

  /** A run from the start: each state and history follows from the one before by an enabled event. */
  predicate Run(states: seq<System>, histories: seq<History>, events: seq<Event>) {
    && |states| == |histories| == |events| + 1
    && Initial(states[0]) && Start(histories[0])
    && forall i :: 0 <= i < |events| ==>
                     && Enabled(states[i], events[i])
                     && states[i + 1] == Next(states[i], events[i])
                     && histories[i + 1] == Record(states[i], histories[i], events[i])
  }

  lemma {:induction false} EveryRunKeepsInv(states: seq<System>, histories: seq<History>, events: seq<Event>, i: nat)
    requires Run(states, histories, events) && i < |states|
    ensures Inv(states[i], histories[i])
  {
    if i == 0 {
      InitialInv(states[0], histories[0]);
    } else {
      EveryRunKeepsInv(states, histories, events, i - 1);
      var s, h := states[i - 1], histories[i - 1];
      assert Enabled(s, events[i - 1]) && states[i] == Next(s, events[i - 1]);
      assert histories[i] == Record(s, h, events[i - 1]);
      hide Run, Inv, Record, Issue, Deliver, ChildTurn;
      match events[i - 1] {
        case Sent(op, callback) => IssueKeepsInv(s, h, op, callback);
        case ChildRan(input) => TurnKeepsInv(s, h, input);
        case Delivered => DeliverKeepsInv(s, h);
      }
    }
  }

  /** In every run each outstanding id is in exactly one of the request queue, the child's pending reads and
      the reply queue, and no other id is there. */
  lemma OutstandingInOnePlace(states: seq<System>, histories: seq<History>, events: seq<Event>, i: nat, id: uint32)
    requires Run(states, histories, events) && i < |states|
    ensures var s := states[i];
            multiset(RequestIds(s.requests))[id] + multiset(ReadIds(s.child.waiting))[id]
            + multiset(ReplyIds(s.replies))[id]
            == if id in s.pending then 1 else 0
  {
    EveryRunKeepsInv(states, histories, events, i);
    assert Underway(states[i])[id] == multiset(states[i].pending.Keys)[id];
  }

  /** In every run each firing belongs to a call of its own, made before, and carries that call's callback
      and the result of that call's operation. */
  lemma EachCallbackFiresOnce(states: seq<System>, histories: seq<History>, events: seq<Event>, i: nat)
    requires Run(states, histories, events) && i < |states|
    ensures FiredOnce(states[i], histories[i])
  {
    EveryRunKeepsInv(states, histories, events, i);
  }
}
