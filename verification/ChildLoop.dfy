/** What each iteration of the child's loop keeps: the descriptors it polls are those of its pending reads,
    and reads on one descriptor are answered in the order in which they arrived. */
module ChildLoop {
  import opened Basics
  import opened Protocol

  // ---------- The polled descriptors ----------

  predicate DistinctFDs(polls: seq<PollFD>) {
    forall i, j :: 0 <= i < j < |polls| ==> polls[i].fd != polls[j].fd
  }

  predicate Reading(waiting: seq<PendingRead>, fd: int) {
    exists i :: 0 <= i < |waiting| && waiting[i].fd == fd
  }

  /** Every pending read has its descriptor polled. */
  predicate Covering(c: Child) {
    forall i :: 0 <= i < |c.waiting| ==> Watching(c.polls, c.waiting[i].fd)
  }

  /** Beyond the signal pipe, exactly the descriptors of the pending reads are polled, each once. */
  predicate Watched(c: Child) {
    && |c.polls| >= 1 && DistinctFDs(c.polls) && Covering(c)
    && forall i :: 1 <= i < |c.polls| ==> Reading(c.waiting, c.polls[i].fd)
  }

  /** The set of descriptors polled beyond index 0 is the set of descriptors of pending reads, without the
      signal pipe's. */
  lemma WatchedDescriptors(c: Child)
    requires Watched(c)
    ensures (set i | 1 <= i < |c.polls| :: c.polls[i].fd)
         == (set i | 0 <= i < |c.waiting| :: c.waiting[i].fd) - {c.polls[0].fd}
  {
    var a := set i | 1 <= i < |c.polls| :: c.polls[i].fd;
    var b := (set i | 0 <= i < |c.waiting| :: c.waiting[i].fd) - {c.polls[0].fd};
    forall fd | fd in a ensures fd in b {
      var i :| 1 <= i < |c.polls| && c.polls[i].fd == fd;
      assert Reading(c.waiting, c.polls[i].fd);
    }
    forall fd | fd in b ensures fd in a {
      var i :| 0 <= i < |c.waiting| && c.waiting[i].fd == fd;
      assert Watching(c.polls, c.waiting[i].fd);
    }
  }

  lemma AfterMessageCovers(c: Child, message: Option<Request>, input: Input)
    requires |c.polls| >= 1 && DistinctFDs(c.polls) && Covering(c)
    ensures var d := AfterMessage(c, message, input).0;
            && |d.polls| >= 1 && d.polls[0].fd == c.polls[0].fd && DistinctFDs(d.polls) && Covering(d)
  {
    var d := c.(polls := Polled(c.polls, input.ready));
    assert forall fd :: Watching(c.polls, fd) ==> Watching(d.polls, fd) by {
      forall fd | Watching(c.polls, fd) ensures Watching(d.polls, fd) {
        var i :| 0 <= i < |c.polls| && c.polls[i].fd == fd;
        assert d.polls[i].fd == fd;
      }
    }
    assert Covering(d);
    if TakesMessage(c, input) && message.Some? && message.value.op.Read? {
      AcceptCovers(d, message.value, input.io);
    }
  }

  lemma AcceptCovers(c: Child, r: Request, io: Op -> int)
    requires |c.polls| >= 1 && DistinctFDs(c.polls) && Covering(c) && r.op.Read?
    ensures var d := Accept(c, r, io).0;
            && |d.polls| >= 1 && d.polls[0].fd == c.polls[0].fd && DistinctFDs(d.polls) && Covering(d)
  {
    var d := Accept(c, r, io).0;
    forall fd | Watching(c.polls, fd) ensures Watching(d.polls, fd) {
      var i :| 0 <= i < |c.polls| && c.polls[i].fd == fd;
      assert d.polls[i].fd == fd;
    }
    if ValidTransfer(c, r.op.length, r.op.buffer) {
      assert Watching(d.polls, r.op.fd) by {
        if !Watching(c.polls, r.op.fd) { assert d.polls[|c.polls|].fd == r.op.fd; }
      }
      forall i | 0 <= i < |d.waiting| ensures Watching(d.polls, d.waiting[i].fd) {
        if i < |c.waiting| { assert d.waiting[i] == c.waiting[i]; }
      }
    }
  }

  lemma {:induction false} ServeOnlyRemoves(polls: seq<PollFD>, k: nat, waiting: seq<PendingRead>)
    requires k <= |polls|
    ensures forall r :: r in Serve(polls, k, waiting).0 ==> r in waiting
    ensures forall r :: r in Serve(polls, k, waiting).1 ==> r in waiting
    decreases |polls| - k
  {
    if k < |polls| {
      var i := FirstOn(waiting, polls[k].fd);
      if !polls[k].revents || i.None? {
        ServeOnlyRemoves(polls, k + 1, waiting);
      } else {
        ServeOnlyRemoves(polls, k + 1, RemoveAt(waiting, i.value));
      }
    }
  }

  lemma {:induction false} PruneKeepsNeeded(polls: seq<PollFD>, waiting: seq<PendingRead>)
    ensures forall x :: x in Prune(polls, waiting) <==> x in polls && Reading(waiting, x.fd)
  {
    if polls != [] {
      PruneKeepsNeeded(polls[1..], waiting);
      assert polls == [polls[0]] + polls[1..];
    }
  }

  lemma {:induction false} PruneKeepsDistinct(polls: seq<PollFD>, waiting: seq<PendingRead>)
    requires DistinctFDs(polls)
    ensures DistinctFDs(Prune(polls, waiting))
  {
    if polls != [] {
      var rest := polls[1..];
      var q := Prune(rest, waiting);
      assert forall i :: 0 <= i < |rest| ==> rest[i] == polls[i + 1];
      PruneKeepsDistinct(rest, waiting);
      PruneKeepsNeeded(rest, waiting);
      hide Reading;
      forall i | 0 <= i < |q| ensures q[i].fd != polls[0].fd {
        assert q[i] in q;
        var j :| 0 <= j < |rest| && rest[j] == q[i];
      }
    }
  }

  /** Every iteration leaves exactly the needed descriptors polled. */
  lemma IterateKeepsWatched(c: Child, message: Option<Request>, input: Input)
    requires Watched(c)
    ensures Watched(Iterate(c, message, input).0)
    ensures Iterate(c, message, input).0.polls[0].fd == c.polls[0].fd
  {
    AfterMessageCovers(c, message, input);
    var d := AfterMessage(c, message, input).0;
    var left := Serve(d.polls, 1, d.waiting).0;
    ServeOnlyRemoves(d.polls, 1, d.waiting);
    hide AfterMessage, Serve;
    PruneCovers(d, left);
  }

  lemma PruneCovers(d: Child, left: seq<PendingRead>)
    requires |d.polls| >= 1 && DistinctFDs(d.polls) && Covering(d)
    requires forall r :: r in left ==> r in d.waiting
    ensures Watched(d.(waiting := left, polls := d.polls[..1] + Prune(d.polls[1..], left)))
  {
    var rest := d.polls[1..];
    var q := Prune(rest, left);
    PruneKeepsNeeded(rest, left);
    assert forall i :: 0 <= i < |rest| ==> rest[i] == d.polls[i + 1];
    PruneKeepsDistinct(rest, left);
    var e := d.(waiting := left, polls := d.polls[..1] + q);
    assert e.polls == [d.polls[0]] + q;
    hide Prune;
    forall i | 0 <= i < |q| ensures q[i].fd != d.polls[0].fd && Reading(left, q[i].fd) {
      assert q[i] in q;
      var j :| 0 <= j < |rest| && rest[j] == q[i];
    }
    forall i | 0 <= i < |left| ensures Watching(e.polls, left[i].fd) {
      NeededIsWatched(d, left, q, i);
    }
  }

  lemma NeededIsWatched(d: Child, left: seq<PendingRead>, q: seq<PollFD>, i: nat)
    requires |d.polls| >= 1 && Covering(d) && i < |left| && left[i] in d.waiting
    requires forall x :: x in d.polls[1..] && Reading(left, x.fd) ==> x in q
    ensures Watching([d.polls[0]] + q, left[i].fd)
  {
    var j :| 0 <= j < |d.waiting| && d.waiting[j] == left[i];
    assert Watching(d.polls, d.waiting[j].fd);
    var k :| 0 <= k < |d.polls| && d.polls[k].fd == left[i].fd;
    var polls := [d.polls[0]] + q;
    if k == 0 {
      assert polls[0].fd == left[i].fd;
    } else {
      var x := d.polls[k];
      assert d.polls[1..][k - 1] == x && Reading(left, x.fd);
      assert x in q;
      var m :| 0 <= m < |q| && q[m] == x;
      assert polls[m + 1].fd == left[i].fd;
    }
  }

  // ---------- Arrival order ----------

  /** The reads on one descriptor, in order. */
  function On(waiting: seq<PendingRead>, fd: int): seq<PendingRead> {
    if waiting == [] then []
    else (if waiting[0].fd == fd then [waiting[0]] else []) + On(waiting[1..], fd)
  }

  lemma {:induction false} OnPlus(a: seq<PendingRead>, b: seq<PendingRead>, fd: int)
    ensures On(a + b, fd) == On(a, fd) + On(b, fd)
  {
    if a == [] {
      assert a + b == b;
    } else {
      assert (a + b)[1..] == a[1..] + b;
      OnPlus(a[1..], b, fd);
      var head := if a[0].fd == fd then [a[0]] else [];
      assert On(a + b, fd) == head + On(a[1..] + b, fd) && On(a, fd) == head + On(a[1..], fd);
      hide On;
      assert head + (On(a[1..], fd) + On(b, fd)) == (head + On(a[1..], fd)) + On(b, fd);
    }
  }

  lemma {:induction false} OnRemove(waiting: seq<PendingRead>, i: nat, fd: int)
    requires i < |waiting| && FirstOn(waiting, waiting[i].fd) == Some(i)
    ensures On(waiting, fd) == (if waiting[i].fd == fd then [waiting[i]] else []) + On(RemoveAt(waiting, i), fd)
  {
    var before, r, after := waiting[..i], waiting[i], waiting[i + 1..];
    assert waiting == before + ([r] + after);
    OnPlus(before, [r] + after, fd);
    OnPlus([r], after, fd);
    OnPlus(before, after, fd);
    assert On([r], fd) == if r.fd == fd then [r] else [] by { assert [r][1..] == []; }
    if r.fd == fd { OnNone(before, fd); }
  }

  lemma {:induction false} OnNone(waiting: seq<PendingRead>, fd: int)
    requires forall i :: 0 <= i < |waiting| ==> waiting[i].fd != fd
    ensures On(waiting, fd) == []
  {
    if waiting != [] { OnNone(waiting[1..], fd); }
  }

  /** The reads performed on a descriptor come from the front of those pending on it. */
  lemma {:induction false} ServeKeepsOrder(polls: seq<PollFD>, k: nat, waiting: seq<PendingRead>, fd: int)
    requires k <= |polls|
    ensures var (left, served) := Serve(polls, k, waiting);
            On(served, fd) + On(left, fd) == On(waiting, fd)
    decreases |polls| - k
  {
    if k < |polls| {
      var i := FirstOn(waiting, polls[k].fd);
      if !polls[k].revents || i.None? {
        ServeKeepsOrder(polls, k + 1, waiting, fd);
      } else {
        var rest := RemoveAt(waiting, i.value);
        ServeKeepsOrder(polls, k + 1, rest, fd);
        OnRemove(waiting, i.value, fd);
        var served := Serve(polls, k + 1, rest).1;
        OnPlus([waiting[i.value]], served, fd);
        assert [waiting[i.value]][1..] == [];
      }
    }
  }

  /** With distinct descriptors, each ready one gives its oldest read and no other, and one that is not
      ready gives none. */
  lemma {:induction false} ServeOldest(polls: seq<PollFD>, k: nat, waiting: seq<PendingRead>, fd: int)
    requires k <= |polls| && DistinctFDs(polls)
    ensures var served := On(Serve(polls, k, waiting).1, fd);
            if exists i :: k <= i < |polls| && polls[i].fd == fd && polls[i].revents
            then served == On(waiting, fd)[..if On(waiting, fd) == [] then 0 else 1]
            else served == []
    decreases |polls| - k
  {
    if k < |polls| {
      var i := FirstOn(waiting, polls[k].fd);
      if !polls[k].revents || i.None? {
        ServeOldest(polls, k + 1, waiting, fd);
        if i.None? { OnNone(waiting, polls[k].fd); }
        if polls[k].fd == fd && polls[k].revents { ServeKeepsOrder(polls, k + 1, waiting, fd); }
      } else {
        var rest := RemoveAt(waiting, i.value);
        ServeOldest(polls, k + 1, rest, fd);
        OnRemove(waiting, i.value, fd);
        OnPlus([waiting[i.value]], Serve(polls, k + 1, rest).1, fd);
        assert [waiting[i.value]][1..] == [];
      }
    }
  }

  /** The read that an iteration accepts, if any. */
  function Accepted(c: Child, message: Option<Request>, input: Input): seq<PendingRead> {
    if TakesMessage(c, input) && message.Some? && message.value.op.Read?
       && ValidTransfer(c, message.value.op.length, message.value.op.buffer)
    then [PendingRead(message.value.id, message.value.op.fd, message.value.op.length, message.value.op.buffer)]
    else []
  }

  /** In one iteration: what is answered on a descriptor and what still waits there is, in order, what
      waited before and what arrived. */
  lemma IterateKeepsOrder(c: Child, message: Option<Request>, input: Input, fd: int)
    requires c.polls != []
    ensures On(ServedBy(c, message, input), fd) + On(Iterate(c, message, input).0.waiting, fd)
         == On(c.waiting, fd) + On(Accepted(c, message, input), fd)
  {
    var d := AfterMessage(c, message, input).0;
    assert d.waiting == c.waiting + Accepted(c, message, input);
    OnPlus(c.waiting, Accepted(c, message, input), fd);
    ServeKeepsOrder(d.polls, 1, d.waiting, fd);
  }

  // ---------- Runs of the child ----------

  /** The message found and the system call results of one turn. */
  datatype Turn = Turn(message: Option<Request>, input: Input)

  lemma IterateKeepsPolls(c: Child, message: Option<Request>, input: Input)
    requires c.polls != []
    ensures Iterate(c, message, input).0.polls != []
  {
    hide Serve, Prune;
  }

  /** The child after all turns. */
  function ChildAfter(c: Child, turns: seq<Turn>): (d: Child)
    requires c.polls != []
    ensures d.polls != []
    decreases |turns|
  {
    if turns == [] then c
    else
      var k := |turns| - 1;
      IterateKeepsPolls(ChildAfter(c, turns[..k]), turns[k].message, turns[k].input);
      Iterate(ChildAfter(c, turns[..k]), turns[k].message, turns[k].input).0
  }

  /** All reads accepted, and all reads answered, in order. */
  function AllAccepted(c: Child, turns: seq<Turn>): seq<PendingRead>
    requires c.polls != []
    decreases |turns|
  {
    if turns == [] then []
    else
      var k := |turns| - 1;
      AllAccepted(c, turns[..k]) + Accepted(ChildAfter(c, turns[..k]), turns[k].message, turns[k].input)
  }

  function AllServed(c: Child, turns: seq<Turn>): seq<PendingRead>
    requires c.polls != []
    decreases |turns|
  {
    if turns == [] then []
    else
      var k := |turns| - 1;
      AllServed(c, turns[..k]) + ServedBy(ChildAfter(c, turns[..k]), turns[k].message, turns[k].input)
  }

  /** In every run the polled descriptors are the needed ones, and the reads answered on a descriptor are a
      beginning of those that arrived on it, in the same order. */
  lemma {:induction false} EveryRunKeepsOrder(c: Child, turns: seq<Turn>, fd: int)
    requires |c.polls| == 1 && c.waiting == []
    ensures Watched(ChildAfter(c, turns))
    ensures On(AllServed(c, turns), fd) + On(ChildAfter(c, turns).waiting, fd) == On(AllAccepted(c, turns), fd)
    decreases |turns|
  {
    if turns != [] {
      var k := |turns| - 1;
      var before, t := turns[..k], turns[k];
      EveryRunKeepsOrder(c, before, fd);
      var d := ChildAfter(c, before);
      var served, accepted := ServedBy(d, t.message, t.input), Accepted(d, t.message, t.input);
      assert ChildAfter(c, turns) == Iterate(d, t.message, t.input).0;
      assert AllServed(c, turns) == AllServed(c, before) + served;
      assert AllAccepted(c, turns) == AllAccepted(c, before) + accepted;
      hide *;
      IterateKeepsWatched(d, t.message, t.input);
      IterateKeepsOrder(d, t.message, t.input, fd);
      OnPlus(AllServed(c, before), served, fd);
      OnPlus(AllAccepted(c, before), accepted, fd);
      Regroup(On(AllServed(c, before), fd), On(served, fd), On(ChildAfter(c, turns).waiting, fd),
              On(AllAccepted(c, before), fd), On(d.waiting, fd), On(accepted, fd));
    }
  }

  lemma Regroup<T>(done: seq<T>, now: seq<T>, left: seq<T>, arrived: seq<T>, waiting: seq<T>, accepted: seq<T>)
    requires now + left == waiting + accepted && done + waiting == arrived
    ensures (done + now) + left == arrived + accepted
  {
    assert (done + now) + left == done + (now + left);
    assert done + (waiting + accepted) == (done + waiting) + accepted;
  }
}
