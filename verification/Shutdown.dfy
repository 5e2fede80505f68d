/** How the file service ends, over runs in which TERMINATE may be sent and the parent may die: the child stops
    at the first TERMINATE that it takes, or when it finds its parent gone, and for no other reason. */
module Shutdown {
  import opened Basics
  import opened Protocol
  import opened ChildLoop

  /** The child takes the oldest message: the signal pipe is ready and there is one. */
  predicate Takes(s: System, e: Event) {
    e.ChildRan? && e.input.polled > 0 && e.input.ready(0) && s.requests != []
  }

  /** The poll times out and the parent has died. */
  predicate FindsParentGone(e: Event) {
    e.ChildRan? && e.input.polled == 0 && e.input.parentGone
  }

  /** One step of a run in which nothing is forbidden but what cannot happen: a terminated child does not run,
      and there must be a reply to deliver. */
  predicate Follows(s: System, e: Event, t: System) {
    match e
    case Sent(op, callback) => t == Issue(s, op, callback)
    case ChildRan(input) => s.child.polls != [] && !s.child.terminated && t == ChildTurn(s, input)
    case Delivered => s.replies != [] && t == Deliver(s)
  }

  predicate ServiceRun(states: seq<System>, events: seq<Event>) {
    && |states| == |events| + 1 && !states[0].child.terminated
    && forall i :: 0 <= i < |events| ==> Follows(states[i], events[i], states[i + 1])
  }

  // ---------- One step ----------

  /** After an iteration the child is terminated if and only if it was before, or it took a TERMINATE, or the
      poll timed out and the parent was gone. */
  lemma TerminatedAfterIteration(c: Child, message: Option<Request>, input: Input)
    requires c.polls != []
    ensures Iterate(c, message, input).0.terminated <==>
              || c.terminated
              || (input.polled > 0 && input.ready(0) && message.Some? && message.value.op.Terminate?)
              || (input.polled == 0 && input.parentGone)
  {
    hide Serve, Prune, Answers;
  }

  lemma StepEnds(s: System, e: Event, t: System)
    requires Follows(s, e, t)
    ensures t.child.terminated <==>
              s.child.terminated || (Takes(s, e) && s.requests[0].op.Terminate?) || FindsParentGone(e)
    ensures t.requests == (if Takes(s, e) then s.requests[1..] else s.requests)
                          + if e.Sent? then [Request(NextId(s.lastId), e.op)] else []
  {
    if e.ChildRan? {
      var message := if TakesMessage(s.child, e.input) then Head(s.requests) else None;
      TerminatedAfterIteration(s.child, message, e.input);
      hide Iterate;
    }
  }

  // ---------- Runs ----------

  /** The messages taken in the first n steps, in order. */
  function Taken(states: seq<System>, events: seq<Event>, n: nat): seq<Request>
    requires n <= |events| < |states|
  {
    if n == 0 then []
    else
      Taken(states, events, n - 1)
      + if Takes(states[n - 1], events[n - 1]) then [states[n - 1].requests[0]] else []
  }

  /** The messages in the queue at the start and those sent in the first n steps, in order. */
  function Asked(states: seq<System>, events: seq<Event>, n: nat): seq<Request>
    requires n <= |events| < |states|
  {
    if n == 0 then states[0].requests
    else
      Asked(states, events, n - 1)
      + if events[n - 1].Sent? then [Request(NextId(states[n - 1].lastId), events[n - 1].op)] else []
  }

  predicate HasTerminate(rs: seq<Request>) {
    exists i :: 0 <= i < |rs| && rs[i].op.Terminate?
  }

  /** One of the first n steps found the parent gone. */
  predicate ParentFoundGone(events: seq<Event>, n: nat)
    requires n <= |events|
  {
    exists k :: 0 <= k < n && FindsParentGone(events[k])
  }

  lemma {:induction false} QueueInOrder(states: seq<System>, events: seq<Event>, n: nat)
    requires ServiceRun(states, events) && n <= |events|
    ensures Taken(states, events, n) + states[n].requests == Asked(states, events, n)
  {
    if n > 0 {
      var s, e, t := states[n - 1], events[n - 1], states[n];
      QueueInOrder(states, events, n - 1);
      assert Follows(s, e, t);
      StepEnds(s, e, t);
      var newest := if Takes(s, e) then [s.requests[0]] else [];
      var sent := if e.Sent? then [Request(NextId(s.lastId), e.op)] else [];
      assert Taken(states, events, n) == Taken(states, events, n - 1) + newest;
      assert Asked(states, events, n) == Asked(states, events, n - 1) + sent;
      var rest := if Takes(s, e) then s.requests[1..] else s.requests;
      assert newest + rest == s.requests;
      hide *;
      MovesOn(Taken(states, events, n - 1), newest, rest, sent);
    }
  }

  lemma MovesOn(taken: seq<Request>, newest: seq<Request>, rest: seq<Request>, sent: seq<Request>)
    ensures (taken + newest) + (rest + sent) == (taken + (newest + rest)) + sent
  {
  }

  /** The child is terminated in a state if and only if it has taken a TERMINATE or found its parent gone. */
  lemma {:induction false} TerminatedIff(states: seq<System>, events: seq<Event>, n: nat)
    requires ServiceRun(states, events) && n <= |events|
    ensures states[n].child.terminated <==> HasTerminate(Taken(states, events, n)) || ParentFoundGone(events, n)
  {
    if n > 0 {
      var s, e, t := states[n - 1], events[n - 1], states[n];
      TerminatedIff(states, events, n - 1);
      assert Follows(s, e, t);
      StepEnds(s, e, t);
      hide Follows, FindsParentGone;
      var before, after := Taken(states, events, n - 1), Taken(states, events, n);
      assert forall i :: 0 <= i < |before| ==> after[i] == before[i];
      if Takes(s, e) { assert after[|before|] == s.requests[0]; }
      assert FindsParentGone(e) ==> ParentFoundGone(events, n);
    }
  }

  /** Nothing is taken after a TERMINATE. */
  lemma {:induction false} NothingAfterTerminate(states: seq<System>, events: seq<Event>, n: nat)
    requires ServiceRun(states, events) && n <= |events|
    ensures forall i :: 0 <= i < |Taken(states, events, n)| - 1 ==> !Taken(states, events, n)[i].op.Terminate?
  {
    if n > 0 {
      NothingAfterTerminate(states, events, n - 1);
      TerminatedIff(states, events, n - 1);
      assert Follows(states[n - 1], events[n - 1], states[n]);
    }
  }

  /** Messages are taken in the order sent and none behind a TERMINATE.  When as many have been taken as stand up
      to it, the child is terminated; and if the parent stays, not before the first one. */
  lemma TerminateEndsService(states: seq<System>, events: seq<Event>, n: nat, p: nat)
    requires ServiceRun(states, events) && n <= |events|
    requires p < |Asked(states, events, n)| && Asked(states, events, n)[p].op.Terminate?
    ensures Taken(states, events, n) <= Asked(states, events, n)[..p + 1]
    ensures |Taken(states, events, n)| == p + 1 ==> states[n].child.terminated
    ensures !HasTerminate(Asked(states, events, n)[..p]) && !ParentFoundGone(events, n) ==>
              (states[n].child.terminated <==> |Taken(states, events, n)| == p + 1)
  {
    var taken, asked := Taken(states, events, n), Asked(states, events, n);
    QueueInOrder(states, events, n);
    TerminatedIff(states, events, n);
    NothingAfterTerminate(states, events, n);
    assert forall i :: 0 <= i < |taken| ==> taken[i] == asked[i];
    assert |taken| <= p + 1;
    assert forall i :: 0 <= i < p ==> asked[..p][i] == asked[i];
  }

  /** A message that waits behind k others when the service is in state m has been taken once k + 1 messages
      have been taken since; if it is a TERMINATE, the child is terminated then. */
  lemma WaitingTerminateEndsService(states: seq<System>, events: seq<Event>, m: nat, n: nat, k: nat)
    requires ServiceRun(states, events) && m <= n <= |events|
    requires k < |states[m].requests| && states[m].requests[k].op.Terminate?
    requires |Taken(states, events, n)| >= |Taken(states, events, m)| + k + 1
    ensures |Taken(states, events, n)| == |Taken(states, events, m)| + k + 1 && states[n].child.terminated
  {
    var p := |Taken(states, events, m)| + k;
    QueueInOrder(states, events, m);
    AskedGrows(states, events, m, n);
    assert Asked(states, events, n)[p] == Asked(states, events, m)[p] == states[m].requests[k];
    TerminateEndsService(states, events, n, p);
  }

  lemma {:induction false} AskedGrows(states: seq<System>, events: seq<Event>, m: nat, n: nat)
    requires m <= n <= |events| < |states|
    ensures Asked(states, events, m) <= Asked(states, events, n)
  {
    if m < n { AskedGrows(states, events, m, n - 1); }
  }
}
