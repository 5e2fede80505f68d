/** The file service as it runs: the parent's callbacks by request id, the two message queues, and the
    vectors of the child's loop, all changed in place.  Each step is proved to be the one of Protocol. */
module MachineObjects {
  import opened Basics
  import opened Protocol

  class Machine {
    // The parent
    const initialized: bool
    var requestID: uint32
    var pendingCallbacks: map<uint32, Callback>
    var fired: seq<Firing>

    // The message queues
    var requestChannel: seq<Request>
    var replyChannel: seq<Reply>

    // The child
    const sharedBase: nat
    const sharedSize: nat
    var pollFDs: seq<PollFD>
    var pendingReads: seq<PendingRead>
    var terminated: bool

    /** Both processes just after the fork. */
    constructor (base: nat, size: nat, signalPipe: int)
      ensures Initial(Value()) && initialized
    {
      initialized, requestID, pendingCallbacks, fired := true, 0, map[], [];
      requestChannel, replyChannel := [], [];
      sharedBase, sharedSize := base, size;
      pollFDs, pendingReads, terminated := [PollFD(signalPipe, false)], [], false;
    }

    function ChildValue(): Child
      reads this
    {
      Child(sharedBase, sharedSize, pollFDs, pendingReads, terminated)
    }

    function Value(): System
      reads this
    {
      System(pendingCallbacks, requestID, requestChannel, ChildValue(), replyChannel, fired)
    }

    // ---------- The parent ----------

    /** The counter is a 32-bit number; a callback that is still stored under the new id is replaced. */
    method AddRequest(callback: Callback) returns (id: uint32)
      modifies this`requestID, this`pendingCallbacks
      ensures id == requestID == NextId(old(requestID))
      ensures pendingCallbacks == old(pendingCallbacks)[id := callback]
    {
      requestID := NextId(requestID);
      pendingCallbacks := pendingCallbacks[requestID := callback];
      return requestID;
    }

    /** `MachineFileOpen`, `MachineFileRead`, `MachineFileWrite`, `MachineFileSeek` and `MachineFileClose`. */
    method SendRequest(op: Op, callback: Callback)
      modifies this`requestID, this`pendingCallbacks, this`requestChannel
      ensures Value() == if initialized then Issue(old(Value()), op, callback) else old(Value())
    {
      if initialized {
        var id := AddRequest(callback);
        requestChannel := requestChannel + [Request(id, op)];
      }
    }

    /** Takes replies until the queue is empty and calls back those that are waited for. */
    method ReplySignalHandler()
      modifies this`pendingCallbacks, this`replyChannel, this`fired
      ensures Value() == DeliverAll(old(Value())) && replyChannel == []
    {
      while replyChannel != []
        invariant DeliverAll(Value()) == DeliverAll(old(Value()))
        decreases |replyChannel|
      {
        var message := replyChannel[0];
        replyChannel := replyChannel[1..];
        if message.id in pendingCallbacks {
          var callinfo := pendingCallbacks[message.id];
          pendingCallbacks := pendingCallbacks - {message.id};
          fired := fired + [Firing(callinfo, message.result)];
        }
      }
    }

    // ---------- The child ----------

    method SendReply(id: uint32, result: int)
      modifies this`replyChannel
      ensures replyChannel == old(replyChannel) + [Reply(id, result)]
    {
      replyChannel := replyChannel + [Reply(id, result)];
    }

    method ValidSharePointer(p: nat) returns (valid: bool)
      ensures valid == Protocol.ValidSharePointer(sharedBase, sharedSize, p)
    {
      if p < sharedBase { return false; }
      if p >= sharedBase + sharedSize { return false; }
      return true;
    }

    /** Whether a descriptor is polled already, the signal pipe included. */
    method IsWatched(fd: int) returns (found: bool)
      ensures found == Watching(pollFDs, fd)
    {
      found := false;
      var index := 0;
      while index < |pollFDs|
        invariant 0 <= index <= |pollFDs| && !found
        invariant forall i :: 0 <= i < index ==> pollFDs[i].fd != fd
      {
        if pollFDs[index].fd == fd {
          found := true;
          break;
        }
        index := index + 1;
      }
    }

    /** One message. */
    method Perform(message: Request, io: Op -> int)
      modifies this`pollFDs, this`pendingReads, this`terminated, this`replyChannel
      ensures (ChildValue(), replyChannel) == (Accept(old(ChildValue()), message, io).0,
                                               old(replyChannel) + Accept(old(ChildValue()), message, io).1)
      ensures terminated == (old(terminated) || message.op.Terminate?)
      ensures message.op.Open? || message.op.Seek? || message.op.Close? ==>
                replyChannel == old(replyChannel) + [Reply(message.id, io(message.op))]
      ensures message.op.Read? || message.op.Write? ==>
                var op := message.op;
                var allowed := sharedBase <= op.buffer < sharedBase + sharedSize && op.length <= 512;
                && replyChannel == old(replyChannel) + (if allowed && op.Read? then []
                                                        else [Reply(message.id, if allowed then io(op) else -1)])
                && pendingReads == old(pendingReads) + (if allowed && op.Read?
                                                        then [PendingRead(message.id, op.fd, op.length, op.buffer)]
                                                        else [])
      ensures message.op.Nothing? || message.op.Terminate? ==> replyChannel == old(replyChannel)
      ensures !message.op.Read? ==> pendingReads == old(pendingReads) && pollFDs == old(pollFDs)
    {
      assert replyChannel == replyChannel + [];
      match message.op {
        case Nothing =>
        case Open(_, _, _) =>
          SendReply(message.id, io(message.op));
        case Read(fd, length, buffer) =>
          var valid := ValidSharePointer(buffer);
          if valid && length <= MAX_TRANSFER {
            var found := IsWatched(fd);
            if !found {
              pollFDs := pollFDs + [PollFD(fd, false)];
            }
            pendingReads := pendingReads + [PendingRead(message.id, fd, length, buffer)];
          } else {
            SendReply(message.id, -1);
          }
        case Write(fd, length, buffer) =>
          var valid := ValidSharePointer(buffer);
          var result := -1;
          if valid && length <= MAX_TRANSFER {
            result := io(message.op);
          }
          SendReply(message.id, result);
        case Seek(_, _, _) =>
          SendReply(message.id, io(message.op));
        case Close(_) =>
          SendReply(message.id, io(message.op));
        case Terminate =>
          terminated := true;
      }
    }

    /** Performs the oldest read on a descriptor, if there is one. */
    method ServeDescriptor(fd: int, io: Op -> int)
      modifies this`pendingReads, this`replyChannel
      ensures match FirstOn(old(pendingReads), fd)
              case None => pendingReads == old(pendingReads) && replyChannel == old(replyChannel)
              case Some(i) =>
                && pendingReads == RemoveAt(old(pendingReads), i)
                && replyChannel == old(replyChannel) + [Reply(old(pendingReads)[i].id, io(old(pendingReads)[i].AsOp()))]
    {
      var readIndex := 0;
      while readIndex < |pendingReads|
        invariant 0 <= readIndex <= |pendingReads|
        invariant pendingReads == old(pendingReads) && replyChannel == old(replyChannel)
        invariant forall i :: 0 <= i < readIndex ==> pendingReads[i].fd != fd
      {
        if pendingReads[readIndex].fd == fd {
          SendReply(pendingReads[readIndex].id, io(pendingReads[readIndex].AsOp()));
          pendingReads := pendingReads[..readIndex] + pendingReads[readIndex + 1..];
          return;
        }
        readIndex := readIndex + 1;
      }
    }

    method ServeReady(io: Op -> int)
      requires |pollFDs| >= 1
      modifies this`pendingReads, this`replyChannel
      ensures pendingReads == Serve(pollFDs, 1, old(pendingReads)).0
      ensures replyChannel == old(replyChannel) + Answers(Serve(pollFDs, 1, old(pendingReads)).1, io)
    {
      var index := 1;
      ghost var served: seq<PendingRead> := [];
      while index < |pollFDs|
        invariant 1 <= index <= |pollFDs|
        invariant Serve(pollFDs, 1, old(pendingReads)).0 == Serve(pollFDs, index, pendingReads).0
        invariant Serve(pollFDs, 1, old(pendingReads)).1 == served + Serve(pollFDs, index, pendingReads).1
        invariant replyChannel == old(replyChannel) + Answers(served, io)
      {
        if pollFDs[index].revents {
          ghost var first := FirstOn(pendingReads, pollFDs[index].fd);
          ghost var before := pendingReads;
          ServeDescriptor(pollFDs[index].fd, io);
          if first.Some? {
            assert Answers(served + [before[first.value]], io)
                == Answers(served, io) + [Reply(before[first.value].id, io(before[first.value].AsOp()))];
            served := served + [before[first.value]];
          }
        }
        index := index + 1;
      }
    }

    /** Stops polling the descriptors that no pending read needs. */
    method PruneDescriptors()
      requires |pollFDs| >= 1
      modifies this`pollFDs
      ensures pollFDs == old(pollFDs)[..1] + Prune(old(pollFDs)[1..], pendingReads)
    {
      var index := 1;
      while index < |pollFDs|
        invariant 1 <= index <= |pollFDs|
        invariant pollFDs[..index] + Prune(pollFDs[index..], pendingReads)
               == old(pollFDs)[..1] + Prune(old(pollFDs)[1..], pendingReads)
        decreases |pollFDs| - index
      {
        var found := false;
        var readIndex := 0;
        while readIndex < |pendingReads|
          invariant 0 <= readIndex <= |pendingReads|
          invariant found <==> exists i :: 0 <= i < readIndex && pendingReads[i].fd == pollFDs[index].fd
        {
          if pendingReads[readIndex].fd == pollFDs[index].fd { found := true; }
          readIndex := readIndex + 1;
        }
        assert found <==> FirstOn(pendingReads, pollFDs[index].fd).Some?;
        assert pollFDs[index..] == [pollFDs[index]] + pollFDs[index + 1..];
        if found {
          assert pollFDs[..index + 1] == pollFDs[..index] + [pollFDs[index]];
          index := index + 1;
        } else {
          ghost var polls := pollFDs;
          pollFDs := pollFDs[..index] + pollFDs[index + 1..];
          assert pollFDs[..index] == polls[..index] && pollFDs[index..] == polls[index + 1..];
        }
      }
    }

    /** The poll, and the message if the signal pipe is ready and there is one. */
    method PollAndAccept(input: Input)
      requires |pollFDs| >= 1
      modifies this`pollFDs, this`pendingReads, this`terminated, this`requestChannel, this`replyChannel
      ensures var c := old(ChildValue());
              var message := if TakesMessage(c, input) then Head(old(requestChannel)) else None;
              && ChildValue() == AfterMessage(c, message, input).0
              && replyChannel == old(replyChannel) + AfterMessage(c, message, input).1
              && requestChannel == if message.Some? then old(requestChannel)[1..] else old(requestChannel)
      ensures terminated <==>
                || old(terminated)
                || (input.polled > 0 && input.ready(0) && old(requestChannel) != []
                    && old(requestChannel)[0].op.Terminate?)
                || (input.polled == 0 && input.parentGone)
      ensures requestChannel == if input.polled > 0 && input.ready(0) && old(requestChannel) != []
                                then old(requestChannel)[1..] else old(requestChannel)
    {
      pollFDs := Polled(pollFDs, input.ready);
      assert pollFDs[0].revents == input.ready(0);
      assert old(replyChannel) + [] == old(replyChannel);
      hide Accept, Polled;
      if 0 < input.polled && pollFDs[0].revents {
        if requestChannel != [] {
          var message := requestChannel[0];
          requestChannel := requestChannel[1..];
          Perform(message, input.io);
        }
      } else if 0 == input.polled {
        if input.parentGone { terminated := true; }
      }
    }

    /** One iteration of the child's loop. */
    method ChildIteration(input: Input)
      requires |pollFDs| >= 1
      modifies this`pollFDs, this`pendingReads, this`terminated, this`requestChannel, this`replyChannel
      ensures Value() == ChildTurn(old(Value()), input)
      ensures terminated <==>
                || old(terminated)
                || (input.polled > 0 && input.ready(0) && old(requestChannel) != []
                    && old(requestChannel)[0].op.Terminate?)
                || (input.polled == 0 && input.parentGone)
      ensures requestChannel == if input.polled > 0 && input.ready(0) && old(requestChannel) != []
                                then old(requestChannel)[1..] else old(requestChannel)
    {
      ghost var c, message := ChildValue(), if TakesMessage(ChildValue(), input) then Head(requestChannel) else None;
      hide AfterMessage, Serve, Prune, Answers, TakesMessage;
      PollAndAccept(input);
      AfterMessagePolls(c, message, input);
      ServeReady(input.io);
      PruneDescriptors();
    }
  }

  lemma AfterMessagePolls(c: Child, message: Option<Request>, input: Input)
    requires c.polls != []
    ensures AfterMessage(c, message, input).0.polls != []
  {
  }
}
