/** How `VMFileWrite` cuts a buffer into requests that go through one block of the shared pool. */
module FileWrite {
  import opened Basics
  import opened VmStatus
  import opened MemoryBlocks
  import opened MemoryAccounting
  import opened NestedPools
  import P = Protocol
  import M = Marshalling

  const CHUNK: nat := 512

  function Min(a: int, b: int): int {
    if a <= b then a else b
  }

  /** A WRITE request, with the bytes that stand at its pointer when it is sent. */
  datatype Transfer = Transfer(pointer: nat, length: nat, bytes: seq<byte>)

  function Joined(ts: seq<Transfer>): seq<byte> {
    if ts == [] then [] else Joined(ts[..|ts| - 1]) + ts[|ts| - 1].bytes
  }

  function Total(results: nat -> int, n: nat): int {
    if n == 0 then 0 else Total(results, n - 1) + results(n - 1)
  }

  /** All requests go through one block and carry what they say. */
  predicate ThroughBlock(ts: seq<Transfer>, pointer: nat, room: nat) {
    forall i :: 0 <= i < |ts| ==>
                  ts[i].pointer == pointer && ts[i].length == |ts[i].bytes| && ts[i].length <= CHUNK
                      && ts[i].length <= room
  }

  method CopyBytes(dest: array<byte>, at: nat, src: array<byte>, from: nat, n: nat)
    requires at + n <= dest.Length && from + n <= src.Length && dest != src
    modifies dest
    ensures dest[at..at + n] == src[from..from + n]
    ensures dest[..at] == old(dest[..at]) && dest[at + n..] == old(dest[at + n..])
  {
    var i := 0;
    while i < n
      invariant 0 <= i <= n && dest[at..at + i] == src[from..from + i]
      invariant dest[..at] == old(dest[..at]) && dest[at + n..] == old(dest[at + n..])
    {
      dest[at + i] := src[from + i];
      i := i + 1;
      assert dest[at..at + i] == dest[at..at + i - 1] + [src[from + i - 1]];
    }
  }

  /** One chunk: copied into the block, and sent. */
  method WriteChunk(localdata: array<byte>, from: nat, n: nat, shared: array<byte>, at: nat, writeloc: nat,
    ghost room: nat)
    returns (t: Transfer)
    requires from + n <= localdata.Length && n <= room && at + room <= shared.Length && localdata != shared
    modifies shared
    ensures t == Transfer(writeloc, n, localdata[from..from + n])
    ensures shared[..at] == old(shared[..at]) && shared[at + room..] == old(shared[at + room..])
  {
    CopyBytes(shared, at, localdata, from, n);
    TailKept(old(shared[..]), shared[..], at + n, at + room);
    t := Transfer(writeloc, n, shared[at..at + n]);
  }

  lemma JoinedPush(ts: seq<Transfer>, t: Transfer, whole: seq<byte>, k: nat)
    requires k + |t.bytes| <= |whole| && Joined(ts) == whole[..k] && t.bytes == whole[k..k + |t.bytes|]
    ensures Joined(ts + [t]) == whole[..k + |t.bytes|]
  {
    assert (ts + [t])[..|ts|] == ts;
  }

  /** The chunk loop: the requests in order carry the buffer, and nothing outside the block is written. */
  method WriteChunks(localdata: array<byte>, length: nat, shared: array<byte>, sharebase: nat, writeloc: nat,
    results: nat -> int)
    returns (sent: seq<Transfer>, byteswritten: int)
    requires length <= localdata.Length && localdata != shared
    requires sharebase <= writeloc && writeloc - sharebase + Min(length, CHUNK) <= shared.Length
    modifies shared
    ensures Joined(sent) == localdata[..length] && |sent| == length / CHUNK + 1
    ensures ThroughBlock(sent, writeloc, Min(length, CHUNK))
    ensures byteswritten == Total(results, |sent|)
    ensures var at := writeloc - sharebase;
            shared[..at] == old(shared[..at])
            && shared[at + Min(length, CHUNK)..] == old(shared[at + Min(length, CHUNK)..])
  {
    sent, byteswritten := [], 0;
    var at, room := writeloc - sharebase, Min(length, CHUNK);
    ghost var whole := localdata[..length];
    var i, lenleft := 0, length as int;
    while lenleft >= 0
      invariant lenleft == length - CHUNK * i && 0 <= lenleft + CHUNK && |sent| == i
      invariant Joined(sent) == whole[..Min(CHUNK * i, length)]
      invariant ThroughBlock(sent, writeloc, room) && byteswritten == Total(results, i)
      invariant localdata[..length] == whole
      invariant shared[..at] == old(shared[..at]) && shared[at + room..] == old(shared[at + room..])
      decreases lenleft + CHUNK
    {
      var n := Min(lenleft, CHUNK);
      var t := WriteChunk(localdata, i * CHUNK, n, shared, at, writeloc, room);
      assert t.bytes == whole[CHUNK * i..CHUNK * i + n];
      JoinedPush(sent, t, whole, CHUNK * i);
      sent := sent + [t];
      byteswritten := byteswritten + results(i);
      i, lenleft := i + 1, lenleft - CHUNK;
    }
    assert whole[..length] == whole;
  }

  lemma TailKept(a: seq<byte>, b: seq<byte>, k: nat, m: nat)
    requires |a| == |b| && k <= m <= |a| && a[k..] == b[k..]
    ensures a[m..] == b[m..]
  {
    assert a[m..] == a[k..][m - k..] && b[m..] == b[k..][m - k..];
  }

  /** `strcpy`: copies up to the terminator and the terminator with it. */
  method StringCopy(dest: array<byte>, src: seq<byte>)
    requires M.StrLen(src) < |src| && M.StrLen(src) < dest.Length
    modifies dest
    ensures dest[..M.StrLen(src)] == src[..M.StrLen(src)] && dest[M.StrLen(src)] == 0
  {
    var i := 0;
    ghost var n := M.StrLen(src);
    assert forall k :: 0 <= k < n ==> src[..n][k] == src[k] && src[k] != 0;
    while src[i] != 0
      invariant 0 <= i <= n && dest[..i] == src[..i]
      decreases n - i
    {
      dest[i] := src[i];
      i := i + 1;
    }
    dest[i] := 0;
  }

  /** `VMFileWrite` once it has its block.  A buffer with no terminator before its end goes out whole. */
  method VMFileWrite(data: seq<byte>, length: nat, shared: array<byte>, sharebase: nat, writeloc: nat,
    results: nat -> int)
    returns (status: Status, sent: seq<Transfer>, byteswritten: int)
    requires M.StrLen(data) < |data| && M.StrLen(data) <= length
    requires sharebase <= writeloc && writeloc - sharebase + Min(length, CHUNK) <= shared.Length
    modifies shared
    ensures |Joined(sent)| == length && data[..M.StrLen(data)] <= Joined(sent)
    ensures M.StrLen(data) == length ==> Joined(sent) == data[..length]
    ensures |sent| == length / CHUNK + 1 && ThroughBlock(sent, writeloc, Min(length, CHUNK))
    ensures byteswritten == Total(results, |sent|) && (status == Failure <==> byteswritten < 0)
            && status in {Failure, Success}
  {
    var localdata := new byte[length + 1];
    StringCopy(localdata, data);
    ghost var n := M.StrLen(data);
    assert localdata[..n] <= localdata[..length];
    sent, byteswritten := WriteChunks(localdata, length, shared, sharebase, writeloc, results);
    if byteswritten < 0 { return Failure, sent, byteswritten; }
    return Success, sent, byteswritten;
  }

  /** Every request of a write passes the child's pointer and length check, and so is performed: its block
      was allocated for the smaller of the length and 512 bytes, in a pool over the shared memory. */
  lemma RequestsPassTheCheck(h: Heap, shareid: nat, length: nat, ts: seq<Transfer>, c: P.Child, fd: int,
    io: P.Op -> int)
    requires HeapWf(h) && length > 0
    requires FindPool(h.pools, shareid).Some?
    requires var p := h.pools[FindPool(h.pools, shareid).value]; p.start == c.base && p.size <= c.size
    requires PoolAllocate(h, shareid, Min(length, CHUNK), true).status == Success
    requires ThroughBlock(ts, PoolAllocate(h, shareid, Min(length, CHUNK), true).value, Min(length, CHUNK))
    ensures forall i :: 0 <= i < |ts| ==>
                          && P.ValidTransfer(c, ts[i].length, ts[i].pointer)
                          && ts[i].pointer + ts[i].length <= c.base + c.size
                          && P.ResultOf(c, io, P.Write(fd, ts[i].length, ts[i].pointer))
                               == io(P.Write(fd, ts[i].length, ts[i].pointer))
  {
    AllocateGivesRoomIff(h, shareid, Min(length, CHUNK));
    RoundUpIff(Min(length, CHUNK));
    var p := h.pools[FindPool(h.pools, shareid).value];
    var a := PoolAllocate(h, shareid, Min(length, CHUNK), true).value;
    var n := RoundUp(Min(length, CHUNK));
    hide RoundUp, PoolAllocate, FindPool;
    assert Fits(p, a, n) && n > 0;
  }
}
