/** The messages of the file service as bytes: how the parent packs them and the child takes them apart. */
module Marshalling {
  import opened Basics
  import opened Digits
  import opened Protocol

  type int32 = x: int | -0x8000_0000 <= x < 0x8000_0000

  // ---------- Integers, most significant byte first ----------

  /** What is left of a number in a 32-bit `int`. */
  function ToInt32(x: int): int32 {
    (x + 0x8000_0000) % 0x1_0000_0000 - 0x8000_0000
  }

  function Big(s: seq<byte>): nat {
    if s == [] then 0 else 256 * Big(s[..|s| - 1]) + s[|s| - 1]
  }

  /** The four bytes that `MachineSetInt` writes. */
  function IntBytes(v: int32): (r: seq<byte>)
    ensures |r| == 4
  {
    [Low(v / 0x100_0000), Low(v / 0x1_0000), Low(v / 0x100), Low(v)]
  }

  /** The number that `MachineGetInt` reads from four bytes. */
  function IntOf(s: seq<byte>): int32 {
    ToInt32(Big(s))
  }

  lemma BigFour(s: seq<byte>)
    requires |s| == 4
    ensures Big(s) == 0x100_0000 * s[0] as int + 0x1_0000 * s[1] as int + 0x100 * s[2] as int + s[3] as int
  {
    var a, b, c := s[..1], s[..2], s[..3];
    assert c[..2] == b && b[..1] == a && a[..0] == [];
    assert Big(a) == s[0];
    assert Big(b) == 256 * Big(a) + s[1] as int;
    assert Big(c) == 256 * Big(b) + s[2] as int;
  }

  lemma LowDigit(v: int)
    ensures v == 0x100 * (v / 0x100) + Low(v) as int
  {
  }

  /** A number is its three low bytes and what is left of it above them. */
  lemma LowBytes(v: int)
    ensures v == 0x100_0000 * (v / 0x100_0000) + 0x1_0000 * Low(v / 0x1_0000) as int
                 + 0x100 * Low(v / 0x100) as int + Low(v) as int
  {
    LowDigit(v);
    LowDigit(v / 0x100);
    LowDigit(v / 0x1_0000);
    assert v / 0x1_0000 == v / 0x100 / 0x100 && v / 0x100_0000 == v / 0x1_0000 / 0x100;
    hide Low;
  }

  /** Reading inverts writing for every 32-bit number, the negative ones included. */
  lemma IntRoundTrip(v: int32)
    ensures IntOf(IntBytes(v)) == v
  {
    BigFour(IntBytes(v));
    LowBytes(v);
    var top: int := v / 0x100_0000;
    assert -128 <= top < 128;
    assert Low(top) as int == if top < 0 then top + 256 else top;
    hide Big, Low;
  }

  /** Writing inverts reading for every four bytes. */
  lemma BytesRoundTrip(s: seq<byte>)
    requires |s| == 4
    ensures IntBytes(IntOf(s)) == s
  {
    BigFour(s);
    var top: int := if s[0] < 128 then s[0] else s[0] as int - 256;
    var q2: int := 256 * top + s[1] as int;
    var q1: int := 256 * q2 + s[2] as int;
    var v: int := 256 * q1 + s[3] as int;
    assert IntOf(s) == v;
    NextDigit(top, s[1]);
    NextDigit(q2, s[2]);
    NextDigit(q1, s[3]);
    assert v / 0x1_0000 == v / 0x100 / 0x100 && v / 0x100_0000 == v / 0x100 / 0x100 / 0x100;
    assert Low(top) == s[0];
    hide Low, Big, IntOf;
    assert s == [s[0], s[1], s[2], s[3]];
  }

  lemma NextDigit(q: int, d: byte)
    ensures (256 * q + d as int) / 0x100 == q && Low(256 * q + d as int) == d
  {
  }

  /** The low byte of a number shifted right by k bytes; the shift keeps the sign. */
  function ShiftedByte(v: int32, k: nat): byte {
    Low(v / Pow256(k))
  }

  lemma ShiftedBytes(v: int32)
    ensures IntBytes(v) == [ShiftedByte(v, 3), ShiftedByte(v, 2), ShiftedByte(v, 1), ShiftedByte(v, 0)]
  {
    assert Pow256(0) == 1 && Pow256(1) == 0x100 && Pow256(2) == 0x1_0000 && Pow256(3) == 0x100_0000;
  }

  lemma Spliced(s: seq<byte>, at: nat, k: nat)
    requires at + k <= |s|
    ensures s == s[..at] + s[at..at + k] + s[at + k..]
  {
  }

  method SetInt(buffer: array<byte>, at: nat, val: int32)
    requires at + 4 <= buffer.Length
    modifies buffer
    ensures buffer[..] == old(buffer[..at]) + IntBytes(val) + old(buffer[at + 4..])
  {
    var index := 0;
    ShiftedBytes(val);
    ghost var bytes := IntBytes(val);
    assert forall i :: 0 <= i < 4 ==> bytes[i] == ShiftedByte(val, 3 - i);
    assert bytes[..4] == bytes;
    hide ShiftedByte, IntBytes;
    while index < 4
      invariant 0 <= index <= 4
      invariant buffer[..at] == old(buffer[..at]) && buffer[at + 4..] == old(buffer[at + 4..])
      invariant buffer[at..at + index] == bytes[..index]
    {
      buffer[at + index] := ShiftedByte(val, 4 - index - 1);
      index := index + 1;
      assert buffer[at..at + index] == buffer[at..at + index - 1] + [bytes[index - 1]];
    }
    Spliced(buffer[..], at, 4);
  }

  /** The multiple of 2^32 that the wrap takes away. */
  lemma WrapShape(x: int) returns (k: int)
    ensures ToInt32(x) as int == x - 0x1_0000_0000 * k
  {
    k := (x + 0x8000_0000) / 0x1_0000_0000;
  }

  lemma Periodic(x: int, k: int)
    ensures ToInt32(x + 0x1_0000_0000 * k) == ToInt32(x)
  {
  }

  /** Shifting a number left by a byte leaves its low byte zero, so that the next byte fills it. */
  lemma ShiftIn(x: nat, b: byte)
    ensures ToInt32(256 * ToInt32(x)) as int + b as int == ToInt32(256 * x + b) as int
  {
    var a: int := ToInt32(x);
    var k := WrapShape(x);
    var z: int := ToInt32(256 * a);
    var j := WrapShape(256 * a);
    assert z == 256 * (a - 0x100_0000 * j);
    Periodic(z + b as int, 256 * k + j);
    assert 256 * x + b as int == (z + b as int) + 0x1_0000_0000 * (256 * k + j);
  }

  method GetInt(buffer: array<byte>, at: nat) returns (value: int32)
    requires at + 4 <= buffer.Length
    ensures value == IntOf(buffer[at..at + 4])
  {
    value := 0;
    var index := 0;
    assert Big(buffer[at..at]) == 0;
    while index < 4
      invariant 0 <= index <= 4 && value == ToInt32(Big(buffer[at..at + index]))
    {
      assert buffer[at..at + index + 1][..index] == buffer[at..at + index];
      ShiftIn(Big(buffer[at..at + index]), buffer[at + index]);
      value := ToInt32(value * 256) + buffer[at + index];
      index := index + 1;
    }
  }

  // ---------- Pointers, byte for byte ----------

  type pointer = x: int | 0 <= x < 0x1_0000_0000_0000_0000

  /** The eight bytes of a pointer on a machine that stores the least significant byte first. */
  function PointerBytes(p: pointer): (r: seq<byte>)
    ensures |r| == 8
  {
    LittleBytes(p, 8)
  }

  lemma PointerRoundTrip(p: pointer)
    ensures Little(PointerBytes(p)) == p
  {
    assert Pow256(2) == 0x1_0000 && Pow256(4) == 0x1_0000_0000;
    assert Pow256(6) == 0x1_0000_0000_0000 && Pow256(8) == 0x1_0000_0000_0000_0000;
    LittleOfLittleBytes(p, 8);
  }

  method SetPointer(buffer: array<byte>, at: nat, val: pointer)
    requires at + 8 <= buffer.Length
    modifies buffer
    ensures buffer[..] == old(buffer[..at]) + PointerBytes(val) + old(buffer[at + 8..])
  {
    var source := PointerBytes(val);
    var index := 0;
    while index < 8
      invariant 0 <= index <= 8
      invariant buffer[..at] == old(buffer[..at]) && buffer[at + 8..] == old(buffer[at + 8..])
      invariant buffer[at..at + index] == source[..index]
    {
      buffer[at + index] := source[index];
      index := index + 1;
      assert buffer[at..at + index] == buffer[at..at + index - 1] + [source[index - 1]];
    }
    assert source[..8] == source;
    Spliced(buffer[..], at, 8);
  }

  method GetPointer(buffer: array<byte>, at: nat) returns (value: nat)
    requires at + 8 <= buffer.Length
    ensures value == Little(buffer[at..at + 8])
  {
    var dest: seq<byte> := [];
    var index := 0;
    while index < 8
      invariant 0 <= index <= 8 && dest == buffer[at..at + index]
    {
      dest := dest + [buffer[at + index]];
      index := index + 1;
    }
    value := Little(dest);
  }

  // ---------- Messages ----------

  const REQUEST_OPEN: nat := 2
  const REQUEST_READ: nat := 3
  const REQUEST_WRITE: nat := 4
  const REQUEST_SEEK: nat := 5
  const REQUEST_CLOSE: nat := 6
  const REQUEST_TERMINATE: nat := 7

  predicate Int32(x: int) {
    -0x8000_0000 <= x < 0x8000_0000
  }

  /** The arguments are C values: 32-bit numbers, a pointer, and a name without a terminator inside. */
  predicate CValues(op: Op) {
    match op
    case Open(name, flags, mode) => 0 !in name && Int32(flags) && Int32(mode)
    case Read(fd, length, buffer) => Int32(fd) && Int32(length) && buffer < 0x1_0000_0000_0000_0000
    case Write(fd, length, buffer) => Int32(fd) && Int32(length) && buffer < 0x1_0000_0000_0000_0000
    case Seek(fd, offset, whence) => Int32(fd) && Int32(offset) && Int32(whence)
    case Close(fd) => Int32(fd)
    case _ => true
  }

  function TypeOf(op: Op): nat {
    match op
    case Nothing => 1
    case Open(_, _, _) => REQUEST_OPEN
    case Read(_, _, _) => REQUEST_READ
    case Write(_, _, _) => REQUEST_WRITE
    case Seek(_, _, _) => REQUEST_SEEK
    case Close(_) => REQUEST_CLOSE
    case Terminate => REQUEST_TERMINATE
  }

  /** The payload that the parent packs. */
  function Payload(op: Op): seq<byte>
    requires CValues(op)
  {
    match op
    case Open(name, flags, mode) => name + [0] + IntBytes(flags) + IntBytes(mode)
    case Read(fd, length, buffer) => IntBytes(fd) + IntBytes(length) + PointerBytes(buffer)
    case Write(fd, length, buffer) => IntBytes(fd) + IntBytes(length) + PointerBytes(buffer)
    case Seek(fd, offset, whence) => IntBytes(fd) + IntBytes(offset) + IntBytes(whence)
    case Close(fd) => IntBytes(fd)
    case _ => []
  }

  function StrLen(s: seq<byte>): (n: nat)
    ensures n <= |s| && (n < |s| ==> s[n] == 0) && 0 !in s[..n]
  {
    if s == [] || s[0] == 0 then 0
    else
      var n := 1 + StrLen(s[1..]);
      assert s[..n] == [s[0]] + s[1..][..n - 1];
      n
  }

  /** What the child takes a message of a type to ask for; None when the buffer is too short. */
  function Decode(kind: nat, s: seq<byte>): Op {
    if kind == REQUEST_OPEN && StrLen(s) + 9 <= |s| then
      var n := StrLen(s);
      Open(s[..n], IntOf(s[n + 1..n + 5]), IntOf(s[n + 5..n + 9]))
    else if kind == REQUEST_READ && |s| >= 16 then
      Read(IntOf(s[..4]), IntOf(s[4..8]), Little(s[8..16]))
    else if kind == REQUEST_WRITE && |s| >= 16 then
      Write(IntOf(s[..4]), IntOf(s[4..8]), Little(s[8..16]))
    else if kind == REQUEST_SEEK && |s| >= 12 then
      Seek(IntOf(s[..4]), IntOf(s[4..8]), IntOf(s[8..12]))
    else if kind == REQUEST_CLOSE && |s| >= 4 then
      Close(IntOf(s[..4]))
    else if kind == REQUEST_TERMINATE then Terminate
    else Nothing
  }

  lemma StrLenOf(name: seq<byte>, rest: seq<byte>)
    requires 0 !in name
    ensures StrLen(name + [0] + rest) == |name|
  {
    var s := name + [0] + rest;
    var n := StrLen(s);
    assert s[|name|] == 0;
    assert forall i :: 0 <= i < |name| ==> s[i] == name[i] && name[i] in name;
    assert forall i :: 0 <= i < n ==> s[..n][i] == s[i] && s[..n][i] != 0;
  }

  /** What the child decodes from any buffer that begins with a packed payload is what was packed, for
      every request and all its arguments. */
  lemma MessageRoundTrip(op: Op, rest: seq<byte>)
    requires CValues(op)
    ensures Decode(TypeOf(op), Payload(op) + rest) == op
  {
    var s := Payload(op) + rest;
    match op {
      case Open(name, flags, mode) =>
        OpenRoundTrip(name, flags, mode, rest);
      case Read(fd, length, buffer) =>
        TransferRoundTrip(fd, length, buffer, rest);
      case Write(fd, length, buffer) =>
        TransferRoundTrip(fd, length, buffer, rest);
      case Seek(fd, offset, whence) =>
        assert s[..4] == IntBytes(fd) && s[4..8] == IntBytes(offset) && s[8..12] == IntBytes(whence);
        IntRoundTrip(fd);
        IntRoundTrip(offset);
        IntRoundTrip(whence);
      case Close(fd) =>
        assert s[..4] == IntBytes(fd);
        IntRoundTrip(fd);
      case _ =>
    }
  }

  lemma OpenRoundTrip(name: seq<byte>, flags: int32, mode: int32, rest: seq<byte>)
    requires 0 !in name
    ensures var s := name + [0] + IntBytes(flags) + IntBytes(mode) + rest;
            var n := |name|;
            && StrLen(s) == n && n + 9 <= |s| && s[..n] == name
            && IntOf(s[n + 1..n + 5]) == flags && IntOf(s[n + 5..n + 9]) == mode
  {
    var s := name + [0] + IntBytes(flags) + IntBytes(mode) + rest;
    var n := |name|;
    assert s == name + [0] + (IntBytes(flags) + IntBytes(mode) + rest);
    StrLenOf(name, IntBytes(flags) + IntBytes(mode) + rest);
    assert s[n + 1..n + 5] == IntBytes(flags) && s[n + 5..n + 9] == IntBytes(mode);
    IntRoundTrip(flags);
    IntRoundTrip(mode);
  }

  lemma TransferRoundTrip(fd: int32, length: int32, buffer: pointer, rest: seq<byte>)
    ensures var s := IntBytes(fd) + IntBytes(length) + PointerBytes(buffer) + rest;
            |s| >= 16 && IntOf(s[..4]) == fd && IntOf(s[4..8]) == length && Little(s[8..16]) == buffer
  {
    var s := IntBytes(fd) + IntBytes(length) + PointerBytes(buffer) + rest;
    assert s[..4] == IntBytes(fd) && s[4..8] == IntBytes(length) && s[8..16] == PointerBytes(buffer);
    IntRoundTrip(fd);
    IntRoundTrip(length);
    PointerRoundTrip(buffer);
  }

  /** The payload bytes that `msgsnd` is told to send: its size counts the request id, and the record of
      which the payload is the last field is padded to 16 bytes. */
  function SentBytes(op: Op): nat {
    match op
    case Open(name, _, _) => 16 + |name| + 4 - 4
    case Read(_, _, _) => 16 + 2 * 4 + 8 - 1 - 4
    case Write(_, _, _) => 16 + 2 * 4 + 8 - 1 - 4
    case Seek(_, _, _) => 16 + 3 * 4 - 1 - 4
    case Close(_) => 16 + 4 - 1 - 4
    case _ => 16 - 1 - 4
  }

  /** The child's buffer after a message: what was sent, and behind it what was there before. */
  function Received(sender: seq<byte>, n: nat, before: seq<byte>): seq<byte>
    requires n <= |sender| && n <= |before|
  {
    sender[..n] + before[n..]
  }

  /** A request that fits the buffers arrives whole: the child decodes what the parent asked for, whatever
      else the two buffers hold. */
  lemma RequestArrives(op: Op, sender: seq<byte>, before: seq<byte>)
    requires CValues(op) && SentBytes(op) <= |sender| && SentBytes(op) <= |before|
    requires Payload(op) <= sender
    ensures Decode(TypeOf(op), Received(sender, SentBytes(op), before)) == op
  {
    var p, r := Payload(op), Received(sender, SentBytes(op), before);
    assert |p| <= SentBytes(op);
    assert r == p + r[|p|..];
    MessageRoundTrip(op, r[|p|..]);
  }

  // ---------- Packing and taking apart ----------

  method PackOpen(payload: array<byte>, name: seq<byte>, flags: int32, mode: int32)
    requires 0 !in name && |name| + 9 <= payload.Length
    modifies payload
    ensures payload[..|name| + 9] == Payload(Open(name, flags, mode))
  {
    var n := 0;
    while n < |name|
      invariant 0 <= n <= |name| && payload[..n] == name[..n]
    {
      payload[n] := name[n];
      n := n + 1;
    }
    payload[n] := 0;
    assert payload[..n + 1] == name + [0];
    SetInt(payload, |name| + 1, flags);
    assert payload[..n + 5] == name + [0] + IntBytes(flags);
    SetInt(payload, |name| + 4 + 1, mode);
  }

  /** For READ and for WRITE. */
  method PackTransfer(payload: array<byte>, fd: int32, length: int32, data: pointer)
    requires 16 <= payload.Length
    modifies payload
    ensures payload[..16] == Payload(Read(fd, length, data)) == Payload(Write(fd, length, data))
  {
    SetInt(payload, 0, fd);
    SetInt(payload, 4, length);
    assert payload[..8] == IntBytes(fd) + IntBytes(length);
    SetPointer(payload, 8, data);
  }

  method PackSeek(payload: array<byte>, fd: int32, offset: int32, whence: int32)
    requires 12 <= payload.Length
    modifies payload
    ensures payload[..12] == Payload(Seek(fd, offset, whence))
  {
    SetInt(payload, 0, fd);
    SetInt(payload, 4, offset);
    assert payload[..8] == IntBytes(fd) + IntBytes(offset);
    SetInt(payload, 8, whence);
  }

  /** The child's reading of an OPEN message. */
  method UnpackOpen(payload: array<byte>) returns (name: seq<byte>, flags: int32, mode: int32)
    requires StrLen(payload[..]) + 9 <= payload.Length
    ensures Open(name, flags, mode) == Decode(REQUEST_OPEN, payload[..])
  {
    var n := 0;
    ghost var len := StrLen(payload[..]);
    assert forall i :: 0 <= i < len ==> payload[..][..len][i] == payload[i] && payload[i] != 0;
    while payload[n] != 0
      invariant 0 <= n <= len
      decreases len - n
    {
      n := n + 1;
    }
    name := payload[..n];
    flags := GetInt(payload, n + 1);
    mode := GetInt(payload, n + 4 + 1);
    assert payload[..][n + 1..n + 5] == payload[n + 1..n + 5] && payload[..][n + 5..n + 9] == payload[n + 5..n + 9];
  }

  /** The child's reading of a READ or WRITE message. */
  method UnpackTransfer(payload: array<byte>) returns (fd: int32, length: int32, data: nat)
    requires 16 <= payload.Length
    ensures Read(fd, length, data) == Decode(REQUEST_READ, payload[..])
    ensures Write(fd, length, data) == Decode(REQUEST_WRITE, payload[..])
  {
    fd := GetInt(payload, 0);
    length := GetInt(payload, 4);
    data := GetPointer(payload, 8);
    assert payload[..][..4] == payload[0..4] && payload[..][4..8] == payload[4..8];
    assert payload[..][8..16] == payload[8..16];
  }

  /** The child's reading of a SEEK message. */
  method UnpackSeek(payload: array<byte>) returns (fd: int32, offset: int32, whence: int32)
    requires 12 <= payload.Length
    ensures Seek(fd, offset, whence) == Decode(REQUEST_SEEK, payload[..])
  {
    fd := GetInt(payload, 0);
    offset := GetInt(payload, 4);
    whence := GetInt(payload, 8);
    assert payload[..][..4] == payload[0..4] && payload[..][4..8] == payload[4..8];
    assert payload[..][8..12] == payload[8..12];
  }
}
