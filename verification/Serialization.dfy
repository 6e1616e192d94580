/** Messages between the modules: the growable buffer, length-prefixed packages on a byte
    stream, and the encoding of the four syscalls. */
module Serialization {
  import opened Arithmetic
  import opened Bytes
  import opened Lists

  const TWO_31 := 0x8000_0000
  const TWO_32 := 0x1_0000_0000

  type int32 = x: int | -TWO_31 <= x < TWO_31

  // --- 32-bit integers -----------------------------------------------------

  /** Two's complement, least significant byte first. */
  function Encode32(v: int32): (data: seq<byte>)
    ensures |data| == 4
  {
    var u := if v < 0 then v + TWO_32 else v;
    [u % 256, (u / 256) % 256, (u / 65536) % 256, (u / 16777216) % 256]
  }

  function Decode32(data: seq<byte>): int32
    requires |data| == 4
  {
    var u: int := data[0] as int + 256 * (data[1] as int) + 65536 * (data[2] as int) + 16777216 * (data[3] as int);
    if u < TWO_31 then u else u - TWO_32
  }

  lemma DigitsAddUp(u: int)
    requires 0 <= u < TWO_32
    ensures u % 256 + 256 * ((u / 256) % 256) + 65536 * ((u / 65536) % 256) + 16777216 * ((u / 16777216) % 256) == u
  {
    assert u / 65536 == (u / 256) / 256;
    assert u / 16777216 == (u / 65536) / 256;
  }

  lemma Int32RoundTrip(v: int32)
    ensures Decode32(Encode32(v)) == v
  {
    DigitsAddUp(if v < 0 then v + TWO_32 else v);
  }

  /** The four bytes of an integer, weighted by the powers of 256 in this order, are the
      integer, or 2^32 more when it is negative. */
  lemma Int32Bytes(v: int32)
    ensures var data := Encode32(v);
            (data[0] as int) + 256 * (data[1] as int) + 65536 * (data[2] as int) + 16777216 * (data[3] as int)
            == if v < 0 then v + 0x1_0000_0000 else v
  {
    DigitsAddUp(if v < 0 then v + TWO_32 else v);
  }

  // --- The buffer ----------------------------------------------------------

  /** The bytes of a buffer and the position of the next add or read. */
  datatype Buf = Buf(stream: seq<byte>, offset: nat)

  predicate InBounds(b: Buf) {
    b.offset <= |b.stream|
  }

  /** Puts bytes at the offset; a buffer too small grows to just fit them. */
  function Added(b: Buf, data: seq<byte>): (b': Buf)
    requires InBounds(b)
    ensures InBounds(b')
  {
    Buf(Splice(FileRoom(b.stream, b.offset + |data|), b.offset, data), b.offset + |data|)
  }

  /** Takes bytes at the offset; too few, nothing is taken. */
  function Taken(b: Buf, size: nat): (r: (Option<seq<byte>>, Buf))
    requires InBounds(b)
    ensures InBounds(r.1) && (r.0.Some? ==> |r.0.value| == size)
  {
    if b.offset + size > |b.stream| then (None, b)
    else (Some(b.stream[b.offset..b.offset + size]), b.(offset := b.offset + size))
  }

  /** The buffer holds the bytes added so far and zeros behind them, up to its first capacity. */
  ghost predicate Holds(b: Buf, capacity: nat, data: seq<byte>) {
    b.offset == |data| && b.stream == data + Zeros(if capacity > |data| then capacity - |data| else 0)
  }

  lemma CreatedHolds(capacity: nat)
    ensures Holds(Buf(Zeros(capacity), 0), capacity, [])
  {
  }

  /** Adding appends, whatever the capacity was. */
  lemma {:induction false} AddAppends(b: Buf, capacity: nat, before: seq<byte>, data: seq<byte>)
    requires InBounds(b) && Holds(b, capacity, before)
    ensures Holds(Added(b, data), capacity, before + data)
  {
  }

  /** What is still to be read. */
  ghost function Rest(b: Buf): seq<byte>
    requires InBounds(b)
  {
    b.stream[b.offset..]
  }

  lemma TakeFront(b: Buf, data: seq<byte>, behind: seq<byte>)
    requires InBounds(b) && Rest(b) == data + behind
    ensures Taken(b, |data|).0 == Some(data) && Rest(Taken(b, |data|).1) == behind
  {
    assert b.stream[b.offset..b.offset + |data|] == Rest(b)[..|data|];
    assert b.stream[b.offset + |data|..] == Rest(b)[|data|..];
  }

  function TakenInt(b: Buf): (r: (Option<int32>, Buf))
    requires InBounds(b)
    ensures InBounds(r.1)
  {
    var (data, b') := Taken(b, 4);
    if data.None? then (None, b') else (Some(Decode32(data.value)), b')
  }

  lemma TakeIntFront(b: Buf, v: int32, behind: seq<byte>)
    requires InBounds(b) && Rest(b) == Encode32(v) + behind
    ensures TakenInt(b).0 == Some(v) && Rest(TakenInt(b).1) == behind
  {
    TakeFront(b, Encode32(v), behind);
    Int32RoundTrip(v);
  }

  /** A string is its length in bytes and the bytes. */
  function StringBytes(text: seq<byte>): seq<byte>
    requires |text| < TWO_31
  {
    Encode32(|text|) + text
  }

  function TakenString(b: Buf): (r: (Option<seq<byte>>, Buf))
    requires InBounds(b)
    ensures InBounds(r.1)
  {
    var (length, b') := TakenInt(b);
    if length.None? || length.value < 0 then (None, b') else Taken(b', length.value)
  }

  lemma TakeStringFront(b: Buf, text: seq<byte>, behind: seq<byte>)
    requires InBounds(b) && |text| < TWO_31 && Rest(b) == StringBytes(text) + behind
    ensures TakenString(b).0 == Some(text) && Rest(TakenString(b).1) == behind
  {
    assert Rest(b) == Encode32(|text|) + (text + behind);
    TakeIntFront(b, |text|, text + behind);
    TakeFront(TakenInt(b).1, text, behind);
  }

  class Buffer {
    var stream: seq<byte>
    var offset: nat

    constructor (size: nat)
      ensures Value() == Buf(Zeros(size), 0)
    {
      stream, offset := Zeros(size), 0;
    }

    ghost function Value(): Buf
      reads this
    {
      Buf(stream, offset)
    }

    method Add(data: seq<byte>)
      requires InBounds(Value())
      modifies this
      ensures Value() == Added(old(Value()), data)
      ensures offset == old(offset) + |data| && |stream| == (if offset > |old(stream)| then offset else |old(stream)|)
      ensures stream[..old(offset)] == old(stream)[..old(offset)] && stream[old(offset)..offset] == data
      ensures offset <= |old(stream)| ==> stream[offset..] == old(stream)[offset..]
    {
      if offset + |data| > |stream| {
        var newSize := offset + |data|;
        stream := stream + Zeros(newSize - |stream|);
      }
      assert stream == FileRoom(old(stream), offset + |data|);
      stream := stream[..offset] + data + stream[offset + |data|..];
      assert stream == Splice(FileRoom(old(stream), offset + |data|), offset, data);
      offset := offset + |data|;
    }

    method AddInt(v: int32)
      requires InBounds(Value())
      modifies this
      ensures Value() == Added(old(Value()), Encode32(v))
    {
      Add(Encode32(v));
    }

    method Read(size: nat) returns (data: Option<seq<byte>>)
      requires InBounds(Value())
      modifies this
      ensures (data, Value()) == Taken(old(Value()), size)
      ensures if old(offset) + size <= |stream| then data == Some(stream[old(offset)..old(offset) + size]) && offset == old(offset) + size
              else data == None && offset == old(offset)
      ensures stream == old(stream)
    {
      if offset + size > |stream| {
        return None;
      }
      data := Some(stream[offset..offset + size]);
      offset := offset + size;
    }

    method ReadInt() returns (v: Option<int32>)
      requires InBounds(Value())
      modifies this
      ensures (v, Value()) == TakenInt(old(Value()))
    {
      var data := Read(4);
      v := if data.None? then None else Some(Decode32(data.value));
    }

    method ReadString() returns (text: Option<seq<byte>>)
      requires InBounds(Value())
      modifies this
      ensures (text, Value()) == TakenString(old(Value()))
    {
      var length := ReadInt();
      if length.None? || length.value < 0 {
        return None;
      }
      text := Read(length.value);
    }
  }

  // --- Packages on a stream ------------------------------------------------

  datatype Package = Package(opcode: int32, body: seq<byte>)

  predicate Sendable(p: Package) {
    |p.body| < TWO_31
  }

  function Serialized(p: Package): seq<byte>
    requires Sendable(p)
  {
    Encode32(p.opcode) + Encode32(|p.body|) + p.body
  }

  /** On the stream a package is its opcode, the length of its body, and the body. */
  lemma PackageLayout(p: Package)
    requires Sendable(p)
    ensures |Serialized(p)| == 8 + |p.body|
    ensures Serialized(p)[..4] == Encode32(p.opcode) && Serialized(p)[4..8] == Encode32(|p.body|) && Serialized(p)[8..] == p.body
  {
  }

  /** Waits for a number of bytes: what arrives, fewer only when the stream ends. */
  function Received(stream: seq<byte>, size: nat): (r: (seq<byte>, seq<byte>))
    ensures |r.0| == if size <= |stream| then size else |stream|
  {
    var n := if size <= |stream| then size else |stream|;
    (stream[..n], stream[n..])
  }

  /** A number of bytes of which only the first arrived. */
  function Padded(data: seq<byte>, size: nat): (full: seq<byte>)
    requires |data| <= size
    ensures |full| == size
  {
    data + Zeros(size - |data|)
  }

  /** One package from a stream, or nothing when a receive brings no byte at all, as it
      always does for an empty body. */
  function FirstPackage(stream: seq<byte>): (r: (Option<Package>, seq<byte>))
    ensures r.0.Some? ==> |r.1| < |stream|
  {
    var (opcode, afterOpcode) := Received(stream, 4);
    if opcode == [] then (None, afterOpcode)
    else
      var (size, afterSize) := Received(afterOpcode, 4);
      if size == [] then (None, afterSize)
      else
        var length := Decode32(Padded(size, 4));
        if length <= 0 then (None, afterSize)
        else
          var (body, rest) := Received(afterSize, length);
          if body == [] then (None, rest)
          else (Some(Package(Decode32(Padded(opcode, 4)), Padded(body, length))), rest)
  }

  /** All packages up to the first that cannot be received. */
  function ReceiveAll(stream: seq<byte>): seq<Package>
    decreases |stream|
  {
    var (p, rest) := FirstPackage(stream);
    if p.None? then [] else [p.value] + ReceiveAll(rest)
  }

  ghost predicate AllSendable(ps: seq<Package>) {
    forall i: nat | i < |ps| :: Sendable(ps[i])
  }

  ghost function SerializedAll(ps: seq<Package>): seq<byte>
    requires AllSendable(ps)
  {
    if ps == [] then []
    else
      assert forall i: nat | i < |ps| - 1 :: ps[1..][i] == ps[i + 1];
      Serialized(ps[0]) + SerializedAll(ps[1..])
  }

  lemma ReceivedFront(data: seq<byte>, behind: seq<byte>)
    ensures Received(data + behind, |data|) == (data, behind)
  {
  }

  /** A package with a body arrives as it was sent; one without does not arrive. */
  lemma PackageRoundTrip(p: Package, behind: seq<byte>)
    requires Sendable(p)
    ensures p.body != [] ==> FirstPackage(Serialized(p) + behind) == (Some(p), behind)
    ensures p.body == [] ==> FirstPackage(Serialized(p) + behind).0 == None
  {
    var stream := Serialized(p) + behind;
    assert stream == Encode32(p.opcode) + (Encode32(|p.body|) + (p.body + behind));
    ReceivedFront(Encode32(p.opcode), Encode32(|p.body|) + (p.body + behind));
    ReceivedFront(Encode32(|p.body|), p.body + behind);
    ReceivedFront(p.body, behind);
    Int32RoundTrip(p.opcode);
    Int32RoundTrip(|p.body|);
    assert Padded(Encode32(p.opcode), 4) == Encode32(p.opcode);
    assert Padded(Encode32(|p.body|), 4) == Encode32(|p.body|);
    assert Padded(p.body, |p.body|) == p.body;
  }

  /** A package the stream ends in the middle of, after the first byte of its body, is received
      with what came of the body, filled up. */
  lemma CutPackage(p: Package, n: nat)
    requires Sendable(p) && 0 < n <= |p.body|
    ensures FirstPackage(Encode32(p.opcode) + Encode32(|p.body|) + p.body[..n])
         == (Some(Package(p.opcode, p.body[..n] + Zeros(|p.body| - n))), [])
  {
    var part := p.body[..n];
    assert Encode32(p.opcode) + Encode32(|p.body|) + part == Encode32(p.opcode) + (Encode32(|p.body|) + part);
    ReceivedFront(Encode32(p.opcode), Encode32(|p.body|) + part);
    ReceivedFront(Encode32(|p.body|), part);
    Int32RoundTrip(p.opcode);
    Int32RoundTrip(|p.body|);
    assert Padded(Encode32(p.opcode), 4) == Encode32(p.opcode);
    assert Padded(Encode32(|p.body|), 4) == Encode32(|p.body|);
    assert part[..|part|] == part && part[|part|..] == [];
  }

  /** How many packages come before the first one without body. */
  ghost function WithBodies(ps: seq<Package>): (n: nat)
    ensures n <= |ps|
  {
    if ps == [] || ps[0].body == [] then 0 else 1 + WithBodies(ps[1..])
  }

  lemma {:induction false} AllWithBodies(ps: seq<Package>)
    ensures WithBodies(ps) == |ps| <==> forall i: nat | i < |ps| :: ps[i].body != []
  {
    if ps != [] {
      AllWithBodies(ps[1..]);
      assert forall i: nat | 0 < i < |ps| :: ps[1..][i - 1] == ps[i];
    }
  }

  lemma TailSendable(ps: seq<Package>)
    requires AllSendable(ps) && ps != []
    ensures AllSendable(ps[1..]) && Sendable(ps[0])
    ensures SerializedAll(ps) == Serialized(ps[0]) + SerializedAll(ps[1..])
  {
  }

  lemma ReceiveFirst(stream: seq<byte>, p: Package, rest: seq<byte>)
    requires FirstPackage(stream) == (Some(p), rest)
    ensures ReceiveAll(stream) == [p] + ReceiveAll(rest)
  {
  }

  lemma ReceiveNothing(stream: seq<byte>)
    requires FirstPackage(stream).0 == None
    ensures ReceiveAll(stream) == []
  {
  }

  lemma FirstDelivered(ps: seq<Package>)
    requires AllSendable(ps) && ps != []
    ensures AllSendable(ps[1..])
    ensures ReceiveAll(SerializedAll(ps)) == if ps[0].body != [] then [ps[0]] + ReceiveAll(SerializedAll(ps[1..])) else []
  {
    TailSendable(ps);
    var behind := SerializedAll(ps[1..]);
    PackageRoundTrip(ps[0], behind);
    if ps[0].body != [] {
      ReceiveFirst(Serialized(ps[0]) + behind, ps[0], behind);
    } else {
      ReceiveNothing(Serialized(ps[0]) + behind);
    }
  }

  lemma FirstAndRest(ps: seq<Package>, n: nat)
    requires n < |ps|
    ensures ps[..n + 1] == [ps[0]] + ps[1..][..n]
  {
  }

  /** A sequence of packages sent back to back arrives up to the first without body. */
  lemma {:induction false} StreamDelivers(ps: seq<Package>)
    requires AllSendable(ps)
    ensures ReceiveAll(SerializedAll(ps)) == ps[..WithBodies(ps)]
  {
    if ps == [] {
      ReceiveNothing([]);
    } else {
      FirstDelivered(ps);
      if ps[0].body != [] {
        StreamDelivers(ps[1..]);
        FirstAndRest(ps, WithBodies(ps[1..]));
      }
    }
  }

  /** So it arrives as it was sent exactly when every package has a body. */
  lemma StreamRoundTrip(ps: seq<Package>)
    requires AllSendable(ps)
    ensures ReceiveAll(SerializedAll(ps)) == ps <==> forall i: nat | i < |ps| :: ps[i].body != []
  {
    StreamDelivers(ps);
    AllWithBodies(ps);
    if ps[..WithBodies(ps)] == ps {
      assert WithBodies(ps) == |ps|;
    }
  }

  // --- Syscalls ------------------------------------------------------------

  const SYSCALL: int32 := 15

  const SYSCALL_INIT_PROC: int32 := 0
  const SYSCALL_IO: int32 := 1
  const SYSCALL_DUMP_MEMORY: int32 := 2
  const SYSCALL_EXIT: int32 := 3

  /** A text without its end mark: no byte of it is zero. */
  predicate IsText(text: seq<byte>) {
    |text| + 1 < TWO_31 && forall i: nat | i < |text| :: text[i] != 0
  }

  datatype Syscall =
    | InitProc(pid: int32, pc: int32, memorySpace: int32, file: seq<byte>)
    | Io(pid: int32, pc: int32, device: seq<byte>, sleepTime: int32)
    | DumpMemory(pid: int32, pc: int32)
    | Exit(pid: int32, pc: int32)
    | Unknown(kind: int32, pid: int32, pc: int32)

  predicate Sound(call: Syscall) {
    match call
    case InitProc(_, _, _, file) => IsText(file)
    case Io(_, _, device, _) => IsText(device)
    case Unknown(_, _, _) => false
    case _ => true
  }

  function KindOf(call: Syscall): int32 {
    match call
    case InitProc(_, _, _, _) => SYSCALL_INIT_PROC
    case Io(_, _, _, _) => SYSCALL_IO
    case DumpMemory(_, _) => SYSCALL_DUMP_MEMORY
    case Exit(_, _) => SYSCALL_EXIT
    case Unknown(kind, _, _) => kind
  }

  /** The parameters of a call, strings with their end mark. */
  function ParametersOf(call: Syscall): seq<byte>
    requires Sound(call)
  {
    match call
    case InitProc(_, _, memorySpace, file) => Encode32(memorySpace) + StringBytes(file + [0])
    case Io(_, _, device, sleepTime) => StringBytes(device + [0]) + Encode32(sleepTime)
    case _ => []
  }

  function BytesOf(call: Syscall): seq<byte>
    requires Sound(call)
  {
    Encode32(KindOf(call)) + Encode32(call.pid) + Encode32(call.pc) + ParametersOf(call)
  }

  /** A call starts with its kind, the pid and the pc, four bytes each. */
  lemma SyscallHeader(call: Syscall)
    requires Sound(call)
    ensures |BytesOf(call)| >= 12
    ensures BytesOf(call)[..4] == [if call.InitProc? then 0 else if call.Io? then 1 else if call.DumpMemory? then 2 else 3, 0, 0, 0]
    ensures BytesOf(call)[4..8] == Encode32(call.pid) && BytesOf(call)[8..12] == Encode32(call.pc)
    ensures BytesOf(call)[12..] == ParametersOf(call)
  {
    assert Encode32(KindOf(call)) == [KindOf(call), 0, 0, 0];
  }

  /** Then comes, for a new process, its size and its file name, for IO the device name and
      the time. A name has its length before it and its end mark behind it, which the length
      counts. */
  lemma SyscallLayout(call: Syscall)
    requires Sound(call)
    ensures |BytesOf(call)| >= 12
    ensures BytesOf(call)[12..]
         == match call
            case InitProc(_, _, memorySpace, file) => Encode32(memorySpace) + Encode32(|file| + 1) + file + [0]
            case Io(_, _, device, sleepTime) => Encode32(|device| + 1) + device + [0] + Encode32(sleepTime)
            case _ => []
  {
    SyscallHeader(call);
    match call
    case InitProc(_, _, memorySpace, file) =>
      assert Encode32(memorySpace) + (Encode32(|file| + 1) + (file + [0])) == Encode32(memorySpace) + Encode32(|file| + 1) + file + [0];
    case Io(_, _, device, sleepTime) =>
      assert Encode32(|device| + 1) + (device + [0]) + Encode32(sleepTime) == Encode32(|device| + 1) + device + [0] + Encode32(sleepTime);
    case _ =>
  }

  /** The text before the first zero; nothing when there is none. */
  function TextOf(data: seq<byte>, from: nat): (text: Option<seq<byte>>)
    requires from <= |data|
    decreases |data| - from
  {
    if from == |data| then None
    else if data[from] == 0 then Some(data[..from])
    else TextOf(data, from + 1)
  }

  lemma {:induction false} TextRoundTrip(text: seq<byte>, from: nat)
    requires from <= |text| && forall i: nat | i < |text| :: text[i] != 0
    ensures TextOf(text + [0], from) == Some(text)
    decreases |text| - from
  {
    if from < |text| {
      TextRoundTrip(text, from + 1);
    } else {
      assert (text + [0])[..from] == text;
    }
  }

  /** Reads the parameters of a call of a kind; nothing when the buffer is too short. */
  function DecodeParameters(kind: int32, pid: int32, pc: int32, b: Buf): Option<Syscall>
    requires InBounds(b)
  {
    if kind == SYSCALL_INIT_PROC then
      var (memorySpace, b') := TakenInt(b);
      var file := TakenString(b').0;
      if memorySpace.None? || file.None? || TextOf(file.value, 0).None? then None
      else Some(InitProc(pid, pc, memorySpace.value, TextOf(file.value, 0).value))
    else if kind == SYSCALL_IO then
      var (device, b') := TakenString(b);
      var sleepTime := TakenInt(b').0;
      if device.None? || sleepTime.None? || TextOf(device.value, 0).None? then None
      else Some(Io(pid, pc, TextOf(device.value, 0).value, sleepTime.value))
    else if kind == SYSCALL_DUMP_MEMORY then Some(DumpMemory(pid, pc))
    else if kind == SYSCALL_EXIT then Some(Exit(pid, pc))
    else Some(Unknown(kind, pid, pc))
  }

  /** Reads a syscall from the start of a buffer. */
  function DecodeSyscall(stream: seq<byte>): Option<Syscall> {
    var (kind, b1) := TakenInt(Buf(stream, 0));
    var (pid, b2) := TakenInt(b1);
    var (pc, b3) := TakenInt(b2);
    if kind.None? || pid.None? || pc.None? then None else DecodeParameters(kind.value, pid.value, pc.value, b3)
  }

  lemma HeaderFront(kind: int32, pid: int32, pc: int32, behind: seq<byte>) returns (b: Buf)
    ensures InBounds(b) && Rest(b) == behind
    ensures DecodeSyscall(Encode32(kind) + Encode32(pid) + Encode32(pc) + behind) == DecodeParameters(kind, pid, pc, b)
  {
    var b0 := Buf(Encode32(kind) + Encode32(pid) + Encode32(pc) + behind, 0);
    assert Rest(b0) == Encode32(kind) + (Encode32(pid) + (Encode32(pc) + behind));
    TakeIntFront(b0, kind, Encode32(pid) + (Encode32(pc) + behind));
    var b1 := TakenInt(b0).1;
    TakeIntFront(b1, pid, Encode32(pc) + behind);
    var b2 := TakenInt(b1).1;
    TakeIntFront(b2, pc, behind);
    b := TakenInt(b2).1;
  }

  lemma InitProcParameters(call: Syscall, b: Buf, behind: seq<byte>)
    requires call.InitProc? && Sound(call) && InBounds(b) && Rest(b) == ParametersOf(call) + behind
    ensures DecodeParameters(SYSCALL_INIT_PROC, call.pid, call.pc, b) == Some(call)
  {
    var text := call.file + [0];
    assert Rest(b) == Encode32(call.memorySpace) + (StringBytes(text) + behind);
    TakeIntFront(b, call.memorySpace, StringBytes(text) + behind);
    TakeStringFront(TakenInt(b).1, text, behind);
    TextRoundTrip(call.file, 0);
  }

  lemma IoParameters(call: Syscall, b: Buf, behind: seq<byte>)
    requires call.Io? && Sound(call) && InBounds(b) && Rest(b) == ParametersOf(call) + behind
    ensures DecodeParameters(SYSCALL_IO, call.pid, call.pc, b) == Some(call)
  {
    var text := call.device + [0];
    assert Rest(b) == StringBytes(text) + (Encode32(call.sleepTime) + behind);
    TakeStringFront(b, text, Encode32(call.sleepTime) + behind);
    TakeIntFront(TakenString(b).1, call.sleepTime, behind);
    TextRoundTrip(call.device, 0);
  }

  lemma ParametersRoundTrip(call: Syscall, b: Buf, behind: seq<byte>)
    requires Sound(call) && InBounds(b) && Rest(b) == ParametersOf(call) + behind
    ensures DecodeParameters(KindOf(call), call.pid, call.pc, b) == Some(call)
  {
    if call.InitProc? {
      InitProcParameters(call, b, behind);
    } else if call.Io? {
      IoParameters(call, b, behind);
    }
  }

  lemma HeaderSplit(kind: seq<byte>, pid: seq<byte>, pc: seq<byte>, parameters: seq<byte>, behind: seq<byte>)
    ensures (kind + pid + pc + parameters) + behind == kind + pid + pc + (parameters + behind)
  {
  }

  /** Every syscall is read as it was written, also with bytes left over behind it. */
  lemma SyscallRoundTrip(call: Syscall, behind: seq<byte>)
    requires Sound(call)
    ensures DecodeSyscall(BytesOf(call) + behind) == Some(call)
  {
    var parameters := ParametersOf(call);
    var b := HeaderFront(KindOf(call), call.pid, call.pc, parameters + behind);
    ParametersRoundTrip(call, b, behind);
    HeaderSplit(Encode32(KindOf(call)), Encode32(call.pid), Encode32(call.pc), parameters, behind);
  }

  /** Writes a call into a new buffer of any first capacity. */
  method CreateSyscallBuffer(call: Syscall, capacity: nat) returns (buffer: Buffer)
    requires Sound(call)
    ensures fresh(buffer) && Holds(buffer.Value(), capacity, BytesOf(call))
  {
    ghost var header := Encode32(KindOf(call)) + Encode32(call.pid) + Encode32(call.pc);
    buffer := CreateHeader(capacity, KindOf(call), call.pid, call.pc);
    AddParameters(buffer, capacity, header, call);
    assert BytesOf(call) == header + ParametersOf(call);
  }

  /** A new buffer with the numbers every call starts with. */
  method CreateHeader(capacity: nat, kind: int32, pid: int32, pc: int32) returns (buffer: Buffer)
    ensures fresh(buffer) && InBounds(buffer.Value()) && Holds(buffer.Value(), capacity, Encode32(kind) + Encode32(pid) + Encode32(pc))
  {
    buffer := new Buffer(capacity);
    CreatedHolds(capacity);
    AddHeld(buffer, capacity, [], Encode32(kind));
    assert [] + Encode32(kind) == Encode32(kind);
    AddHeld(buffer, capacity, Encode32(kind), Encode32(pid));
    AddHeld(buffer, capacity, Encode32(kind) + Encode32(pid), Encode32(pc));
  }

  method AddParameters(buffer: Buffer, ghost capacity: nat, ghost header: seq<byte>, call: Syscall)
    requires Sound(call) && InBounds(buffer.Value()) && Holds(buffer.Value(), capacity, header)
    modifies buffer
    ensures Holds(buffer.Value(), capacity, header + ParametersOf(call))
  {
    match call {
      case InitProc(_, _, memorySpace, file) =>
        AddHeld(buffer, capacity, header, Encode32(memorySpace));
        AddHeldString(buffer, capacity, header + Encode32(memorySpace), file + [0]);
        assert header + Encode32(memorySpace) + StringBytes(file + [0]) == header + ParametersOf(call);
      case Io(_, _, device, sleepTime) =>
        AddHeldString(buffer, capacity, header, device + [0]);
        AddHeld(buffer, capacity, header + StringBytes(device + [0]), Encode32(sleepTime));
        assert header + StringBytes(device + [0]) + Encode32(sleepTime) == header + ParametersOf(call);
      case _ =>
        assert header + ParametersOf(call) == header;
    }
  }

  method AddHeld(buffer: Buffer, ghost capacity: nat, ghost before: seq<byte>, data: seq<byte>)
    requires InBounds(buffer.Value()) && Holds(buffer.Value(), capacity, before)
    modifies buffer
    ensures InBounds(buffer.Value()) && Holds(buffer.Value(), capacity, before + data)
  {
    AddAppends(buffer.Value(), capacity, before, data);
    buffer.Add(data);
  }

  method AddHeldString(buffer: Buffer, ghost capacity: nat, ghost before: seq<byte>, text: seq<byte>)
    requires InBounds(buffer.Value()) && Holds(buffer.Value(), capacity, before) && |text| < TWO_31
    modifies buffer
    ensures InBounds(buffer.Value()) && Holds(buffer.Value(), capacity, before + StringBytes(text))
  {
    AddHeld(buffer, capacity, before, Encode32(|text|));
    AddHeld(buffer, capacity, before + Encode32(|text|), text);
    assert before + Encode32(|text|) + text == before + StringBytes(text);
  }

  /** Reads a call from a buffer, from its start. */
  method ReadSyscall(buffer: Buffer) returns (call: Option<Syscall>)
    modifies buffer
    ensures call == DecodeSyscall(old(buffer.stream)) && buffer.stream == old(buffer.stream) && buffer.offset == 0
  {
    buffer.offset := 0;
    var kind := buffer.ReadInt();
    var pid := buffer.ReadInt();
    var pc := buffer.ReadInt();
    if kind.None? || pid.None? || pc.None? {
      call := None;
    } else {
      call := ReadParameters(buffer, kind.value, pid.value, pc.value);
    }
    buffer.offset := 0;
  }

  method ReadParameters(buffer: Buffer, kind: int32, pid: int32, pc: int32) returns (call: Option<Syscall>)
    requires InBounds(buffer.Value())
    modifies buffer
    ensures call == DecodeParameters(kind, pid, pc, old(buffer.Value())) && buffer.stream == old(buffer.stream)
  {
    if kind == SYSCALL_INIT_PROC {
      var memorySpace := buffer.ReadInt();
      var file := buffer.ReadString();
      if memorySpace.None? || file.None? || TextOf(file.value, 0).None? {
        return None;
      }
      call := Some(InitProc(pid, pc, memorySpace.value, TextOf(file.value, 0).value));
    } else if kind == SYSCALL_IO {
      var device := buffer.ReadString();
      var sleepTime := buffer.ReadInt();
      if device.None? || sleepTime.None? || TextOf(device.value, 0).None? {
        return None;
      }
      call := Some(Io(pid, pc, TextOf(device.value, 0).value, sleepTime.value));
    } else if kind == SYSCALL_DUMP_MEMORY {
      call := Some(DumpMemory(pid, pc));
    } else if kind == SYSCALL_EXIT {
      call := Some(Exit(pid, pc));
    } else {
      call := Some(Unknown(kind, pid, pc));
    }
  }

  /** One end of a connection: the bytes that will still arrive. */
  class Socket {
    var pending: seq<byte>

    constructor (pending: seq<byte>)
      ensures this.pending == pending
    {
      this.pending := pending;
    }

    method Receive(size: nat) returns (data: seq<byte>)
      modifies this
      ensures (data, pending) == Received(old(pending), size)
    {
      var n := if size <= |pending| then size else |pending|;
      data := pending[..n];
      pending := pending[n..];
    }

    /** Receives a package: header, then a buffer filled with the body. */
    method ReceivePackage() returns (opcode: int32, buffer: Buffer?)
      modifies this
      ensures var (p, rest) := FirstPackage(old(pending));
              pending == rest && (buffer != null <==> p.Some?)
              && (p.Some? ==> fresh(buffer) && opcode == p.value.opcode && buffer.stream == p.value.body && buffer.offset == |p.value.body|)
    {
      opcode, buffer := 0, null;
      var opcodeBytes := Receive(4);
      if opcodeBytes == [] {
        return;
      }
      var sizeBytes := Receive(4);
      if sizeBytes == [] {
        return;
      }
      var length := Decode32(Padded(sizeBytes, 4));
      if length <= 0 {
        return;
      }
      var body := Receive(length);
      if body == [] {
        return;
      }
      opcode := Decode32(Padded(opcodeBytes, 4));
      var filled := new Buffer(length);
      filled.Add(Padded(body, length));
      assert filled.stream == Padded(body, length);
      buffer := filled;
    }
  }

  /** From the sender's record to the receiver's: whatever the first capacity of the
      sender's buffer, the package that holds it is received and decodes to the same call. */
  lemma SyscallDelivered(call: Syscall, b: Buf, capacity: nat, behind: seq<byte>)
    requires Sound(call) && Holds(b, capacity, BytesOf(call)) && |b.stream| < TWO_31
    ensures var (p, rest) := FirstPackage(Serialized(Package(SYSCALL, b.stream)) + behind);
            p == Some(Package(SYSCALL, b.stream)) && rest == behind && DecodeSyscall(p.value.body) == Some(call)
  {
    PackageRoundTrip(Package(SYSCALL, b.stream), behind);
    SyscallRoundTrip(call, Zeros(if capacity > |BytesOf(call)| then capacity - |BytesOf(call)| else 0));
  }
}
