/*
 * Register access (EspLink.Registers.cs): READ_REG and WRITE_REG.
 *
 * ReadRegAsync is CommandResultAsync of its request: the value it returns
 * is the value word of the chip's reply.  WriteRegAsync is
 * CheckCommandAsync of its request: a reply whose status reports an error
 * fails it.  Both are proved against functions of the wire (ReadRegOn,
 * WriteRegOn).  The register sequences of the other operations are
 * specified over a Bus: runs of register commands (RegAccess) whose
 * traces say which commands were issued, in order, and whose request
 * frames follow from them (RequestFrame).  A sequence of commands that
 * stops at the first failure is AccessesOn.
 */
module Registers {
  import opened Results
  import opened Bytes
  import opened Devices
  import opened Packet
  import opened Framing
  import opened Session
  import opened Transport
  import opened Commands

  /** ReadRegAsync's request: the device's READ_REG opcode (0x0A without a device), the address little-endian, checksum 0. */
  function ReadRegRequest(device: Option<Descriptor>, address: bv32): (q: Request)
    ensures q.op == 0x0A && q.chk == 0 && |q.data| == 4
    ensures Word32(q.data) == address
  {
    Word32OfLE32(address);
    Request(if device.Some? then ESP_READ_REG else 0x0A, LE32(address), 0)
  }

  /** The second record WriteRegAsync appends for a delay after the write. */
  const DELAY_RECORD_ADDRESS: bv32 := 0x6000_0078

  /**
   * WriteRegAsync's request: the device's WRITE_REG opcode (0x09 without a
   * device), the record {address, value, mask, delayUSec}, followed by
   * {0x60000078, 0, 0, delayAfterUSec} when a delay after is asked for.
   */
  function WriteRegRequest(device: Option<Descriptor>, address: bv32, value: bv32, mask: bv32, delayUSec: bv32, delayAfterUSec: bv32): (q: Request)
    ensures q.op == 0x09 && q.chk == 0
    ensures |q.data| == if delayAfterUSec == 0 then 16 else 32
  {
    var first := Record(address, value, mask, delayUSec);
    var data := if delayAfterUSec == 0 then first else first + Record(DELAY_RECORD_ADDRESS, 0, 0, delayAfterUSec);
    Request(if device.Some? then ESP_WRITE_REG else 0x09, data, 0)
  }

  /** The request a register command sends. */
  function RequestOf(device: Option<Descriptor>, a: RegAccess): Request
  {
    match a
    case RegRead(address) => ReadRegRequest(device, address)
    case RegWrite(address, value, mask, delayUSec, delayAfterUSec) => WriteRegRequest(device, address, value, mask, delayUSec, delayAfterUSec)
  }

  /** The common write: all bits, no delays. */
  function WriteWord(address: bv32, value: bv32): RegAccess
  {
    RegWrite(address, value, 0xFFFF_FFFF, 0, 0)
  }

  /** A WRITE_REG payload is the record {address, value, mask, delayUSec}, then the delay record if any. */
  lemma WriteRegPayload(device: Option<Descriptor>, address: bv32, value: bv32, mask: bv32, delayUSec: bv32, delayAfterUSec: bv32)
    ensures var d := WriteRegRequest(device, address, value, mask, delayUSec, delayAfterUSec).data;
      d[..16] == Record(address, value, mask, delayUSec) &&
      (delayAfterUSec != 0 ==> d[16..] == Record(DELAY_RECORD_ADDRESS, 0, 0, delayAfterUSec))
  {
  }

  /** Reading the first record back little-endian gives the arguments in order. */
  lemma WriteRegDecodes(device: Option<Descriptor>, address: bv32, value: bv32, mask: bv32, delayUSec: bv32, delayAfterUSec: bv32)
    ensures var d := WriteRegRequest(device, address, value, mask, delayUSec, delayAfterUSec).data;
      Word32(d[0..4]) == address && Word32(d[4..8]) == value && Word32(d[8..12]) == mask && Word32(d[12..16]) == delayUSec
  {
    var d := WriteRegRequest(device, address, value, mask, delayUSec, delayAfterUSec).data;
    var first := Record(address, value, mask, delayUSec);
    WriteRegPayload(device, address, value, mask, delayUSec, delayAfterUSec);
    RecordDecodes(address, value, mask, delayUSec);
    assert d[0..4] == first[0..4] && d[4..8] == first[4..8] && d[8..12] == first[8..12] && d[12..16] == first[12..16];
  }

  /** With a delay after the write, the second record reads back as {0x60000078, 0, 0, delayAfterUSec}. */
  lemma WriteRegDelayDecodes(device: Option<Descriptor>, address: bv32, value: bv32, mask: bv32, delayUSec: bv32, delayAfterUSec: bv32)
    requires delayAfterUSec != 0
    ensures var d := WriteRegRequest(device, address, value, mask, delayUSec, delayAfterUSec).data;
      Word32(d[16..20]) == DELAY_RECORD_ADDRESS && Word32(d[20..24]) == 0 && Word32(d[24..28]) == 0 && Word32(d[28..32]) == delayAfterUSec
  {
    var d := WriteRegRequest(device, address, value, mask, delayUSec, delayAfterUSec).data;
    var second := Record(DELAY_RECORD_ADDRESS, 0, 0, delayAfterUSec);
    WriteRegPayload(device, address, value, mask, delayUSec, delayAfterUSec);
    RecordDecodes(DELAY_RECORD_ADDRESS, 0, 0, delayAfterUSec);
    assert d[16..20] == second[0..4] && d[20..24] == second[4..8] && d[24..28] == second[8..12] && d[28..32] == second[12..16];
  }

  /** Appending to a trace one piece at a time appends the pieces together. */
  lemma AppendAssoc<T>(a: seq<T>, b: seq<T>, c: seq<T>)
    ensures a + b + c == a + (b + c)
  {
  }


  /** What a register command talks to: whether the port opens, the device, the loader, and the timeout. */
  datatype Target = Target(present: bool, device: Option<Descriptor>, isStub: bool, timeout: int)

  ghost function TargetOf(link: Link, timeout: int): Target
    reads link, link.hw
  {
    Target(link.hw.present, link.device, link.isStub, timeout)
  }

  /** The frame that carries a register command's request. */
  function RequestFrame(device: Option<Descriptor>, a: RegAccess): seq<byte>
  {
    var q := RequestOf(device, a);
    Frame(PacketBytes(ByteOf(q.op as int), q.data, q.chk))
  }

  /** RequestFrame for a device, as a function of the command. */
  function FrameOf(device: Option<Descriptor>): RegAccess -> seq<byte>
  {
    a => RequestFrame(device, a)
  }

  /** The frames of a run of register commands, in order. */
  function Frames(frame: RegAccess -> seq<byte>, t: seq<RegAccess>): (f: seq<seq<byte>>)
    ensures |f| == |t|
  {
    if t == [] then [] else [frame(t[0])] + Frames(frame, t[1..])
  }

  /**
   * ReadRegAsync on the wire: CommandResultAsync of the READ_REG request.
   * When the port opens, exactly the request frame goes out; otherwise the
   * send fails with a NullReferenceException and nothing changes.
   */
  function ReadRegOn(w: Wire, t: Target, address: bv32): (s: Step<bv32>)
    ensures (w.open || t.present) ==> s.wire.sent == w.sent + [RequestFrame(t.device, RegRead(address))] && s.wire.open
    ensures !(w.open || t.present) ==> s == Step(Err(NullReference), w)
    ensures s.result.Err? ==> ReplyFault(s.result.fault) || s.result.fault == IOFault(UnableToReadValue) || s.result.fault == NullReference
  {
    var q := ReadRegRequest(t.device, address);
    ValueCommandOn(w, t.present, q.op as int, q.data, q.chk, t.timeout)
  }

  /**
   * WriteRegAsync on the wire: CheckCommandAsync of the WRITE_REG request,
   * so a reply whose status byte is not zero fails the write.
   */
  function WriteRegOn(w: Wire, t: Target, address: bv32, value: bv32, mask: bv32, delayUSec: bv32, delayAfterUSec: bv32): (s: Step<Answer>)
    ensures (w.open || t.present) ==> s.wire.sent == w.sent + [RequestFrame(t.device, RegWrite(address, value, mask, delayUSec, delayAfterUSec))] && s.wire.open
    ensures !(w.open || t.present) ==> s == Step(Err(NullReference), w)
  {
    var q := WriteRegRequest(t.device, address, value, mask, delayUSec, delayAfterUSec);
    var s := CheckOn(w, t.present, t.device, t.isStub, q.op as int, q.data, q.chk, t.timeout);
    assert (w.open || t.present) ==> s.wire.sent == w.sent + [RequestFrame(t.device, RegWrite(address, value, mask, delayUSec, delayAfterUSec))] by {
      if w.open || t.present {
        CheckOnSends(w, t.present, t.device, t.isStub, q.op as int, q.data, q.chk, t.timeout);
      }
    }
    s
  }

  /** There is only one unit value, so dropping it changes nothing. */
  lemma UnitIdentity(r: Result<()>)
    ensures Unit(r) == r
  {
    if r.Ok? {
      match r.value {
        case () =>
      }
    }
  }

  /** One register command on the wire, its value dropped. */
  function AccessOn(w: Wire, t: Target, a: RegAccess): (s: Step<()>)
    ensures (w.open || t.present) ==> s.wire.sent == w.sent + [RequestFrame(t.device, a)] && s.wire.open
    ensures !(w.open || t.present) ==> s == Step(Err(NullReference), w)
  {
    match a
    case RegRead(address) =>
      var s := ReadRegOn(w, t, address);
      Step(Unit(s.result), s.wire)
    case RegWrite(address, value, mask, delayUSec, delayAfterUSec) =>
      var s := WriteRegOn(w, t, address, value, mask, delayUSec, delayAfterUSec);
      Step(Unit(s.result), s.wire)
  }

  /** AccessOn as a step function of the wire, for the runs below. */
  function Access(t: Target): (Wire, RegAccess) -> Step<()>
  {
    (w, a) => AccessOn(w, t, a)
  }

  /**
   * The register commands of a target as functions of the wire: `read` is
   * ReadRegAsync's step, `access` any command's step with its value
   * dropped.  The register sequences are specified over a bus, and Drives
   * says which target a bus stands for.
   */
  datatype Bus = Bus(read: (Wire, bv32) -> Step<bv32>, access: (Wire, RegAccess) -> Step<()>)

  /** Marks the places where a bus's equations are used. */
  ghost predicate Issued(w: Wire, a: RegAccess)
  {
    true
  }

  /** The bus's steps are ReadRegOn and AccessOn of target t. */
  ghost predicate Drives(bus: Bus, t: Target)
  {
    (forall w, address {:trigger Issued(w, RegRead(address))} :: bus.read(w, address) == ReadRegOn(w, t, address)) &&
    (forall w, a {:trigger Issued(w, a)} :: bus.access(w, a) == AccessOn(w, t, a))
  }

  /** The bus of a target. */
  function BusOf(t: Target): Bus
  {
    Bus((w, address) => ReadRegOn(w, t, address), Access(t))
  }

  lemma BusOfDrives(t: Target)
    ensures Drives(BusOf(t), t)
  {
    forall w, address ensures BusOf(t).read(w, address) == ReadRegOn(w, t, address) {
    }
    forall w, a ensures BusOf(t).access(w, a) == AccessOn(w, t, a) {
      assert Access(t)(w, a) == AccessOn(w, t, a);
    }
  }

  /** A bus for a target sends the request frame of every command it carries out. */
  lemma DrivesSends(bus: Bus, t: Target)
    requires Drives(bus, t)
    ensures SendsFrames(bus.access, FrameOf(t.device))
  {
    AccessSendsFrames(t);
    forall w, a ensures bus.access(w, a) == Access(t)(w, a) {
      assert Issued(w, a);
    }
  }

  /** A read on the bus. */
  function ReadStep(bus: Bus, w: Wire, address: bv32): Step<bv32>
  {
    bus.read(w, address)
  }

  /** A command on the bus, its value dropped. */
  function AccessStep(bus: Bus, w: Wire, a: RegAccess): Step<()>
  {
    bus.access(w, a)
  }

  /** A run of register commands: its result, the wire after it, and the commands issued so far, in order. */
  datatype Run<T> = Run(result: Result<T>, wire: Wire, trace: seq<RegAccess>)

  /** ReadRegAsync as a run of one command after the commands `done`. */
  function ReadRun(w: Wire, bus: Bus, address: bv32, done: seq<RegAccess>): Run<bv32>
  {
    var s := ReadStep(bus, w, address);
    Run(s.result, s.wire, done + [RegRead(address)])
  }

  /** The value a read run returned, 0 when it failed (and is then not used). */
  function Value(r: Run<bv32>): bv32
  {
    if r.result.Ok? then r.result.value else 0
  }

  /** A run continued by `rest`, which counts only when the first succeeded (rest's trace continues first's). */
  function Then<S, T>(first: Run<S>, rest: Run<T>): Run<T>
  {
    if first.result.Err? then Run(Err(first.result.fault), first.wire, first.trace) else rest
  }

  /** A run's outcome with its value replaced by v. */
  function Giving<S, T>(run: Run<S>, v: T): (r: Run<T>)
    ensures r.result.Ok? <==> run.result.Ok?
  {
    Run(if run.result.Ok? then Ok(v) else Err(run.result.fault), run.wire, run.trace)
  }

  /**
   * Register commands issued one after the other, as the C# code awaits
   * them, after the commands `done`: the first failure ends the run, and
   * the failing command is the last one issued.
   */
  function AccessesOn(w: Wire, step: (Wire, RegAccess) -> Step<()>, cmds: seq<RegAccess>, done: seq<RegAccess>): (r: Run<()>)
    decreases |cmds|
  {
    if cmds == [] then Run(Ok(()), w, done)
    else
      var s := step(w, cmds[0]);
      var done' := done + [cmds[0]];
      if s.result.Err? then Run(Err(s.result.fault), s.wire, done')
      else AccessesOn(s.wire, step, cmds[1..], done')
  }

  /** Every command that step carries out successfully sends its frame. */
  ghost predicate SendsFrames(step: (Wire, RegAccess) -> Step<()>, frame: RegAccess -> seq<byte>)
  {
    forall w, a :: step(w, a).result.Ok? ==> step(w, a).wire.sent == w.sent + [frame(a)]
  }

  /** Register commands send their request frames. */
  lemma AccessSendsFrames(t: Target)
    ensures SendsFrames(Access(t), FrameOf(t.device))
  {
    forall w, a | Access(t)(w, a).result.Ok?
      ensures Access(t)(w, a).wire.sent == w.sent + [FrameOf(t.device)(a)]
    {
      assert Access(t)(w, a) == AccessOn(w, t, a);
    }
  }

  /** A run that succeeds issued every command. */
  lemma {:induction false} AccessesOkTrace(w: Wire, step: (Wire, RegAccess) -> Step<()>, cmds: seq<RegAccess>, done: seq<RegAccess>)
    requires AccessesOn(w, step, cmds, done).result.Ok?
    ensures AccessesOn(w, step, cmds, done).trace == done + cmds
    decreases |cmds|
  {
    if cmds != [] {
      AccessesOkTrace(step(w, cmds[0]).wire, step, cmds[1..], done + [cmds[0]]);
      assert (done + [cmds[0]]) + cmds[1..] == done + cmds;
    }
  }

  /** A run that succeeds sent the frames of its commands, in order. */
  lemma {:induction false} AccessesSend(w: Wire, step: (Wire, RegAccess) -> Step<()>, frame: RegAccess -> seq<byte>, cmds: seq<RegAccess>, done: seq<RegAccess>)
    requires SendsFrames(step, frame) && AccessesOn(w, step, cmds, done).result.Ok?
    ensures AccessesOn(w, step, cmds, done).wire.sent == w.sent + Frames(frame, cmds)
    decreases |cmds|
  {
    if cmds != [] {
      var s := step(w, cmds[0]);
      AccessesSend(s.wire, step, frame, cmds[1..], done + [cmds[0]]);
      assert (w.sent + [frame(cmds[0])]) + Frames(frame, cmds[1..]) == w.sent + Frames(frame, cmds);
    }
  }

  /** A run that fails issued a non-empty prefix of the commands, the failing one last. */
  lemma {:induction false} AccessesFailPrefix(w: Wire, step: (Wire, RegAccess) -> Step<()>, cmds: seq<RegAccess>, done: seq<RegAccess>)
    requires AccessesOn(w, step, cmds, done).result.Err?
    ensures var tr := AccessesOn(w, step, cmds, done).trace;
      |done| < |tr| <= |done| + |cmds| && tr == done + cmds[..|tr| - |done|]
    decreases |cmds|
  {
    var s := step(w, cmds[0]);
    if s.result.Ok? {
      AccessesFailPrefix(s.wire, step, cmds[1..], done + [cmds[0]]);
      var tr := AccessesOn(s.wire, step, cmds[1..], done + [cmds[0]]).trace;
      var k := |tr| - |done| - 1;
      assert cmds[..k + 1] == [cmds[0]] + cmds[1..][..k];
    } else {
      assert cmds[..1] == [cmds[0]];
    }
  }

  /** A run of commands split in two is the first part, then, if it succeeded, the second from where the first left the wire. */
  lemma {:induction false} AccessesAppend(w: Wire, step: (Wire, RegAccess) -> Step<()>, a: seq<RegAccess>, b: seq<RegAccess>, done: seq<RegAccess>)
    ensures var first := AccessesOn(w, step, a, done);
      AccessesOn(w, step, a + b, done) == Then(first, AccessesOn(first.wire, step, b, first.trace))
    decreases |a|
  {
    if a == [] {
      assert a + b == b;
    } else {
      assert (a + b)[0] == a[0] && (a + b)[1..] == a[1..] + b;
      var s := step(w, a[0]);
      if s.result.Ok? {
        AccessesAppend(s.wire, step, a[1..], b, done + [a[0]]);
      }
    }
  }

  /** The commands issued before a run do not change its result or the wire it leaves. */
  lemma {:induction false} AccessesAnyDone(w: Wire, step: (Wire, RegAccess) -> Step<()>, cmds: seq<RegAccess>, done: seq<RegAccess>, other: seq<RegAccess>)
    ensures AccessesOn(w, step, cmds, done).result == AccessesOn(w, step, cmds, other).result
    ensures AccessesOn(w, step, cmds, done).wire == AccessesOn(w, step, cmds, other).wire
    decreases |cmds|
  {
    if cmds != [] {
      AccessesAnyDone(step(w, cmds[0]).wire, step, cmds[1..], done + [cmds[0]], other + [cmds[0]]);
    }
  }

  /** A read of register `address` whose reply is the first frame on the queue returns the reply's value word. */
  lemma ReadRegAnswer(w: Wire, t: Target, address: bv32, d: seq<byte>, v: bv32, rest: seq<byte>)
    requires w.open || t.present
    requires 0 < |d| < 0x1_0000 && Plain(PacketBytes(ESP_READ_REG, d, v))
    requires w.queue == Frame(PacketBytes(ESP_READ_REG, d, v)) + rest
    ensures ReadRegOn(w, t, address) == Step(Ok(v), Wire(rest, w.sent + [RequestFrame(t.device, RegRead(address))], w.waited, true))
  {
    var q := ReadRegRequest(t.device, address);
    var sent := SendOn(w, t.present, q.op as int, q.data, q.chk);
    RepliesAnswer(sent.wire, ESP_READ_REG, d, v, rest, q.op as int, t.timeout, RETRIES);
  }

  /** A read whose reply carries no payload fails with "Unable to read value". */
  lemma ReadRegEmptyAnswer(w: Wire, t: Target, address: bv32, v: bv32, rest: seq<byte>)
    requires w.open || t.present
    requires Plain(PacketBytes(ESP_READ_REG, [], v))
    requires w.queue == Frame(PacketBytes(ESP_READ_REG, [], v)) + rest
    ensures ReadRegOn(w, t, address).result == Err(IOFault(UnableToReadValue))
  {
    var q := ReadRegRequest(t.device, address);
    var sent := SendOn(w, t.present, q.op as int, q.data, q.chk);
    RepliesAnswer(sent.wire, ESP_READ_REG, [], v, rest, q.op as int, t.timeout, RETRIES);
  }

  /**
   * A write whose reply is the first frame on the queue goes through the
   * status check: a zero status byte passes, any other fails the write
   * with the status code.
   */
  lemma WriteRegStatus(w: Wire, t: Target, address: bv32, value: bv32, mask: bv32, delayUSec: bv32, delayAfterUSec: bv32,
                       body: seq<byte>, status: seq<byte>, v: bv32, rest: seq<byte>)
    requires w.open || t.present
    requires t.device.Some? && |status| == StatusBytesLength(t.device.value.chip, t.isStub)
    requires |body + status| < 0x1_0000 && Plain(PacketBytes(ESP_WRITE_REG, body + status, v))
    requires w.queue == Frame(PacketBytes(ESP_WRITE_REG, body + status, v)) + rest
    ensures var s := WriteRegOn(w, t, address, value, mask, delayUSec, delayAfterUSec);
      s.wire.queue == rest &&
      (status[0] == 0 ==> s.result == Ok(Answer(v, body))) &&
      (status[0] != 0 ==> s.result == Err(IOFault(OperationFailed(status[0] as int + 0x100 * status[1] as int))))
  {
    var q := WriteRegRequest(t.device, address, value, mask, delayUSec, delayAfterUSec);
    var sent := SendOn(w, t.present, q.op as int, q.data, q.chk);
    RepliesAnswer(sent.wire, ESP_WRITE_REG, body + status, v, rest, q.op as int, t.timeout, RETRIES);
    CheckStatusSplits(v, body, status, t.device.value, t.isStub);
  }

  /** ReadRegAsync: CommandResultAsync of the READ_REG request. */
  method ReadReg(link: Link, address: bv32, timeout: int) returns (r: Result<bv32>)
    requires link.Valid()
    modifies link`port, link.hw, link`incoming, link`waited
    ensures link.Valid()
    ensures Step(r, WireOf(link)) == ReadRegOn(old(WireOf(link)), TargetOf(link, timeout), address)
  {
    var q := ReadRegRequest(link.device, address);
    r := CommandResult(link, q.op as int, q.data, q.chk, timeout);
  }

  /** WriteRegAsync: CheckCommandAsync of the WRITE_REG request. */
  method WriteReg(link: Link, address: bv32, value: bv32, mask: bv32, delayUSec: bv32, delayAfterUSec: bv32, timeout: int) returns (r: Result<Answer>)
    requires link.Valid()
    modifies link`port, link.hw, link`incoming, link`waited
    ensures link.Valid()
    ensures Step(r, WireOf(link)) == WriteRegOn(old(WireOf(link)), TargetOf(link, timeout), address, value, mask, delayUSec, delayAfterUSec)
  {
    var q := WriteRegRequest(link.device, address, value, mask, delayUSec, delayAfterUSec);
    r := CheckCommand(link, q.op as int, q.data, q.chk, timeout);
  }

  /** ReadRegAsync over a bus that stands for the link's target. */
  method BusRead(link: Link, ghost bus: Bus, address: bv32, timeout: int) returns (r: Result<bv32>)
    requires link.Valid() && Drives(bus, TargetOf(link, timeout))
    modifies link`port, link.hw, link`incoming, link`waited
    ensures link.Valid()
    ensures Step(r, WireOf(link)) == ReadStep(bus, old(WireOf(link)), address)
  {
    ghost var w := WireOf(link);
    r := ReadReg(link, address, timeout);
    assert Issued(w, RegRead(address));
  }

  /** WriteRegAsync of one word, all bits and no delays, over a bus that stands for the link's target. */
  method BusWrite(link: Link, ghost bus: Bus, address: bv32, value: bv32, timeout: int) returns (r: Result<()>)
    requires link.Valid() && Drives(bus, TargetOf(link, timeout))
    modifies link`port, link.hw, link`incoming, link`waited
    ensures link.Valid()
    ensures Step(r, WireOf(link)) == AccessStep(bus, old(WireOf(link)), WriteWord(address, value))
  {
    ghost var w := WireOf(link);
    ghost var t := TargetOf(link, timeout);
    var x := WriteReg(link, address, value, 0xFFFF_FFFF, 0, 0, timeout);
    r := Unit(x);
    assert Issued(w, WriteWord(address, value));
    assert AccessOn(w, t, WriteWord(address, value)) == Step(r, WireOf(link));
  }

  /**
   * What a method that runs commands of the run `goal` up to the wire w
   * promises: either they all went through and goal goes on with `rest`
   * after the commands `done`, or one of them failed with r and goal
   * ended there.
   */
  ghost predicate Continues(goal: Run<()>, step: (Wire, RegAccess) -> Step<()>, r: Result<()>, w: Wire, rest: seq<RegAccess>, done: seq<RegAccess>)
  {
    if r.Ok? then goal == AccessesOn(w, step, rest, done) else goal.result == r && goal.wire == w
  }

  /**
   * The next write of a sequence of awaited register commands, after the
   * commands `done`: the sequence goes on with `rest` if it succeeds and
   * ends with it if it fails.
   */
  method WriteNext(link: Link, ghost bus: Bus, ghost rest: seq<RegAccess>, ghost done: seq<RegAccess>, address: bv32, value: bv32, timeout: int)
    returns (r: Result<()>)
    requires link.Valid() && Drives(bus, TargetOf(link, timeout))
    modifies link`port, link.hw, link`incoming, link`waited
    ensures link.Valid()
    ensures var next := done + [WriteWord(address, value)];
      AccessesOn(old(WireOf(link)), bus.access, [WriteWord(address, value)] + rest, done) ==
      if r.Ok? then AccessesOn(WireOf(link), bus.access, rest, next) else Run(r, WireOf(link), next)
  {
    ghost var cmds := [WriteWord(address, value)] + rest;
    assert cmds[0] == WriteWord(address, value) && cmds[1..] == rest;
    r := BusWrite(link, bus, address, value, timeout);
  }
}
