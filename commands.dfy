/*
 * The command exchange of the serial bootloader protocol
 * (EspLink.Command.cs): a request packet goes out as one frame, then up to
 * 100 frames are read until a reply to the request turns up.
 *
 * Each method is proved against a function of the wire before the call
 * (Transport.Wire): the function says what the exchange returns and what
 * the wire looks like afterwards, and the lemmas below say what those
 * functions do with particular queues.
 */
module Commands {
  import opened Results
  import opened Bytes
  import opened Devices
  import opened Packet
  import opened Framing
  import opened Session
  import opened Transport

  /** What CommandAsync returns: the reply's value word and its payload. */
  datatype Answer = Answer(value: bv32, data: seq<byte>)

  /** The frame the stub sends once it is running: the four letters "OHAI". */
  predicate IsOhai(f: seq<byte>)
  {
    |f| == 4 && f[0] == 0x4F && f[1] == 0x48 && f[2] == 0x41 && f[3] == 0x49
  }

  /** How many frames a command reads before giving up. */
  const RETRIES: nat := 100

  /** A reply answers op when no op was sent (-1) or when its opcode is op. */
  predicate Matches(op: int, replyOp: byte)
  {
    op == -1 || op == replyOp as int
  }

  /** A reply to some other request whose status says the ROM did not understand the message. */
  predicate InvalidReply(d: seq<byte>)
  {
    (|d| == 1 && d[0] == ROM_INVALID_RECV_MSG) || (|d| >= 2 && d[0] != 0 && d[1] == ROM_INVALID_RECV_MSG)
  }

  /** The faults a reply loop can end with. */
  predicate ReplyFault(f: Fault)
  {
    f == IOFault(RetryExceeded) || f == ArgumentFault || f == InvalidOperation(InvalidMessage) ||
    f == Timeout || f == Starved || f == IOFault(InvalidEscape)
  }

  /**
   * What CommandAsync makes of one frame: OHAI frames and unmatched
   * replies are read past (None), unless the unmatched reply reports an
   * invalid message; the first matching reply is the answer.
   */
  function Judge(frame: seq<byte>, op: int): (v: Option<Result<Answer>>)
    ensures v.Some? && v.value.Err? ==> v.value.fault == ArgumentFault || v.value.fault == InvalidOperation(InvalidMessage)
    ensures v.None? <==> IsOhai(frame) || (Unpack(frame, 0).Ok? && !Matches(op, Unpack(frame, 0).value.op) && !InvalidReply(Unpack(frame, 0).value.data))
  {
    if IsOhai(frame) then None
    else match Unpack(frame, 0)
      case Err(f) => Some(Err(f))
      case Ok(p) =>
        if Matches(op, p.op) then Some(Ok(Answer(p.chk, p.data)))
        else if InvalidReply(p.data) then Some(Err(InvalidOperation(InvalidMessage)))
        else None
  }

  /** The read loop of CommandAsync with `tries` reads left. */
  function Replies(w: Wire, op: int, timeout: int, tries: nat): (s: Step<Answer>)
    ensures s.wire.sent == w.sent && s.wire.open == w.open && |s.wire.queue| <= |w.queue|
    ensures s.wire.waited >= w.waited
    ensures s.result.Err? ==> ReplyFault(s.result.fault)
    ensures tries == 0 ==> s == Step(Err(IOFault(RetryExceeded)), w)
    decreases tries
  {
    if tries == 0 then Step(Err(IOFault(RetryExceeded)), w)
    else
      var rd := ReadOn(w, timeout);
      if rd.result.Err? then Step(Err(rd.result.fault), rd.wire)
      else match Judge(rd.result.value, op)
        case Some(r) => Step(r, rd.wire)
        case None => Replies(rd.wire, op, timeout, tries - 1)
  }

  /** CommandAsync on the wire: the request (unless op is -1), then the reply loop. */
  function CommandOn(w: Wire, present: bool, op: int, data: seq<byte>, chk: bv32, timeout: int): (s: Step<Answer>)
    ensures s.result.Err? ==> ReplyFault(s.result.fault) || s.result.fault == NullReference
    ensures |s.wire.queue| <= |w.queue| && s.wire.waited >= w.waited
  {
    var sent := SendOn(w, present, op, data, chk);
    if sent.result.Err? then Step(Err(sent.result.fault), sent.wire)
    else Replies(sent.wire, op, timeout, RETRIES)
  }

  /** CommandAsync(op, data, chk, timeout). */
  method Command(link: Link, op: int, data: seq<byte>, chk: bv32, timeout: int) returns (r: Result<Answer>)
    requires link.Valid()
    modifies link`port, link.hw, link`incoming, link`waited
    ensures link.Valid()
    ensures Step(r, WireOf(link)) == CommandOn(old(WireOf(link)), link.hw.present, op, data, chk, timeout)
    ensures op == -1 ==> link.port == old(link.port) && link.hw.log == old(link.hw.log)
    ensures op != -1 ==> link.port == link.hw
    ensures old(link.hw.log) <= link.hw.log
  {
    var sent := Send(link, op, data, chk);
    if sent.Err? {
      return Err(sent.fault);
    }
    RepliesIs(op, timeout);
    ghost var w := WireOf(link);
    r := CommandLoop(link, (w: Wire, n: nat) => Replies(w, op, timeout, n), op, timeout, RETRIES);
    assert AtTry(w, RETRIES);
  }

  /** A trigger: the reply loop is looked at on wire w with n reads left. */
  ghost predicate AtTry(w: Wire, n: nat)
  {
    true
  }

  /** `replies` is the reply loop, seen only where AtTry names the point. */
  ghost predicate IsReplies(replies: (Wire, nat) -> Step<Answer>, op: int, timeout: int)
  {
    forall w, n {:trigger AtTry(w, n)} :: replies(w, n) == Replies(w, op, timeout, n)
  }

  lemma RepliesIs(op: int, timeout: int)
    ensures IsReplies((w: Wire, n: nat) => Replies(w, op, timeout, n), op, timeout)
  {
    forall w, n {:trigger AtTry(w, n)} ensures ((w: Wire, n: nat) => Replies(w, op, timeout, n))(w, n) == Replies(w, op, timeout, n) {
    }
  }

  /** The read loop of CommandAsync. */
  method CommandLoop(link: Link, ghost replies: (Wire, nat) -> Step<Answer>, op: int, timeout: int, tries: nat) returns (r: Result<Answer>)
    requires IsReplies(replies, op, timeout)
    modifies link`incoming, link`waited
    ensures Step(r, WireOf(link)) == replies(old(WireOf(link)), tries)
  {
    ghost var w := WireOf(link);
    ghost var left := tries;
    var i := 0;
    while i < tries
      invariant 0 <= i <= tries && left == tries - i
      invariant replies(w, tries) == replies(WireOf(link), left)
    {
      var done;
      done, r := ReplyRound(link, replies, op, timeout, left);
      if done {
        return r;
      }
      i, left := i + 1, left - 1;
    }
    assert AtTry(WireOf(link), 0);
    return Err(IOFault(RetryExceeded));
  }

  /** One round of the read loop: a frame is read and judged; done when it settles the reply. */
  method ReplyRound(link: Link, ghost replies: (Wire, nat) -> Step<Answer>, op: int, timeout: int, ghost left: nat)
      returns (done: bool, r: Result<Answer>)
    requires left > 0 && IsReplies(replies, op, timeout)
    modifies link`incoming, link`waited
    ensures done ==> Step(r, WireOf(link)) == replies(old(WireOf(link)), left)
    ensures !done ==> replies(old(WireOf(link)), left) == replies(WireOf(link), left - 1)
  {
    ghost var cur := WireOf(link);
    assert AtTry(cur, left);
    var frame := ReadFrame(link, timeout);
    assert AtTry(WireOf(link), left - 1);
    RepliesStep(cur, frame, WireOf(link), op, timeout, left);
    if frame.Err? {
      return true, Err(frame.fault);
    }
    var verdict := Judge(frame.value, op);
    if verdict.Some? {
      return true, verdict.value;
    }
    return false, Err(IOFault(RetryExceeded));
  }

  /** One round of the read loop, given the frame read and the wire after it. */
  lemma RepliesStep(before: Wire, frame: Result<seq<byte>>, after: Wire, op: int, timeout: int, tries: nat)
    requires tries > 0 && ReadOn(before, timeout) == Step(frame, after)
    ensures frame.Err? ==> Replies(before, op, timeout, tries) == Step(Err(frame.fault), after)
    ensures frame.Ok? && Judge(frame.value, op).Some? ==> Replies(before, op, timeout, tries) == Step(Judge(frame.value, op).value, after)
    ensures frame.Ok? && Judge(frame.value, op).None? ==> Replies(before, op, timeout, tries) == Replies(after, op, timeout, tries - 1)
  {
  }

  /**
   * What CommandResultAsync makes of one frame: frames shorter than a
   * packet header are read past, and a matching reply must carry a
   * payload; otherwise as Judge.
   */
  function JudgeValue(frame: seq<byte>, op: int): (v: Option<Result<bv32>>)
    ensures v.Some? && v.value.Err? ==> v.value.fault == ArgumentFault || v.value.fault == InvalidOperation(InvalidMessage) || v.value.fault == IOFault(UnableToReadValue)
    ensures v.None? <==> |frame| < 8 || (Unpack(frame, 0).Ok? && !Matches(op, Unpack(frame, 0).value.op) && !InvalidReply(Unpack(frame, 0).value.data))
  {
    if |frame| < 8 then None
    else match Unpack(frame, 0)
      case Err(f) => Some(Err(f))
      case Ok(p) =>
        if Matches(op, p.op) then
          if p.data == [] then Some(Err(IOFault(UnableToReadValue))) else Some(Ok(p.chk))
        else if InvalidReply(p.data) then Some(Err(InvalidOperation(InvalidMessage)))
        else None
  }

  /** The read loop of CommandResultAsync with `tries` reads left. */
  function ValueReplies(w: Wire, op: int, timeout: int, tries: nat): (s: Step<bv32>)
    ensures s.wire.sent == w.sent && s.wire.open == w.open && |s.wire.queue| <= |w.queue|
    ensures s.wire.waited >= w.waited
    ensures s.result.Err? ==> ReplyFault(s.result.fault) || s.result.fault == IOFault(UnableToReadValue)
    ensures tries == 0 ==> s == Step(Err(IOFault(RetryExceeded)), w)
    decreases tries
  {
    if tries == 0 then Step(Err(IOFault(RetryExceeded)), w)
    else
      var rd := ReadOn(w, timeout);
      if rd.result.Err? then Step(Err(rd.result.fault), rd.wire)
      else match JudgeValue(rd.result.value, op)
        case Some(r) => Step(r, rd.wire)
        case None => ValueReplies(rd.wire, op, timeout, tries - 1)
  }

  /** One round of the read loop of CommandResultAsync. */
  lemma ValueRepliesStep(before: Wire, frame: Result<seq<byte>>, after: Wire, op: int, timeout: int, tries: nat)
    requires tries > 0 && ReadOn(before, timeout) == Step(frame, after)
    ensures frame.Err? ==> ValueReplies(before, op, timeout, tries) == Step(Err(frame.fault), after)
    ensures frame.Ok? && JudgeValue(frame.value, op).Some? ==> ValueReplies(before, op, timeout, tries) == Step(JudgeValue(frame.value, op).value, after)
    ensures frame.Ok? && JudgeValue(frame.value, op).None? ==> ValueReplies(before, op, timeout, tries) == ValueReplies(after, op, timeout, tries - 1)
  {
  }

  /** CommandResultAsync on the wire. */
  function ValueCommandOn(w: Wire, present: bool, op: int, data: seq<byte>, chk: bv32, timeout: int): (s: Step<bv32>)
    ensures s.result.Err? ==> ReplyFault(s.result.fault) || s.result.fault == IOFault(UnableToReadValue) || s.result.fault == NullReference
    ensures |s.wire.queue| <= |w.queue| && s.wire.waited >= w.waited
  {
    var sent := SendOn(w, present, op, data, chk);
    if sent.result.Err? then Step(Err(sent.result.fault), sent.wire)
    else ValueReplies(sent.wire, op, timeout, RETRIES)
  }

  /** CommandResultAsync(op, data, chk, timeout): the value word of the reply. */
  method CommandResult(link: Link, op: int, data: seq<byte>, chk: bv32, timeout: int) returns (r: Result<bv32>)
    requires link.Valid()
    modifies link`port, link.hw, link`incoming, link`waited
    ensures link.Valid()
    ensures Step(r, WireOf(link)) == ValueCommandOn(old(WireOf(link)), link.hw.present, op, data, chk, timeout)
    ensures op == -1 ==> link.port == old(link.port) && link.hw.log == old(link.hw.log)
    ensures op != -1 ==> link.port == link.hw
    ensures old(link.hw.log) <= link.hw.log
  {
    var sent := Send(link, op, data, chk);
    if sent.Err? {
      return Err(sent.fault);
    }
    r := CommandResultLoop(link, op, timeout, RETRIES);
  }

  /** The read loop of CommandResultAsync. */
  method CommandResultLoop(link: Link, op: int, timeout: int, tries: nat) returns (r: Result<bv32>)
    modifies link`incoming, link`waited
    ensures Step(r, WireOf(link)) == ValueReplies(old(WireOf(link)), op, timeout, tries)
  {
    ghost var w := WireOf(link);
    ghost var cur, left := w, tries;
    var i := 0;
    while i < tries
      invariant 0 <= i <= tries && left == tries - i && cur == WireOf(link)
      invariant ValueReplies(w, op, timeout, tries) == ValueReplies(cur, op, timeout, left)
    {
      var frame := ReadFrame(link, timeout);
      ValueRepliesStep(cur, frame, WireOf(link), op, timeout, left);
      cur := WireOf(link);
      if frame.Err? {
        return Err(frame.fault);
      }
      var verdict := JudgeValue(frame.value, op);
      if verdict.Some? {
        return verdict.value;
      }
      i, left := i + 1, left - 1;
    }
    return Err(IOFault(RetryExceeded));
  }

  /**
   * The status check of CheckCommandAsync: the last STATUS_BYTES_LENGTH
   * bytes of the payload are the status, a non-zero first status byte is
   * a failure carrying the first two status bytes as a little-endian
   * code, and the payload before the status is returned.  A link with no
   * device fails on reading STATUS_BYTES_LENGTH.
   */
  function CheckStatus(a: Answer, device: Option<Descriptor>, isStub: bool): (r: Result<Answer>)
    ensures r.Err? ==> r.fault == NullReference || r.fault == IOFault(IncompleteStatus) || (r.fault.IOFault? && r.fault.io.OperationFailed?)
    ensures r.Ok? <==> device.Some? && |a.data| >= StatusBytesLength(device.value.chip, isStub) && a.data[|a.data| - StatusBytesLength(device.value.chip, isStub)] == 0
    ensures r.Ok? ==> r.value.value == a.value && |r.value.data| + StatusBytesLength(device.value.chip, isStub) == |a.data| && a.data[..|r.value.data|] == r.value.data
  {
    if device.None? then Err(NullReference)
    else
      var n := StatusBytesLength(device.value.chip, isStub);
      if |a.data| < n then Err(IOFault(IncompleteStatus))
      else
        var status := a.data[|a.data| - n..];
        if status[0] != 0 then Err(IOFault(OperationFailed(status[0] as int + 0x100 * status[1] as int)))
        else Ok(Answer(a.value, a.data[..|a.data| - n]))
  }

  /** CheckCommandAsync on the wire: the exchange, then the status check of its answer. */
  function CheckOn(w: Wire, present: bool, device: Option<Descriptor>, isStub: bool, op: int, data: seq<byte>, chk: bv32, timeout: int): (s: Step<Answer>)
  {
    var c := CommandOn(w, present, op, data, chk, timeout);
    Step(if c.result.Err? then Err(c.result.fault) else CheckStatus(c.result.value, device, isStub), c.wire)
  }

  /** A status-checked command sends exactly its one request frame when the port opens. */
  lemma CheckOnSends(w: Wire, present: bool, device: Option<Descriptor>, isStub: bool, op: int, data: seq<byte>, chk: bv32, timeout: int)
    requires op != -1 && (w.open || present)
    ensures CheckOn(w, present, device, isStub, op, data, chk, timeout).wire.sent == w.sent + [Frame(PacketBytes(ByteOf(op), data, chk))]
  {
    var sent := SendOn(w, present, op, data, chk);
    assert CommandOn(w, present, op, data, chk, timeout).wire.sent == sent.wire.sent;
  }

  /** A status-checked command that succeeded sent exactly its request, on a port now open. */
  lemma CheckOnOkSends(w: Wire, present: bool, device: Option<Descriptor>, isStub: bool, op: int, data: seq<byte>, chk: bv32, timeout: int)
    requires op != -1 && CheckOn(w, present, device, isStub, op, data, chk, timeout).result.Ok?
    ensures var s := CheckOn(w, present, device, isStub, op, data, chk, timeout);
      s.wire.sent == w.sent + [Frame(PacketBytes(ByteOf(op), data, chk))] && s.wire.open
  {
    var sent := SendOn(w, present, op, data, chk);
    assert sent.result.Ok?;
  }

  /** CheckCommandAsync: the command, then the status check. */
  method CheckCommand(link: Link, op: int, data: seq<byte>, chk: bv32, timeout: int) returns (r: Result<Answer>)
    requires link.Valid()
    modifies link`port, link.hw, link`incoming, link`waited
    ensures link.Valid()
    ensures Step(r, WireOf(link)) == CheckOn(old(WireOf(link)), link.hw.present, link.device, link.isStub, op, data, chk, timeout)
    ensures op == -1 ==> link.port == old(link.port) && link.hw.log == old(link.hw.log)
  {
    var ret := Command(link, op, data, chk, timeout);
    if ret.Err? {
      return Err(ret.fault);
    }
    r := CheckStatus(ret.value, link.device, link.isStub);
  }

  /** An outcome with its value dropped. */
  function Unit<T>(r: Result<T>): (u: Result<()>)
    ensures u.Ok? <==> r.Ok?
    ensures r.Err? ==> u.fault == r.fault
  {
    if r.Err? then Err(r.fault) else Ok(())
  }

  // What the reply loops make of particular queues.

  /** The OHAI frame's payload. */
  const OHAI: seq<byte> := [0x4F, 0x48, 0x41, 0x49]

  /** The OHAI frame as it arrives: no byte of OHAI needs escaping. */
  const OHAI_FRAME: seq<byte> := [END, 0x4F, 0x48, 0x41, 0x49, END]

  /** The byte-wise check is equality with OHAI. */
  lemma OhaiIs(f: seq<byte>)
    ensures IsOhai(f) <==> f == OHAI
  {
    if IsOhai(f) {
      assert f == [f[0], f[1], f[2], f[3]];
    }
  }

  lemma OhaiFrame()
    ensures Frame(OHAI) == OHAI_FRAME && IsOhai(OHAI) && Plain(OHAI)
  {
    var o := OHAI;
    assert o[0] == 0x4F && o[1] == 0x48 && o[2] == 0x41 && o[3] == 0x49;
    forall k | 0 <= k < |o|
      ensures !Special(o[k])
    {
    }
    EscapePlain(o);
  }

  /** Bytes that the SLIP encoding leaves alone. */
  predicate Plain(s: seq<byte>)
  {
    forall k :: 0 <= k < |s| ==> !Special(s[k])
  }

  /** An OHAI frame at the head of the queue is read whole and judged to be read past. */
  lemma ReadOhai(w: Wire, tail: seq<byte>, op: int, timeout: int)
    requires w.queue == OHAI_FRAME + tail
    ensures ReadOn(w, timeout) == Step(Ok(OHAI), w.(queue := tail))
    ensures Judge(OHAI, op) == None && JudgeValue(OHAI, op) == None
  {
    OhaiFrame();
    NextFrameOfFrame(OHAI, tail, timeout);
  }

  /** An OHAI frame at the head of the queue uses up one try of CommandAsync and is otherwise ignored. */
  lemma RepliesPastOhai(w: Wire, tail: seq<byte>, op: int, timeout: int, tries: nat)
    requires tries > 0 && w.queue == OHAI_FRAME + tail
    ensures Replies(w, op, timeout, tries) == Replies(Wire(tail, w.sent, w.waited, w.open), op, timeout, tries - 1)
  {
    ReadOhai(w, tail, op, timeout);
  }

  /** The same for CommandResultAsync, where the OHAI frame is read past as a frame shorter than a header. */
  lemma ValueRepliesPastOhai(w: Wire, tail: seq<byte>, op: int, timeout: int, tries: nat)
    requires tries > 0 && w.queue == OHAI_FRAME + tail
    ensures ValueReplies(w, op, timeout, tries) == ValueReplies(Wire(tail, w.sent, w.waited, w.open), op, timeout, tries - 1)
  {
    ReadOhai(w, tail, op, timeout);
  }

  /** A plain packet at the head of the queue is read whole and unpacked. */
  lemma ReadPacket(w: Wire, rop: byte, d: seq<byte>, c: bv32, rest: seq<byte>, timeout: int)
    requires |d| < 0x1_0000 && Plain(PacketBytes(rop, d, c))
    requires w.queue == Frame(PacketBytes(rop, d, c)) + rest
    ensures ReadOn(w, timeout) == Step(Ok(PacketBytes(rop, d, c)), w.(queue := rest))
    ensures Unpack(PacketBytes(rop, d, c), 0) == Ok(Reply(rop, |d|, c, d))
    ensures !IsOhai(PacketBytes(rop, d, c)) && |PacketBytes(rop, d, c)| >= 8
  {
    NextFrameOfFrame(PacketBytes(rop, d, c), rest, timeout);
    UnpackOfPack(rop, d, c);
  }

  /** A plain reply packet at the head of the queue that answers op is the answer. */
  lemma RepliesAnswer(w: Wire, rop: byte, d: seq<byte>, c: bv32, rest: seq<byte>, op: int, timeout: int, tries: nat)
    requires tries > 0 && |d| < 0x1_0000 && Plain(PacketBytes(rop, d, c)) && Matches(op, rop)
    requires w.queue == Frame(PacketBytes(rop, d, c)) + rest
    ensures Replies(w, op, timeout, tries) == Step(Ok(Answer(c, d)), w.(queue := rest))
    ensures ValueReplies(w, op, timeout, tries) == Step(if d == [] then Err(IOFault(UnableToReadValue)) else Ok(c), w.(queue := rest))
  {
    ReadPacket(w, rop, d, c, rest, timeout);
  }

  /**
   * A plain reply to another request is read past, unless its payload
   * reports an invalid message, which ends the loop.
   */
  lemma RepliesOther(w: Wire, rop: byte, d: seq<byte>, c: bv32, rest: seq<byte>, op: int, timeout: int, tries: nat)
    requires tries > 0 && |d| < 0x1_0000 && Plain(PacketBytes(rop, d, c)) && !Matches(op, rop)
    requires w.queue == Frame(PacketBytes(rop, d, c)) + rest
    ensures InvalidReply(d) ==> Replies(w, op, timeout, tries) == Step(Err(InvalidOperation(InvalidMessage)), w.(queue := rest))
    ensures !InvalidReply(d) ==> Replies(w, op, timeout, tries) == Replies(w.(queue := rest), op, timeout, tries - 1)
  {
    ReadPacket(w, rop, d, c, rest, timeout);
  }

  /** The same for CommandResultAsync. */
  lemma ValueRepliesOther(w: Wire, rop: byte, d: seq<byte>, c: bv32, rest: seq<byte>, op: int, timeout: int, tries: nat)
    requires tries > 0 && |d| < 0x1_0000 && Plain(PacketBytes(rop, d, c)) && !Matches(op, rop)
    requires w.queue == Frame(PacketBytes(rop, d, c)) + rest
    ensures InvalidReply(d) ==> ValueReplies(w, op, timeout, tries) == Step(Err(InvalidOperation(InvalidMessage)), w.(queue := rest))
    ensures !InvalidReply(d) ==> ValueReplies(w, op, timeout, tries) == ValueReplies(w.(queue := rest), op, timeout, tries - 1)
  {
    ReadPacket(w, rop, d, c, rest, timeout);
  }

  /** An empty queue ends the loop at once: a timeout, or starvation when there is none. */
  lemma RepliesEmpty(w: Wire, op: int, timeout: int, tries: nat)
    requires tries > 0 && w.queue == []
    ensures Replies(w, op, timeout, tries).result == (if timeout > -1 then Err(Timeout) else Err(Starved))
    ensures ValueReplies(w, op, timeout, tries).result == (if timeout > -1 then Err(Timeout) else Err(Starved))
  {
    NextFrameIncomplete(w.queue, timeout);
  }

  /**
   * The status check splits the payload into what precedes the status and
   * the status: a zero first status byte passes the leading bytes on, any
   * other is a failure carrying the status code.
   */
  lemma CheckStatusSplits(v: bv32, body: seq<byte>, status: seq<byte>, d: Descriptor, isStub: bool)
    requires |status| == StatusBytesLength(d.chip, isStub)
    ensures status[0] == 0 ==> CheckStatus(Answer(v, body + status), Some(d), isStub) == Ok(Answer(v, body))
    ensures status[0] != 0 ==> CheckStatus(Answer(v, body + status), Some(d), isStub) == Err(IOFault(OperationFailed(status[0] as int + 0x100 * status[1] as int)))
  {
    var a := body + status;
    assert a[|a| - |status|..] == status;
    assert a[..|a| - |status|] == body;
  }
}
