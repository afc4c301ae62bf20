/*
 * The link's frame transport (EspLink.Frame.cs): WriteFrameAsync encodes
 * a frame and writes it to the port; ReadFrame polls the incoming queue
 * for the next frame and decodes it.
 *
 * The queue does not refill while ReadFrame runs, so once it is empty
 * the outcome is fixed: with a timeout above -1 the poll loop sleeps 10 ms
 * per empty poll until the elapsed time reaches the timeout and then
 * raises TimeoutException; with a timeout of -1 (or below) the C# loop
 * would sleep forever, which the model reports as Starved without
 * sleeping.
 */
module Transport {
  import opened Results
  import opened Bytes
  import opened Framing
  import opened Session
  import opened Packet

  /** One ReadFrame: its result, the bytes left unread, the milliseconds slept. */
  datatype Read = Read(result: Result<seq<byte>>, rest: seq<byte>, waited: nat)

  /** Time slept before a timeout fires: 10 ms per empty poll, at least one poll. */
  function TimeoutWait(timeout: int): (w: nat)
    requires timeout > -1
    ensures w >= 10 && w % 10 == 0 && timeout <= w && (w == 10 || w < timeout + 10)
  {
    if timeout <= 10 then 10 else 10 * ((timeout + 9) / 10)
  }

  /**
   * ReadFrame over the queued bytes q: the bytes before the first END are
   * skipped, the body runs to the next END, and the body is decoded.
   */
  function NextFrame(q: seq<byte>, timeout: int): (r: Read)
    ensures |r.rest| <= |q| && r.rest == q[|q| - |r.rest|..]
    ensures r.waited > 0 <==> r.result == Err(Timeout)
    ensures r.result == Err(Timeout) ==> timeout > -1 && timeout <= r.waited && (r.waited == 10 || r.waited < timeout + 10)
    ensures r.result == Err(Starved) ==> timeout <= -1
  {
    match Collect(q, false, [])
    case None =>
      if timeout <= -1 then Read(Err(Starved), [], 0) else Read(Err(Timeout), [], TimeoutWait(timeout))
    case Some((body, rest)) =>
      CollectShape(q, false, []);
      Read(DecodeBody(body), rest, 0)
  }

  /** A frame holding no END and no ESC comes back whole, whatever follows it. */
  lemma NextFrameOfFrame(payload: seq<byte>, rest: seq<byte>, timeout: int)
    requires forall k :: 0 <= k < |payload| ==> !Special(payload[k])
    ensures NextFrame(Frame(payload) + rest, timeout) == Read(Ok(payload), rest, 0)
  {
    FrameRoundTrip(payload, rest);
  }

  /** Bytes before the opening END are discarded, and both delimiters are left out of the body. */
  lemma NextFrameSkipsJunk(junk: seq<byte>, body: seq<byte>, rest: seq<byte>, timeout: int)
    requires END !in junk && END !in body
    ensures NextFrame(junk + [END] + body + [END] + rest, timeout) == Read(DecodeBody(body), rest, 0)
  {
    CollectFrame(junk, body, rest);
  }

  /** A queue with no complete frame times out (or starves, without a timeout) and is drained. */
  lemma NextFrameIncomplete(q: seq<byte>, timeout: int)
    requires Collect(q, false, []).None?
    ensures NextFrame(q, timeout).rest == []
    ensures NextFrame(q, timeout).result == if timeout > -1 then Err(Timeout) else Err(Starved)
  {
  }

  /**
   * ReadFrame(timeout): the poll loop, then the body's decoding.  `time`
   * counts the milliseconds slept by this call.
   */
  method ReadFrame(link: Link, timeout: int) returns (r: Result<seq<byte>>)
    modifies link`incoming, link`waited
    ensures var o := NextFrame(old(link.incoming), timeout);
      r == o.result && link.incoming == o.rest && link.waited == old(link.waited) + o.waited
  {
    ghost var q := link.incoming;
    var bytes: seq<byte> := [];
    var time := 0;
    ghost var polls := 0;
    var foundStart := false;
    while true
      invariant Collect(q, false, []) == Collect(link.incoming, foundStart, bytes)
      invariant time == 10 * polls && link.waited == old(link.waited) + time
      invariant polls > 0 ==> link.incoming == [] && timeout > -1 && time < timeout
      decreases |link.incoming|, if timeout <= -1 then 0 else timeout - time
    {
      var i := link.ReadByteNoBlock();
      if i < 0 {
        if timeout <= -1 {
          return Err(Starved);
        }
        time := time + 10;
        polls := polls + 1;
        link.waited := link.waited + 10;
        if time >= timeout {
          return Err(Timeout);
        }
        continue;
      }
      if !foundStart {
        if i == END as int {
          foundStart := true;
          continue;
        }
      } else {
        if i == END as int {
          break;
        }
        bytes := bytes + [i as byte];
      }
    }
    r := Decode(bytes);
  }

  /** The bytes WriteFrameAsync puts on the wire, in order. */
  function Sent(log: seq<PortEvent>): (frames: seq<seq<byte>>)
    ensures |frames| <= |log|
  {
    if log == [] then []
    else Sent(log[..|log| - 1]) + (if log[|log| - 1].Wrote? then [log[|log| - 1].bytes] else [])
  }

  lemma {:induction false} SentAppend(a: seq<PortEvent>, b: seq<PortEvent>)
    ensures Sent(a + b) == Sent(a) + Sent(b)
  {
    if b == [] {
      assert a + b == a;
    } else {
      assert (a + b)[..|a + b| - 1] == a + b[..|b| - 1];
      SentAppend(a, b[..|b| - 1]);
    }
  }

  /**
   * WriteFrameAsync(data, index, length): encodes, then writes and flushes
   * through GetOrOpenPort.  A port that will not open is null, and using
   * it is a NullReferenceException; nothing is written then.
   */
  method WriteFrame(link: Link, data: array<byte>, index: nat, length: nat) returns (r: Result<()>)
    requires link.Valid() && index + length <= data.Length
    modifies link`port, link.hw
    ensures link.Valid()
    ensures var enc := EncodeAsWritten(old(data[..]), index, length);
      if enc.Err? then r == Err(enc.fault) && link.port == old(link.port) && link.hw.log == old(link.hw.log)
      else
        link.port == link.hw &&
        (link.hw.isOpen <==> old(link.hw.isOpen) || link.hw.present) &&
        r == (if link.hw.isOpen then Ok(()) else Err(NullReference)) &&
        (r.Err? ==> link.hw.log == old(link.hw.log)) &&
        (r.Ok? ==> link.hw.log == old(link.hw.log) + (if old(link.hw.isOpen) then [] else [Opened]) + [Wrote(enc.value), Flushed])
  {
    var enc := EncodeFrame(data, index, length);
    if enc.Err? {
      return Err(enc.fault);
    }
    var port := link.GetOrOpenPort();
    if port == null {
      return Err(NullReference);
    }
    port.log := port.log + [Wrote(enc.value), Flushed];
    return Ok(());
  }

  /** GetOrOpenPort seen on the wire: only whether the port is open can change. */
  method OpenPort(link: Link) returns (p: SerialPort?)
    requires link.Valid()
    modifies link`port, link.hw
    ensures link.Valid() && link.port == link.hw
    ensures link.hw.isOpen <==> old(link.hw.isOpen) || link.hw.present
    ensures p == (if link.hw.isOpen then link.hw else null)
    ensures WireOf(link) == old(WireOf(link)).(open := link.hw.isOpen)
    ensures link.hw.log == old(link.hw.log) + (if !old(link.hw.isOpen) && link.hw.present then [Opened] else [])
    ensures link.hw.dtr == (old(link.port) != null && old(link.hw.dtr))
  {
    ghost var log0 := link.hw.log;
    SentSkipsQuiet(log0, [Opened]);
    p := link.GetOrOpenPort();
    assert Sent(link.hw.log) == Sent(log0) by {
      if link.hw.log != log0 + [Opened] {
        assert link.hw.log == log0;
      }
    }
  }

  /** Events other than writes put no frame on the wire. */
  lemma {:induction false} SentSkipsQuiet(before: seq<PortEvent>, events: seq<PortEvent>)
    requires forall k :: 0 <= k < |events| ==> !events[k].Wrote?
    ensures Sent(before + events) == Sent(before)
  {
    if events == [] {
      assert before + events == before;
    } else {
      var n := |events|;
      assert (before + events)[..|before + events| - 1] == before + events[..n - 1];
      SentSkipsQuiet(before, events[..n - 1]);
    }
  }

  lemma SentAfterWrite(before: seq<PortEvent>, opening: seq<PortEvent>, frame: seq<byte>)
    requires opening == [] || opening == [Opened]
    ensures Sent(before + opening + [Wrote(frame), Flushed]) == Sent(before) + [frame]
  {
    SentAppend(before + opening, [Wrote(frame), Flushed]);
    SentAppend(before, opening);
    assert Sent([Wrote(frame), Flushed]) == Sent([Wrote(frame)]) + [] by {
      assert [Wrote(frame), Flushed][..1] == [Wrote(frame)];
    }
    assert Sent([Wrote(frame)]) == [frame] by {
      assert [Wrote(frame)][..0] == [];
    }
    if opening == [Opened] {
      assert opening[..0] == [];
    }
  }

  // The wire as the command layers see it.

  /**
   * What the command layers see of the link's port: the bytes still
   * queued, the frames written so far, the time slept polling, and whether
   * the port is open.
   */
  datatype Wire = Wire(queue: seq<byte>, sent: seq<seq<byte>>, waited: nat, open: bool)

  ghost function WireOf(link: Link): Wire
    reads link, link.hw
  {
    Wire(link.incoming, Sent(link.hw.log), link.waited, link.hw.isOpen)
  }

  /** An outcome together with the wire after it. */
  datatype Step<T> = Step(result: Result<T>, wire: Wire)

  /** ReadFrame on the wire. */
  function ReadOn(w: Wire, timeout: int): (s: Step<seq<byte>>)
    ensures s.wire.sent == w.sent && s.wire.open == w.open && |s.wire.queue| <= |w.queue|
  {
    var o := NextFrame(w.queue, timeout);
    Step(o.result, w.(queue := o.rest, waited := w.waited + o.waited))
  }

  /** C#'s (byte) cast of an opcode. */
  function ByteOf(op: int): byte
  {
    (op % 0x100) as byte
  }

  /**
   * The sending half of CommandAsync and CommandResultAsync: op -1 sends
   * nothing; any other op is packed with (byte)op and written as one frame,
   * which fails with NullReferenceException when the port will not open.
   */
  function SendOn(w: Wire, present: bool, op: int, data: seq<byte>, chk: bv32): (s: Step<()>)
    ensures op == -1 ==> s == Step(Ok(()), w)
    ensures op != -1 && s.result.Ok? ==> s.wire.sent == w.sent + [Frame(PacketBytes(ByteOf(op), data, chk))] && s.wire.open
    ensures s.result.Err? ==> s.result.fault == NullReference && s.wire == w && !w.open && !present
    ensures s.wire.queue == w.queue && s.wire.waited == w.waited
  {
    if op == -1 then Step(Ok(()), w)
    else if !(w.open || present) then Step(Err(NullReference), w)
    else Step(Ok(()), w.(sent := w.sent + [Frame(PacketBytes(ByteOf(op), data, chk))], open := true))
  }

  /**
   * PackOpPacket into a fresh 8 + |data| byte buffer, then WriteFrameAsync
   * of the whole buffer.
   */
  method Send(link: Link, op: int, data: seq<byte>, chk: bv32) returns (r: Result<()>)
    requires link.Valid()
    modifies link`port, link.hw
    ensures link.Valid()
    ensures Step(r, WireOf(link)) == SendOn(old(WireOf(link)), link.hw.present, op, data, chk)
    ensures op == -1 ==> link.port == old(link.port) && link.hw.log == old(link.hw.log)
    ensures op != -1 ==> link.port == link.hw
    ensures old(link.hw.log) <= link.hw.log
  {
    if op == -1 {
      return Ok(());
    }
    var b := ByteOf(op);
    var ba := PackRequest(b, data, chk);
    ghost var frame := Frame(PacketBytes(b, data, chk));
    EncodeAtZero(ba[..], ba.Length);
    assert ba[..][..ba.Length] == ba[..];
    ghost var w := WireOf(link);
    ghost var log := link.hw.log;
    ghost var wasOpen := link.hw.isOpen;
    r := WriteFrame(link, ba, 0, ba.Length);
    if r.Ok? {
      SentAfterWrite(log, if wasOpen then [] else [Opened], frame);
      assert WireOf(link) == w.(sent := w.sent + [frame], open := true);
    }
  }

  /** A fresh buffer of exactly 8 + |data| bytes with the packet packed into it. */
  method PackRequest(op: byte, data: seq<byte>, chk: bv32) returns (ba: array<byte>)
    ensures fresh(ba) && ba[..] == PacketBytes(op, data, chk)
  {
    ba := new byte[8 + |data|];
    PackOpPacket(op, data, chk, ba, 0);
    assert ba[..] == PacketBytes(op, data, chk);
  }
}
