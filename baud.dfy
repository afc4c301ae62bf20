/*
 * Baud-rate change (EspLink.SerialPort.cs): SetBaudRateAsync records the
 * new rate on the link, and when a device is connected in its bootloader
 * tells the loader the new rate with CHANGE_BAUDRATE before switching the
 * port over; the BaudRate property's setter calls it only for a new value.
 */
module Baud {
  import opened Results
  import opened Bytes
  import opened Devices
  import opened Packet
  import opened Framing
  import opened Session
  import opened Transport
  import opened Commands

  /** CHANGE_BAUDRATE's 8-byte payload: the new rate, then the old one under the stub and 0 under ROM. */
  function BaudPayload(newBaud: int, oldBaud: int, isStub: bool): (p: seq<byte>)
    ensures |p| == 8
    ensures Word32(p[0..4]) == U32(newBaud) && Word32(p[4..8]) == (if isStub then U32(oldBaud) else 0)
  {
    var values := [U32(newBaud), if isStub then U32(oldBaud) else 0];
    WordsOfLEWords(values, 0);
    WordsOfLEWords(values, 1);
    LEWords(values)
  }

  /**
   * SetBaudRateAsync on the wire: no device or no bootloader sends
   * nothing; otherwise CHANGE_BAUDRATE goes through CommandAsync, whose
   * answer is not status-checked.
   */
  function BaudOn(w: Wire, present: bool, device: Option<Descriptor>, inBootloader: bool, isStub: bool, oldBaud: int, newBaud: int, timeout: int): (s: Step<()>)
  {
    if device.None? || !inBootloader then Step(Ok(()), w)
    else
      var c := CommandOn(w, present, ESP_CHANGE_BAUDRATE as int, BaudPayload(newBaud, oldBaud, isStub), 0, timeout);
      Step(if c.result.Err? then Err(c.result.fault) else Ok(()), c.wire)
  }

  /**
   * SetBaudRateAsync(newBaud, timeout).  After a successful exchange the
   * port is open, so it is switched to the new rate, left to settle for
   * 50 ms and its input discarded.
   */
  method SetBaudRate(link: Link, newBaud: int, timeout: int) returns (r: Result<()>)
    requires link.Valid()
    modifies link`baudRate, link`port, link.hw, link`incoming, link`waited
    ensures link.Valid() && link.baudRate == newBaud
    ensures Step(r, WireOf(link)) ==
      BaudOn(old(WireOf(link)), link.hw.present, link.device, link.inBootloader, link.isStub, old(link.baudRate), newBaud, timeout)
    ensures link.device.None? || !link.inBootloader ==> link.port == old(link.port) && unchanged(link.hw) && unchanged(link`incoming, link`waited)
    ensures link.device.Some? && link.inBootloader && r.Ok? ==>
      link.hw.isOpen && link.hw.baud == newBaud && |link.hw.log| >= 3 &&
      link.hw.log[|link.hw.log| - 3..] == [SetBaud(newBaud), Slept(50), DiscardedInput]
  {
    var oldBaud := link.baudRate;
    link.baudRate := newBaud;
    if link.device.None? || !link.inBootloader {
      return Ok(());
    }
    var ret := Command(link, ESP_CHANGE_BAUDRATE as int, BaudPayload(newBaud, oldBaud, link.isStub), 0, timeout);
    if ret.Err? {
      return Err(ret.fault);
    }
    CommandOnOpens(old(WireOf(link)), link.hw.present, ESP_CHANGE_BAUDRATE as int, BaudPayload(newBaud, oldBaud, link.isStub), 0, timeout);
    SwitchPort(link, newBaud);
    r := Ok(());
  }

  /** A command that succeeds has sent its request, so the port is open afterwards. */
  lemma CommandOnOpens(w: Wire, present: bool, op: int, data: seq<byte>, chk: bv32, timeout: int)
    requires op != -1
    ensures CommandOn(w, present, op, data, chk, timeout).result.Ok? ==> CommandOn(w, present, op, data, chk, timeout).wire.open
  {
  }

  /** The tail of SetBaudRateAsync: an open port is switched to the new rate, waited on for 50 ms and its input discarded. */
  method SwitchPort(link: Link, newBaud: int)
    requires link.Valid()
    modifies link.hw
    ensures link.Valid() && WireOf(link) == old(WireOf(link))
    ensures old(link.hw.isOpen) ==> link.hw.baud == newBaud && link.hw.log == old(link.hw.log) + [SetBaud(newBaud), Slept(50), DiscardedInput]
    ensures !old(link.hw.isOpen) ==> unchanged(link.hw)
  {
    if link.port != null && link.port.isOpen {
      SentSkipsQuiet(link.hw.log, [SetBaud(newBaud), Slept(50), DiscardedInput]);
      link.port.baud := newBaud;
      link.port.log := link.port.log + [SetBaud(newBaud), Slept(50), DiscardedInput];
    }
  }

  /** The BaudRate property's setter: a new value goes through SetBaudRateAsync with the default timeout, an equal one does nothing. */
  method BaudRate(link: Link, value: int) returns (r: Result<()>)
    requires link.Valid()
    modifies link`baudRate, link`port, link.hw, link`incoming, link`waited
    ensures link.Valid() && link.baudRate == value
    ensures value == old(link.baudRate) ==> r == Ok(()) && link.port == old(link.port) && unchanged(link.hw) && unchanged(link`incoming, link`waited)
    ensures value != old(link.baudRate) ==>
      Step(r, WireOf(link)) == BaudOn(old(WireOf(link)), link.hw.present, link.device, link.inBootloader, link.isStub, old(link.baudRate), value, link.defaultTimeout)
  {
    if value != link.baudRate {
      r := SetBaudRate(link, value, link.defaultTimeout);
    } else {
      r := Ok(());
    }
  }

  /** C#'s (byte) cast leaves the CHANGE_BAUDRATE opcode as it is. */
  lemma BaudOpcodeByte()
    ensures ByteOf(ESP_CHANGE_BAUDRATE as int) == ESP_CHANGE_BAUDRATE
  {
    var b := ByteFor(0x0F);
    assert (b as int) as byte == b;
  }

  /** A baud change on a ready link whose port opens sends exactly one CHANGE_BAUDRATE frame, with no checksum. */
  lemma BaudChangeSendsOneFrame(w: Wire, present: bool, device: Option<Descriptor>, isStub: bool, oldBaud: int, newBaud: int, timeout: int)
    requires device.Some? && (w.open || present)
    ensures BaudOn(w, present, device, true, isStub, oldBaud, newBaud, timeout).wire.sent ==
      w.sent + [Frame(PacketBytes(ESP_CHANGE_BAUDRATE, BaudPayload(newBaud, oldBaud, isStub), 0))]
  {
    BaudOpcodeByte();
    var p := BaudPayload(newBaud, oldBaud, isStub);
    var sent := SendOn(w, present, ESP_CHANGE_BAUDRATE as int, p, 0);
    assert CommandOn(w, present, ESP_CHANGE_BAUDRATE as int, p, 0, timeout).wire.sent == sent.wire.sent;
  }

  /** Without a device, or outside the bootloader, the change is local: nothing is sent or read. */
  lemma BaudChangeOfflineIsLocal(w: Wire, present: bool, device: Option<Descriptor>, inBootloader: bool, isStub: bool, oldBaud: int, newBaud: int, timeout: int)
    requires device.None? || !inBootloader
    ensures BaudOn(w, present, device, inBootloader, isStub, oldBaud, newBaud, timeout) == Step(Ok(()), w)
  {
  }
}
