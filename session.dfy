/*
 * The link object (EspLink.cs, EspLink.SerialPort.cs, EspLink.Lifetime.cs)
 * and the serial port it drives.
 *
 * The physical port is a SerialPort object given to the link when it is
 * built; the link's `port` field is null until GetOrOpenPort first uses
 * it, exactly as the C# field is null until a SerialPort is created.
 * Everything the link does to the port (opening, closing, writing frames,
 * setting lines, sleeping between line changes) is appended to the port's
 * event log, so that line sequences and written frames can be read off
 * afterwards.  Bytes arriving from the chip are the `incoming` queue, fixed
 * at the start of an operation: no bytes arrive while an operation runs.
 *
 * Register values come from the chip's replies on the wire.
 */
module Session {
  import opened Results
  import opened Bytes
  import opened Devices
  import opened Packet

  /** System.IO.Ports.Handshake. */
  datatype Handshake = NoHandshake | XOnXOff | RequestToSend | RequestToSendXOnXOff

  /** What the link did to the port, in order. */
  datatype PortEvent =
    | Opened
    | Closed
    | Wrote(bytes: seq<byte>)
    | Flushed
    | DiscardedInput
    | SetDtr(on: bool)
    | SetRts(on: bool)
    | Slept(ms: nat)
    | SetBaud(baud: int)
    | SetHandshake(h: Handshake)

  /** The serial port the link talks through; `present` says whether Open succeeds. */
  class SerialPort {
    const present: bool
    var isOpen: bool
    var dtr: bool
    var rts: bool
    var baud: int
    var handshake: Handshake
    var log: seq<PortEvent>

    constructor (present: bool)
      ensures this.present == present
      ensures !isOpen && !dtr && !rts && baud == ESP_ROM_BAUD && handshake == NoHandshake && log == []
    {
      this.present := present;
      isOpen := false;
      dtr := false;
      rts := false;
      baud := ESP_ROM_BAUD;
      handshake := NoHandshake;
      log := [];
    }
  }

  /**
   * A register command the link issued: READ_REG of an address, or
   * WRITE_REG of a value under a mask with delays before and after.
   */
  datatype RegAccess =
    | RegRead(address: bv32)
    | RegWrite(address: bv32, value: bv32, mask: bv32, delayUSec: bv32, delayAfterUSec: bv32)

  /** The default timeout of a new link, in milliseconds. */
  const DEFAULT_TIMEOUT: int := 5000

  class Link {
    const portName: string
    const hw: SerialPort
    var port: SerialPort?
    var device: Option<Descriptor>
    var inBootloader: bool
    var isStub: bool
    var spiAttached: bool
    var baudRate: int
    var defaultTimeout: int
    var handshake: Handshake
    var incoming: seq<byte>
    var waited: nat

    /** The port field is either unset or the physical port, and an unset port is closed. */
    ghost predicate Valid()
      reads this, hw
    {
      (port == null || port == hw) && (port == null ==> !hw.isOpen)
    }

    /** EspLink(portName): stores the name and opens nothing. */
    constructor (portName: string, hw: SerialPort, incoming: seq<byte>)
      requires !hw.isOpen
      ensures this.portName == portName && this.hw == hw
      ensures port == null && device == None && !inBootloader && !isStub && !spiAttached
      ensures baudRate == ESP_ROM_BAUD && defaultTimeout == DEFAULT_TIMEOUT && handshake == NoHandshake
      ensures this.incoming == incoming && waited == 0
      ensures Valid()
    {
      this.portName := portName;
      this.hw := hw;
      port := null;
      device := None;
      inBootloader := false;
      isStub := false;
      spiAttached := false;
      baudRate := ESP_ROM_BAUD;
      defaultTimeout := DEFAULT_TIMEOUT;
      handshake := NoHandshake;
      this.incoming := incoming;
      waited := 0;
    }

    /**
     * GetOrOpenPort: creates the port object on first use (115200 baud,
     * no handshake, both lines low), then opens it if it is closed.  A
     * failed open returns null but keeps the port object.
     */
    method GetOrOpenPort() returns (p: SerialPort?)
      requires Valid()
      modifies this`port, hw
      ensures Valid() && port == hw
      ensures old(port) == null ==> hw.baud == ESP_ROM_BAUD && hw.handshake == NoHandshake && !hw.dtr && !hw.rts
      ensures old(port) != null ==> hw.baud == old(hw.baud) && hw.handshake == old(hw.handshake) && hw.dtr == old(hw.dtr) && hw.rts == old(hw.rts)
      ensures hw.isOpen <==> old(hw.isOpen) || hw.present
      ensures p == (if hw.isOpen then hw else null)
      ensures hw.log == old(hw.log) + (if !old(hw.isOpen) && hw.present then [Opened] else [])
    {
      if port == null {
        port := hw;
        hw.baud := ESP_ROM_BAUD;
        hw.handshake := NoHandshake;
        hw.dtr := false;
        hw.rts := false;
      }
      if !hw.isOpen {
        if !hw.present {
          return null;
        }
        hw.isOpen := true;
        hw.log := hw.log + [Opened];
      }
      return hw;
    }

    /** ReadByteNoBlock: the oldest queued byte, removed from the queue, or -1 when it is empty. */
    method ReadByteNoBlock() returns (i: int)
      modifies this`incoming
      ensures old(incoming) == [] ==> i == -1 && incoming == []
      ensures old(incoming) != [] ==> i == old(incoming[0]) as int && incoming == old(incoming[1..])
      ensures -1 <= i < 0x100
    {
      if incoming == [] {
        return -1;
      }
      i := incoming[0] as int;
      incoming := incoming[1..];
    }

    /** Cleanup: forgets the device and the SPI attachment; IsStub, bootloader state and baud stay. */
    method Cleanup()
      modifies this`device, this`spiAttached
      ensures device == None && !spiAttached
    {
      device := None;
      spiAttached := false;
    }

    /** Close: closes an open port, drops the port object, then cleans up. */
    method Close()
      requires Valid()
      modifies this`port, this`device, this`spiAttached, hw`isOpen, hw`log
      ensures Valid() && port == null && !hw.isOpen
      ensures hw.log == old(hw.log) + (if old(port) != null && old(hw.isOpen) then [Closed] else [])
      ensures device == None && !spiAttached
    {
      if port != null {
        if hw.isOpen {
          hw.isOpen := false;
          hw.log := hw.log + [Closed];
        }
        port := null;
      }
      Cleanup();
    }

    /** IDisposable.Dispose: closes the link. */
    method Dispose()
      requires Valid()
      modifies this`port, this`device, this`spiAttached, hw`isOpen, hw`log
      ensures Valid() && port == null && !hw.isOpen
      ensures hw.log == old(hw.log) + (if old(port) != null && old(hw.isOpen) then [Closed] else [])
      ensures device == None && !spiAttached
    {
      Close();
    }

    /** The finalizer: closes the link, like Dispose. */
    method Finalize()
      requires Valid()
      modifies this`port, this`device, this`spiAttached, hw`isOpen, hw`log
      ensures Valid() && port == null && !hw.isOpen
      ensures hw.log == old(hw.log) + (if old(port) != null && old(hw.isOpen) then [Closed] else [])
      ensures device == None && !spiAttached
    {
      Close();
    }

    /** The DefaultTimeout setter: a plain field. */
    method SetDefaultTimeout(t: int)
      modifies this`defaultTimeout
      ensures defaultTimeout == t
    {
      defaultTimeout := t;
    }

    /** The SerialHandshake setter: recorded, and passed on to a port object that exists. */
    method SetSerialHandshake(h: Handshake)
      requires Valid()
      modifies this`handshake, hw`handshake, hw`log
      ensures handshake == h
      ensures port != null ==> hw.handshake == h && hw.log == old(hw.log) + [SetHandshake(h)]
      ensures port == null ==> hw.handshake == old(hw.handshake) && hw.log == old(hw.log)
    {
      handshake := h;
      if port != null {
        hw.handshake := h;
        hw.log := hw.log + [SetHandshake(h)];
      }
    }
  }
}
