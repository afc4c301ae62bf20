/*
 * The device properties that talk to the chip (EspDevice.cs,
 * Devices/Esp32Device.cs, Devices/Esp32S3Device.cs): FLASH_ID and
 * FlashSize, which run an SPI flash command, and the ConnectAsync hook,
 * which does nothing on the ESP32 and on the ESP32-S3 looks at the console
 * the ROM uses: USB-OTG lowers ESP_RAM_BLOCK to 0x800, and USB-JTAG/Serial
 * has the RTC and super watchdogs disabled.
 *
 * Every register value comes from a READ_REG reply on the wire, so each
 * GetUartNoAsync call reads the console register anew.  The hook's
 * register commands are specified over the bus of the link's target;
 * after ESP_RAM_BLOCK changes, the target (which holds the device) is the
 * changed one.
 */
module Hooks {
  import opened Results
  import opened Bytes
  import opened Devices
  import opened Session
  import opened Transport
  import opened Registers
  import opened Spi

  /** SPIFLASH_RDID, the JEDEC "read identification" flash command. */
  const SPIFLASH_RDID: byte := 0x9F

  /** FLASH_ID on the wire: RDID with no data, 24 read bits, no address, no dummy cycles. */
  function FlashIdOn(w: Wire, t: Target, attached: bool): (o: Outcome<bv32>)
  {
    SpiCommandOn(w, t, BusOf(t), attached, SPIFLASH_RDID, [], 24, 0, 0, 0)
  }

  /** FLASH_ID: the RDID command, run with the link's default timeout. */
  method FlashId(link: Link) returns (r: Result<bv32>)
    requires link.Valid()
    modifies link`port, link.hw, link`incoming, link`waited, link`spiAttached
    ensures link.Valid()
    ensures var o := FlashIdOn(old(WireOf(link)), old(TargetOf(link, link.defaultTimeout)), old(link.spiAttached));
      r == o.result && WireOf(link) == o.wire && link.spiAttached == o.attached
  {
    ghost var t := TargetOf(link, link.defaultTimeout);
    BusOfDrives(t);
    r := SpiFlashCommand(link, BusOf(t), SPIFLASH_RDID, [], 24, 0, 0, 0, link.defaultTimeout);
  }

  /** The FlashSize property: FLASH_SIZES at byte 2 of FLASH_ID, -1 when absent; a failing FLASH_ID passes its fault on. */
  function FlashSizeResult(id: Result<bv32>): (r: Result<int>)
    ensures id.Err? <==> r.Err?
    ensures id.Err? ==> r.fault == id.fault
    ensures id.Ok? ==> r.value == FlashSizeOf(id.value)
  {
    match id
    case Err(f) => Err(f)
    case Ok(v) => Ok(FlashSizeOf(v))
  }

  method FlashSize(link: Link) returns (r: Result<int>)
    requires link.Valid()
    modifies link`port, link.hw, link`incoming, link`waited, link`spiAttached
    ensures link.Valid()
    ensures var o := FlashIdOn(old(WireOf(link)), old(TargetOf(link, link.defaultTimeout)), old(link.spiAttached));
      r == FlashSizeResult(o.result) && WireOf(link) == o.wire && link.spiAttached == o.attached
  {
    var id := FlashId(link);
    r := FlashSizeResult(id);
  }

  /** A size id 0x10*k (k < 8) in byte 2 of the flash id gives 1024 * 2^k KB; any other byte gives -1. */
  lemma FlashSizeLookup(id: bv32, k: nat)
    requires k < 8 && ((id >> 16) & 0xFF) as int == 0x10 * k
    ensures FlashSizeOf(id) == 1024 * Pow2(k)
  {
    FlashSizesTable();
    var sizeId := ((id >> 16) & 0xFF) as byte;
    assert (sizeId as int) == ((id >> 16) & 0xFF) as int;
  }

  // The ESP32-S3 post-connect hook, on the wire.

  /** GetUartNoAsync's value: the low byte of UARTDEV_BUF_NO. */
  function UartNo(value: bv32): bv32
  {
    value & 0xFF
  }

  /** The writes that disable the RTC watchdog and unlock the super watchdog, before SWD_CONF is read. */
  function WatchdogFirstWrites(): (t: seq<RegAccess>)
    ensures |t| == 4
  {
    [WriteWord(RTC_CNTL_WDTWPROTECT_REG, RTC_CNTL_WDT_WKEY),
     WriteWord(RTC_CNTL_WDTCONFIG0_REG, 0),
     WriteWord(RTC_CNTL_WDTWPROTECT_REG, 0),
     WriteWord(RTC_CNTL_SWD_WPROTECT_REG, RTC_CNTL_SWD_WKEY)]
  }

  /** The writes after SWD_CONF is read: the auto-feed bit set on the value read, then the super watchdog locked again. */
  function WatchdogLastWrites(swdConf: bv32): (t: seq<RegAccess>)
    ensures |t| == 2
  {
    [WriteWord(RTC_CNTL_SWD_CONF_REG, swdConf | RTC_CNTL_SWD_AUTO_FEED_EN),
     WriteWord(RTC_CNTL_SWD_WPROTECT_REG, 0)]
  }

  /** All six watchdog writes, in order. */
  function WatchdogWrites(swdConf: bv32): (t: seq<RegAccess>)
    ensures |t| == 6
  {
    WatchdogFirstWrites() + WatchdogLastWrites(swdConf)
  }

  /** The body of DisableWatchdogsAsync on USB-JTAG/Serial: four writes, the SWD_CONF read, two writes. */
  function DisableOn(w: Wire, bus: Bus, done: seq<RegAccess>): (run: Run<()>)
  {
    var first := AccessesOn(w, bus.access, WatchdogFirstWrites(), done);
    var conf := ReadRun(first.wire, bus, RTC_CNTL_SWD_CONF_REG, first.trace);
    var last := AccessesOn(conf.wire, bus.access, WatchdogLastWrites(Value(conf)), conf.trace);
    Then(first, Then(conf, last))
  }

  /** DisableWatchdogsAsync: its own console read, then the watchdog writes on USB-JTAG/Serial. */
  function WatchdogsOn(w: Wire, bus: Bus, done: seq<RegAccess>): (run: Run<()>)
  {
    var uart := ReadRun(w, bus, UARTDEV_BUF_NO, done);
    Then(uart, if UartNo(Value(uart)) == UARTDEV_BUF_NO_USB_JTAG_SERIAL then DisableOn(uart.wire, bus, uart.trace) else Run(Ok(()), uart.wire, uart.trace))
  }

  /** The hook's second check: a console read, and DisableWatchdogsAsync on USB-JTAG/Serial. */
  function JtagCheckOn(w: Wire, bus: Bus, done: seq<RegAccess>): (run: Run<()>)
  {
    var jtag := ReadRun(w, bus, UARTDEV_BUF_NO, done);
    Then(jtag, if UartNo(Value(jtag)) == UARTDEV_BUF_NO_USB_JTAG_SERIAL then WatchdogsOn(jtag.wire, bus, jtag.trace) else Run(Ok(()), jtag.wire, jtag.trace))
  }

  /** What the hook leaves: how it ended, the wire, the register commands, and ESP_RAM_BLOCK. */
  datatype Hooked = Hooked(run: Run<()>, ramBlock: nat)

  /** The device after the USB-OTG check: ESP_RAM_BLOCK is USB_RAM_BLOCK on a USB-OTG console. */
  function OtgTarget(t: Target, uart: bv32): (t': Target)
    requires t.device.Some?
    ensures t'.device.Some? && t'.device.value.chip == t.device.value.chip
  {
    if UartNo(uart) == UARTDEV_BUF_NO_USB_OTG then t.(device := Some(t.device.value.(ramBlock := USB_RAM_BLOCK))) else t
  }

  /**
   * Esp32S3Device.OnConnectedAsync: the USB-OTG check (a console read that
   * may set ESP_RAM_BLOCK at once), then the USB-JTAG/Serial check.
   */
  function S3HookOn(w: Wire, t: Target, done: seq<RegAccess>): (h: Hooked)
    requires t.device.Some?
  {
    var otg := ReadRun(w, BusOf(t), UARTDEV_BUF_NO, done);
    if otg.result.Err? then Hooked(Run(Err(otg.result.fault), otg.wire, otg.trace), t.device.value.ramBlock)
    else
      var t' := OtgTarget(t, otg.result.value);
      Hooked(JtagCheckOn(otg.wire, BusOf(t'), otg.trace), t'.device.value.ramBlock)
  }

  /** EspDevice.ConnectAsync: the ESP32 keeps the base class's empty hook. */
  function HookOn(w: Wire, t: Target, done: seq<RegAccess>): (h: Hooked)
    requires t.device.Some?
  {
    match t.device.value.chip
    case Esp32 => Hooked(Run(Ok(()), w, done), t.device.value.ramBlock)
    case Esp32S3 => S3HookOn(w, t, done)
  }

  /** DisableWatchdogsAsync's writes and read, on the link. */
  method Disable(link: Link, ghost bus: Bus, ghost done: seq<RegAccess>, timeout: int) returns (r: Result<()>)
    requires link.Valid() && Drives(bus, TargetOf(link, timeout))
    modifies link`port, link.hw, link`incoming, link`waited
    ensures link.Valid()
    ensures var run := DisableOn(old(WireOf(link)), bus, done); r == run.result && WireOf(link) == run.wire
  {
    ghost var firsts := WatchdogFirstWrites();
    assert [WriteWord(RTC_CNTL_WDTWPROTECT_REG, RTC_CNTL_WDT_WKEY), WriteWord(RTC_CNTL_WDTCONFIG0_REG, 0)] + firsts[2..] == firsts;
    assert [WriteWord(RTC_CNTL_WDTWPROTECT_REG, 0), WriteWord(RTC_CNTL_SWD_WPROTECT_REG, RTC_CNTL_SWD_WKEY)] + [] == firsts[2..];
    r := WritePair(link, bus, firsts[2..], done, RTC_CNTL_WDTWPROTECT_REG, RTC_CNTL_WDT_WKEY, RTC_CNTL_WDTCONFIG0_REG, 0, timeout);
    if r.Err? {
      return;
    }
    r := WritePair(link, bus, [], done + firsts[..2], RTC_CNTL_WDTWPROTECT_REG, 0, RTC_CNTL_SWD_WPROTECT_REG, RTC_CNTL_SWD_WKEY, timeout);
    if r.Err? {
      return;
    }
    assert done + firsts[..2] + firsts[2..] == done + firsts;
    r := DisableLast(link, bus, done + firsts, timeout);
  }

  /** Two writes of a sequence of awaited register commands, which goes on with `rest`. */
  method WritePair(link: Link, ghost bus: Bus, ghost rest: seq<RegAccess>, ghost done: seq<RegAccess>,
                   address1: bv32, value1: bv32, address2: bv32, value2: bv32, timeout: int) returns (r: Result<()>)
    requires link.Valid() && Drives(bus, TargetOf(link, timeout))
    modifies link`port, link.hw, link`incoming, link`waited
    ensures link.Valid()
    ensures var pair := [WriteWord(address1, value1), WriteWord(address2, value2)];
      Continues(AccessesOn(old(WireOf(link)), bus.access, pair + rest, done), bus.access, r, WireOf(link), rest, done + pair)
  {
    ghost var pair := [WriteWord(address1, value1), WriteWord(address2, value2)];
    assert pair + rest == [pair[0]] + ([pair[1]] + rest);
    r := WriteNext(link, bus, [pair[1]] + rest, done, address1, value1, timeout);
    if r.Err? {
      return;
    }
    r := WriteNext(link, bus, rest, done + [pair[0]], address2, value2, timeout);
    assert done + [pair[0]] + [pair[1]] == done + pair;
  }

  /** The SWD_CONF read and the two writes after it. */
  method DisableLast(link: Link, ghost bus: Bus, ghost done: seq<RegAccess>, timeout: int) returns (r: Result<()>)
    requires link.Valid() && Drives(bus, TargetOf(link, timeout))
    modifies link`port, link.hw, link`incoming, link`waited
    ensures link.Valid()
    ensures var conf := ReadRun(old(WireOf(link)), bus, RTC_CNTL_SWD_CONF_REG, done);
      var run := Then(conf, AccessesOn(conf.wire, bus.access, WatchdogLastWrites(Value(conf)), conf.trace));
      r == run.result && WireOf(link) == run.wire
  {
    var conf := BusRead(link, bus, RTC_CNTL_SWD_CONF_REG, timeout);
    if conf.Err? {
      return Err(conf.fault);
    }
    ghost var done' := done + [RegRead(RTC_CNTL_SWD_CONF_REG)];
    ghost var lasts := WatchdogLastWrites(conf.value);
    r := WriteNext(link, bus, lasts[1..], done', RTC_CNTL_SWD_CONF_REG, conf.value | RTC_CNTL_SWD_AUTO_FEED_EN, timeout);
    if r.Err? {
      return;
    }
    r := WriteNext(link, bus, [], done' + lasts[..1], RTC_CNTL_SWD_WPROTECT_REG, 0, timeout);
    UnitIdentity(r);
  }

  /** DisableWatchdogsAsync, on the link. */
  method DisableWatchdogs(link: Link, ghost bus: Bus, ghost done: seq<RegAccess>, timeout: int) returns (r: Result<()>)
    requires link.Valid() && Drives(bus, TargetOf(link, timeout))
    modifies link`port, link.hw, link`incoming, link`waited
    ensures link.Valid()
    ensures var run := WatchdogsOn(old(WireOf(link)), bus, done); r == run.result && WireOf(link) == run.wire
  {
    var uart := BusRead(link, bus, UARTDEV_BUF_NO, timeout);
    if uart.Err? {
      return Err(uart.fault);
    }
    if uart.value & 0xFF == UARTDEV_BUF_NO_USB_JTAG_SERIAL {
      r := Disable(link, bus, done + [RegRead(UARTDEV_BUF_NO)], timeout);
    } else {
      r := Ok(());
    }
  }

  /** The USB-JTAG/Serial check: on that console the watchdogs are disabled. */
  method JtagCheck(link: Link, ghost bus: Bus, ghost done: seq<RegAccess>, timeout: int) returns (r: Result<()>)
    requires link.Valid() && Drives(bus, TargetOf(link, timeout))
    modifies link`port, link.hw, link`incoming, link`waited
    ensures link.Valid()
    ensures var run := JtagCheckOn(old(WireOf(link)), bus, done); r == run.result && WireOf(link) == run.wire
  {
    var uart := BusRead(link, bus, UARTDEV_BUF_NO, timeout);
    if uart.Err? {
      return Err(uart.fault);
    }
    if uart.value & 0xFF == UARTDEV_BUF_NO_USB_JTAG_SERIAL {
      r := DisableWatchdogs(link, bus, done + [RegRead(UARTDEV_BUF_NO)], timeout);
    } else {
      r := Ok(());
    }
  }

  /** Esp32S3Device.OnConnectedAsync, on the link: ESP_RAM_BLOCK changes right after the first read. */
  method S3Connected(link: Link, ghost done: seq<RegAccess>, timeout: int) returns (r: Result<()>)
    requires link.Valid() && link.device.Some?
    modifies link`port, link.hw, link`incoming, link`waited, link`device
    ensures link.Valid()
    ensures var h := S3HookOn(old(WireOf(link)), old(TargetOf(link, timeout)), done);
      r == h.run.result && WireOf(link) == h.run.wire && link.device == Some(old(link.device).value.(ramBlock := h.ramBlock))
  {
    ghost var t := TargetOf(link, timeout);
    ghost var otg := ReadRun(WireOf(link), BusOf(t), UARTDEV_BUF_NO, done);
    BusOfDrives(t);
    var uart := BusRead(link, BusOf(t), UARTDEV_BUF_NO, timeout);
    assert uart == otg.result && WireOf(link) == otg.wire;
    if uart.Err? {
      return Err(uart.fault);
    }
    if uart.value & 0xFF == UARTDEV_BUF_NO_USB_OTG {
      link.device := Some(link.device.value.(ramBlock := USB_RAM_BLOCK));
    }
    ghost var t' := TargetOf(link, timeout);
    assert t' == OtgTarget(t, uart.value);
    BusOfDrives(t');
    r := JtagCheck(link, BusOf(t'), otg.trace, timeout);
  }

  /**
   * EspDevice.ConnectAsync through the link: the chip's OnConnectedAsync.
   * Calling it without a device is a NullReferenceException.
   */
  method DeviceConnected(link: Link, ghost done: seq<RegAccess>, timeout: int) returns (r: Result<()>)
    requires link.Valid()
    modifies link`port, link.hw, link`incoming, link`waited, link`device
    ensures link.Valid()
    ensures old(link.device).None? ==> r == Err(NullReference) && link.device == old(link.device) && WireOf(link) == old(WireOf(link))
    ensures old(link.device).Some? ==>
      var h := HookOn(old(WireOf(link)), old(TargetOf(link, timeout)), done);
      r == h.run.result && WireOf(link) == h.run.wire && link.device == Some(old(link.device).value.(ramBlock := h.ramBlock))
  {
    if link.device.None? {
      return Err(NullReference);
    }
    if link.device.value.chip == Esp32S3 {
      r := S3Connected(link, done, timeout);
    } else {
      r := Ok(());
    }
  }

  // What the hook promises.

  /** The register writes of a run of register commands. */
  function Writes(t: seq<RegAccess>): (w: seq<RegAccess>)
    ensures |w| <= |t|
    ensures forall k :: 0 <= k < |w| ==> w[k].RegWrite?
  {
    if t == [] then []
    else (if t[0].RegWrite? then [t[0]] else []) + Writes(t[1..])
  }

  lemma {:induction false} WritesAppend(a: seq<RegAccess>, b: seq<RegAccess>)
    ensures Writes(a + b) == Writes(a) + Writes(b)
  {
    if a == [] {
      assert a + b == b;
    } else {
      assert (a + b)[1..] == a[1..] + b;
      WritesAppend(a[1..], b);
    }
  }

  /** The ESP32's hook sends nothing, reads and writes no register and keeps ESP_RAM_BLOCK. */
  lemma Esp32HookIsEmpty(w: Wire, t: Target, done: seq<RegAccess>)
    requires t.device.Some? && t.device.value.chip == Esp32
    ensures var h := HookOn(w, t, done); h == Hooked(Run(Ok(()), w, done), t.device.value.ramBlock)
  {
  }

  /**
   * On the ESP32-S3, ESP_RAM_BLOCK becomes 0x800 exactly when the first
   * console read says USB-OTG, and stays so even when a later step of the
   * hook fails; when that read fails or says anything else, it is unchanged.
   */
  lemma S3RamBlock(w: Wire, t: Target, done: seq<RegAccess>)
    requires t.device.Some? && t.device.value.chip == Esp32S3
    ensures var h := HookOn(w, t, done); var first := ReadStep(BusOf(t), w, UARTDEV_BUF_NO);
      first.result.Ok? && UartNo(first.result.value) == 3 ==> h.ramBlock == 0x800
    ensures var h := HookOn(w, t, done); var first := ReadStep(BusOf(t), w, UARTDEV_BUF_NO);
      !(first.result.Ok? && UartNo(first.result.value) == 3) ==> h.ramBlock == t.device.value.ramBlock
  {
  }

  /** Unless both of its console reads say USB-JTAG/Serial, the second check only reads the console register, once or twice. */
  lemma JtagCheckOnlyReads(w: Wire, bus: Bus, done: seq<RegAccess>)
    ensures var run := JtagCheckOn(w, bus, done); var n := |run.trace| - |done|;
      var jtag := ReadRun(w, bus, UARTDEV_BUF_NO, done);
      var again := ReadRun(jtag.wire, bus, UARTDEV_BUF_NO, jtag.trace);
      !(UartNo(Value(jtag)) == 4 && UartNo(Value(again)) == 4) ==>
        |done| < |run.trace| && n <= 2 && run.trace == done + Reads(UARTDEV_BUF_NO, n)
  {
    var jtag := ReadRun(w, bus, UARTDEV_BUF_NO, done);
    var again := ReadRun(jtag.wire, bus, UARTDEV_BUF_NO, jtag.trace);
    var read := RegRead(UARTDEV_BUF_NO);
    assert Reads(UARTDEV_BUF_NO, 1) == [read];
    assert Reads(UARTDEV_BUF_NO, 2) == [read, read];
    if jtag.result.Ok? && UartNo(Value(jtag)) == 4 && UartNo(Value(again)) != 4 {
      assert again.trace == done + [read, read];
    }
  }

  /**
   * Unless both the second and the third console reads say
   * USB-JTAG/Serial, the ESP32-S3 hook writes nothing: it only reads the
   * console register, one to three times.
   */
  lemma S3HookWithoutJtagWritesNothing(w: Wire, t: Target, done: seq<RegAccess>)
    requires t.device.Some? && t.device.value.chip == Esp32S3
    ensures var h := S3HookOn(w, t, done); var n := |h.run.trace| - |done|;
      var otg := ReadRun(w, BusOf(t), UARTDEV_BUF_NO, done);
      var bus' := BusOf(OtgTarget(t, Value(otg)));
      var jtag := ReadRun(otg.wire, bus', UARTDEV_BUF_NO, otg.trace);
      var again := ReadRun(jtag.wire, bus', UARTDEV_BUF_NO, jtag.trace);
      !(UartNo(Value(jtag)) == 4 && UartNo(Value(again)) == 4) ==>
        |done| < |h.run.trace| && n <= 3 && h.run.trace == done + Reads(UARTDEV_BUF_NO, n) && Writes(h.run.trace[|done|..]) == []
  {
    var h := S3HookOn(w, t, done);
    var otg := ReadRun(w, BusOf(t), UARTDEV_BUF_NO, done);
    var bus' := BusOf(OtgTarget(t, Value(otg)));
    var jtag := ReadRun(otg.wire, bus', UARTDEV_BUF_NO, otg.trace);
    var again := ReadRun(jtag.wire, bus', UARTDEV_BUF_NO, jtag.trace);
    if !(UartNo(Value(jtag)) == 4 && UartNo(Value(again)) == 4) {
      var n := |h.run.trace| - |done|;
      var read := RegRead(UARTDEV_BUF_NO);
      if otg.result.Err? {
        assert h.run.trace == done + Reads(UARTDEV_BUF_NO, 1);
      } else {
        JtagCheckOnlyReads(otg.wire, bus', otg.trace);
        var m := |h.run.trace| - |otg.trace|;
        assert h.run.trace == done + [read] + Reads(UARTDEV_BUF_NO, m);
        AppendAssoc(done, [read], Reads(UARTDEV_BUF_NO, m));
        assert [read] + Reads(UARTDEV_BUF_NO, m) == Reads(UARTDEV_BUF_NO, m + 1);
      }
      assert h.run.trace[|done|..] == Reads(UARTDEV_BUF_NO, n);
      WritesOfReads(UARTDEV_BUF_NO, n);
    }
  }

  /** n reads of one register. */
  function Reads(address: bv32, n: nat): (t: seq<RegAccess>)
    ensures |t| == n
  {
    if n == 0 then [] else [RegRead(address)] + Reads(address, n - 1)
  }

  /** Reads write nothing. */
  lemma {:induction false} WritesOfReads(address: bv32, n: nat)
    ensures Writes(Reads(address, n)) == []
  {
    if n > 0 {
      WritesOfReads(address, n - 1);
      assert Reads(address, n)[1..] == Reads(address, n - 1);
    }
  }

  /**
   * When the hook gets through on USB-JTAG/Serial, it wrote, in order:
   * the RTC watchdog key, 0 to WDTCONFIG0, 0 to the RTC watchdog
   * protection, the super watchdog key, SWD_CONF as read with its
   * auto-feed bit set, and 0 to the super watchdog protection.
   */
  lemma DisableWritesWatchdogs(w: Wire, bus: Bus, done: seq<RegAccess>)
    ensures var run := DisableOn(w, bus, done);
      var first := AccessesOn(w, bus.access, WatchdogFirstWrites(), done);
      var conf := ReadStep(bus, first.wire, RTC_CNTL_SWD_CONF_REG);
      run.result.Ok? ==>
        conf.result.Ok? &&
        run.trace == done + WatchdogFirstWrites() + [RegRead(RTC_CNTL_SWD_CONF_REG)] + WatchdogLastWrites(conf.result.value) &&
        Writes(run.trace[|done|..]) == WatchdogWrites(conf.result.value)
  {
    var run := DisableOn(w, bus, done);
    var first := AccessesOn(w, bus.access, WatchdogFirstWrites(), done);
    var conf := ReadRun(first.wire, bus, RTC_CNTL_SWD_CONF_REG, first.trace);
    if run.result.Ok? {
      var lasts := WatchdogLastWrites(Value(conf));
      var read := [RegRead(RTC_CNTL_SWD_CONF_REG)];
      AccessesOkTrace(w, bus.access, WatchdogFirstWrites(), done);
      AccessesOkTrace(conf.wire, bus.access, lasts, conf.trace);
      var own := WatchdogFirstWrites() + read + lasts;
      assert run.trace == done + own;
      assert run.trace[|done|..] == own;
      WritesAppend(WatchdogFirstWrites() + read, lasts);
      WritesAppend(WatchdogFirstWrites(), read);
      WritesOfWrites(WatchdogFirstWrites());
      WritesOfWrites(lasts);
    }
  }

  /** A run made only of writes is its own write list. */
  lemma {:induction false} WritesOfWrites(t: seq<RegAccess>)
    requires forall k :: 0 <= k < |t| ==> t[k].RegWrite?
    ensures Writes(t) == t
  {
    if t != [] {
      WritesOfWrites(t[1..]);
    }
  }

  /** The SWD_CONF write keeps every bit of the value read and sets bit 31. */
  lemma AutoFeedKeepsBits(conf: bv32)
    ensures (conf | RTC_CNTL_SWD_AUTO_FEED_EN) & 0x7FFF_FFFF == conf & 0x7FFF_FFFF
    ensures (conf | RTC_CNTL_SWD_AUTO_FEED_EN) >> 31 == 1
  {
  }
}
