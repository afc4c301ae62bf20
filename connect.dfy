/*
 * Connecting (EspLink.Connect.cs): a connect attempt resets the chip with
 * a strategy and then tries up to five times to sync with the ROM
 * loader; ConnectAsync makes up to `attempts` attempts and, once one
 * succeeds, reads the chip's magic value, creates the device, enters the
 * bootloader state, runs the device's connect hook and restores the baud
 * rate.
 *
 * Everything is stated on the wire (WireOf): the frames sent, the queue
 * left, the time slept, whether the port is open.  The reset and the
 * input discards act on the port's lines and log, which the wire does
 * not see; the attempt's contract states them on the port's log.
 */
module Connect {
  import opened Results
  import opened Bytes
  import opened Devices
  import opened Packet
  import opened Framing
  import opened Session
  import opened Transport
  import opened Commands
  import opened Registers
  import opened Reset
  import opened Ports
  import opened Selection
  import opened Hooks
  import opened Baud

  /** EspConnectMode. */
  datatype Mode = Default | NoReset | NoSync | NoResetNoSync | UsbReset

  /**
   * CheckReady(checkConnected): InvalidOperationException when a device
   * is required and missing, or when the bootloader has not been entered.
   */
  function CheckReady(device: Option<Descriptor>, inBootloader: bool, checkConnected: bool): (r: Result<()>)
    ensures r.Ok? <==> (!checkConnected || device.Some?) && inBootloader
    ensures r.Err? ==> r.fault.InvalidOperation?
  {
    if checkConnected && device.None? then Err(InvalidOperation(NoDevice))
    else if !inBootloader then Err(InvalidOperation(NotInBootloader))
    else Ok(())
  }

  // SyncAsync.

  /** The opcode SyncAsync sends, written out in the code rather than taken from the device. */
  const SYNC_OP: int := 0x08

  /** The 36-byte SYNC payload: 07 07 12 20, then 32 bytes of 0x55. */
  const SYNC_PACKET: seq<byte> := [0x07, 0x07, 0x12, 0x20,
    0x55, 0x55, 0x55, 0x55, 0x55, 0x55, 0x55, 0x55,
    0x55, 0x55, 0x55, 0x55, 0x55, 0x55, 0x55, 0x55,
    0x55, 0x55, 0x55, 0x55, 0x55, 0x55, 0x55, 0x55,
    0x55, 0x55, 0x55, 0x55, 0x55, 0x55, 0x55, 0x55]

  /** How many replies SyncAsync reads after the SYNC exchange. */
  const SYNC_READS: nat := 7

  /** One read of SyncAsync's loop: CommandAsync with op -1, which sends nothing. */
  function SyncRead(present: bool, timeout: int): Wire -> Step<Answer>
  {
    w => CommandOn(w, present, -1, [], 0, timeout)
  }

  /**
   * n reads by `read`: a timeout is remembered and raised once all reads
   * are done, any other fault ends the reads at once.
   */
  function ReadsOn(w: Wire, read: Wire -> Step<Answer>, n: nat, timedOut: bool): Step<()>
    decreases n
  {
    if n == 0 then Step(if timedOut then Err(Timeout) else Ok(()), w)
    else
      var c := read(w);
      if c.result == Err(Timeout) then ReadsOn(c.wire, read, n - 1, true)
      else if c.result.Err? then Step(Err(c.result.fault), c.wire)
      else ReadsOn(c.wire, read, n - 1, timedOut)
  }

  /** One read of ReadsOn. */
  lemma ReadsStep(w: Wire, read: Wire -> Step<Answer>, n: nat, timedOut: bool)
    requires n > 0
    ensures var c := read(w);
      ReadsOn(w, read, n, timedOut) ==
        if c.result == Err(Timeout) then ReadsOn(c.wire, read, n - 1, true)
        else if c.result.Err? then Step(Err(c.result.fault), c.wire)
        else ReadsOn(c.wire, read, n - 1, timedOut)
  {
  }

  /** `read` sends nothing, leaves the port as it was, and fails only with a reply fault or NullReference. */
  ghost predicate ReadKeeps(read: Wire -> Step<Answer>)
  {
    forall w {:trigger At(w)} :: read(w).wire.sent == w.sent && read(w).wire.open == w.open &&
      (read(w).result.Err? ==> ReplyFault(read(w).result.fault) || read(w).result.fault == NullReference)
  }

  lemma SyncReadKeeps(present: bool, timeout: int)
    ensures ReadKeeps(SyncRead(present, timeout))
  {
    forall w {:trigger At(w)}
      ensures var c := SyncRead(present, timeout)(w);
        c.wire.sent == w.sent && c.wire.open == w.open && (c.result.Err? ==> ReplyFault(c.result.fault) || c.result.fault == NullReference)
    {
    }
  }

  /** Reads that keep the port keep it over the whole loop, and so do its faults. */
  lemma {:induction false} ReadsKeep(w: Wire, read: Wire -> Step<Answer>, n: nat, timedOut: bool)
    requires ReadKeeps(read)
    ensures var s := ReadsOn(w, read, n, timedOut);
      s.wire.sent == w.sent && s.wire.open == w.open &&
      (s.result.Err? ==> ReplyFault(s.result.fault) || s.result.fault == NullReference)
    decreases n
  {
    if n > 0 {
      assert At(w);
      var c := read(w);
      ReadsKeep(c.wire, read, n - 1, true);
      ReadsKeep(c.wire, read, n - 1, timedOut);
    }
  }

  /** The reads after the SYNC exchange, n of them left. */
  function SyncReads(w: Wire, present: bool, timeout: int, n: nat, timedOut: bool): (s: Step<()>)
    ensures s.wire.sent == w.sent && s.wire.open == w.open
    ensures s.result.Err? ==> ReplyFault(s.result.fault) || s.result.fault == NullReference
  {
    SyncReadKeeps(present, timeout);
    ReadsKeep(w, SyncRead(present, timeout), n, timedOut);
    ReadsOn(w, SyncRead(present, timeout), n, timedOut)
  }

  /** Once a read has timed out the reads fail, whatever the later reads bring. */
  lemma {:induction false} TimeoutSticks(w: Wire, read: Wire -> Step<Answer>, n: nat)
    ensures ReadsOn(w, read, n, true).result.Err?
    decreases n
  {
    if n > 0 {
      var c := read(w);
      if c.result.Ok? || c.result == Err(Timeout) {
        TimeoutSticks(c.wire, read, n - 1);
      }
    }
  }

  /** In SyncAsync, once a read has timed out the sync fails. */
  lemma SyncTimeoutSticks(w: Wire, present: bool, timeout: int, n: nat)
    ensures SyncReads(w, present, timeout, n, true).result.Err?
  {
    TimeoutSticks(w, SyncRead(present, timeout), n);
  }

  /** SyncAsync on the wire: the SYNC exchange, then the reads. */
  function SyncOn(w: Wire, present: bool, timeout: int): (s: Step<()>)
    ensures w.open ==> s.wire.open
    ensures s.result.Err? ==> ReplyFault(s.result.fault) || s.result.fault == NullReference
  {
    var first := CommandOn(w, present, SYNC_OP, SYNC_PACKET, 0, timeout);
    CommandOnOpens(w, present, SYNC_OP, SYNC_PACKET, 0, timeout);
    if first.result.Err? then Step(Err(first.result.fault), first.wire)
    else SyncReads(first.wire, present, timeout, SYNC_READS, false)
  }

  /** C#'s (byte) cast leaves the SYNC opcode as it is. */
  lemma SyncOpcodeByte()
    ensures ByteOf(SYNC_OP) == ESP_SYNC
  {
    var b := ByteFor(0x08);
    assert (b as int) as byte == b;
  }

  /** A sync on a port that opens sends exactly one frame, the SYNC request; the reads send nothing. */
  lemma SyncSendsOneFrame(w: Wire, present: bool, timeout: int)
    requires w.open || present
    ensures SyncOn(w, present, timeout).wire.sent == w.sent + [Frame(PacketBytes(ESP_SYNC, SYNC_PACKET, 0))]
  {
    SyncOpcodeByte();
    var sent := SendOn(w, present, SYNC_OP, SYNC_PACKET, 0);
    assert CommandOn(w, present, SYNC_OP, SYNC_PACKET, 0, timeout).wire.sent == sent.wire.sent;
  }

  /** SyncAsync(timeout). */
  method Sync(link: Link, timeout: int) returns (r: Result<()>)
    requires link.Valid()
    modifies link`port, link.hw, link`incoming, link`waited
    ensures link.Valid() && link.port == link.hw && old(link.hw.log) <= link.hw.log
    ensures Step(r, WireOf(link)) == SyncOn(old(WireOf(link)), link.hw.present, timeout)
  {
    var ret := Command(link, SYNC_OP, SYNC_PACKET, 0, timeout);
    if ret.Err? {
      return Err(ret.fault);
    }
    SyncReadIs(link.hw.present, timeout);
    r := SyncLoop(link, SyncRead(link.hw.present, timeout), timeout);
  }

  /** `read` is a read of SyncAsync's loop. */
  ghost predicate IsSyncRead(read: Wire -> Step<Answer>, present: bool, timeout: int)
  {
    forall w {:trigger At(w)} :: read(w) == CommandOn(w, present, -1, [], 0, timeout)
  }

  lemma SyncReadIs(present: bool, timeout: int)
    ensures IsSyncRead(SyncRead(present, timeout), present, timeout)
  {
    forall w {:trigger At(w)} ensures SyncRead(present, timeout)(w) == CommandOn(w, present, -1, [], 0, timeout) {
    }
  }

  /** The seven reads of SyncAsync. */
  method SyncLoop(link: Link, ghost read: Wire -> Step<Answer>, timeout: int) returns (r: Result<()>)
    requires link.Valid() && IsSyncRead(read, link.hw.present, timeout)
    modifies link`port, link.hw, link`incoming, link`waited
    ensures link.Valid() && link.port == old(link.port) && link.hw.log == old(link.hw.log)
    ensures Step(r, WireOf(link)) == ReadsOn(old(WireOf(link)), read, SYNC_READS, false)
  {
    ghost var left: nat := SYNC_READS;
    ghost var spec := ReadsOn(WireOf(link), read, left, false);
    var timedOut := false;
    var i := 0;
    while i < SYNC_READS
      invariant 0 <= i <= SYNC_READS && left == SYNC_READS - i && spec == ReadsOn(WireOf(link), read, left, timedOut)
      invariant link.Valid() && link.port == old(link.port) && link.hw.log == old(link.hw.log)
    {
      ghost var w := WireOf(link);
      assert At(w);
      ReadsStep(w, read, left, timedOut);
      var ret := Command(link, -1, [], 0, timeout);
      if ret.Err? {
        if ret.fault != Timeout {
          return Err(ret.fault);
        }
        timedOut := true;
      }
      i, left := i + 1, left - 1;
    }
    r := if timedOut then Err(Timeout) else Ok(());
  }

  // ConnectAttemptAsync.

  /** How often a connect attempt tries to sync. */
  const SYNC_TRIES: nat := 5

  /**
   * What ConnectAttemptAsync does after its sync loop when no error was
   * kept: the boot-banner messages, or nothing.  `bannerSeen` is whether
   * the banner read after the reset matched the boot-mode pattern, and
   * `downloadMode` whether the match was taken for download mode.
   */
  function AfterSyncTries(last: Option<Fault>, bannerSeen: bool, downloadMode: bool): Result<()>
  {
    if last.Some? then Err(last.value)
    else if bannerSeen then Err(IOFault(if downloadMode then DownloadModeNoSync else WrongBootMode))
    else Ok(())
  }

  /**
   * The sync loop with n tries left, `last` the error kept from the tries
   * before, `sync` one sync as a step of the wire: a port that is not open
   * fails each try with NullReferenceException, the first sync that
   * succeeds ends the loop, and a failed one's error is kept.
   */
  function SyncTries(w: Wire, sync: Wire -> Step<()>, n: nat, last: Option<Fault>, bannerSeen: bool, downloadMode: bool): Step<()>
    decreases n
  {
    if n == 0 then Step(AfterSyncTries(last, bannerSeen, downloadMode), w)
    else if !w.open then SyncTries(w, sync, n - 1, Some(NullReference), bannerSeen, downloadMode)
    else
      var s := sync(w);
      if s.result.Ok? then s
      else SyncTries(s.wire, sync, n - 1, Some(s.result.fault), bannerSeen, downloadMode)
  }

  /** SyncAsync as a step of the wire. */
  function SyncWith(present: bool, timeout: int): Wire -> Step<()>
  {
    w => SyncOn(w, present, timeout)
  }

  /**
   * A term for triggers: the step equations below are used only at the
   * wires a proof names with it, so the loops do not unfold the exchange
   * behind every use of a step.
   */
  ghost predicate At(w: Wire)
  {
    true
  }

  /** `sync` is SyncAsync on a port that is `present`, with this timeout. */
  ghost predicate IsSync(sync: Wire -> Step<()>, present: bool, timeout: int)
  {
    forall w {:trigger At(w)} :: sync(w) == SyncOn(w, present, timeout)
  }

  lemma SyncWithIsSync(present: bool, timeout: int)
    ensures IsSync(SyncWith(present, timeout), present, timeout)
  {
    forall w ensures SyncWith(present, timeout)(w) == SyncOn(w, present, timeout) {
    }
  }

  /**
   * Once the loop has run, the error it kept is all that can come out:
   * neither the error before it nor the banner makes any difference, so
   * the boot-mode messages are never raised.
   */
  lemma {:induction false} SyncTriesIgnoreBanner(w: Wire, present: bool, timeout: int, n: nat, last: Option<Fault>, bannerSeen: bool, downloadMode: bool)
    requires n > 0
    ensures SyncTries(w, SyncWith(present, timeout), n, last, bannerSeen, downloadMode) == SyncTries(w, SyncWith(present, timeout), n, None, false, false)
    ensures SyncTries(w, SyncWith(present, timeout), n, last, bannerSeen, downloadMode).result.Err? ==>
      var f := SyncTries(w, SyncWith(present, timeout), n, last, bannerSeen, downloadMode).result.fault;
      ReplyFault(f) || f == NullReference
    decreases n
  {
    if !w.open {
      if n > 1 {
        SyncTriesIgnoreBanner(w, present, timeout, n - 1, Some(NullReference), bannerSeen, downloadMode);
        SyncTriesIgnoreBanner(w, present, timeout, n - 1, Some(NullReference), false, false);
      }
    } else {
      var s := SyncOn(w, present, timeout);
      if s.result.Err? {
        if n > 1 {
          SyncTriesIgnoreBanner(s.wire, present, timeout, n - 1, Some(s.result.fault), bannerSeen, downloadMode);
          SyncTriesIgnoreBanner(s.wire, present, timeout, n - 1, Some(s.result.fault), false, false);
        }
      }
    }
  }

  /**
   * ConnectAttemptAsync on the wire: NoResetNoSync does nothing; otherwise
   * the port is opened, the reset (skipped under NoReset) needs it open,
   * and the sync loop runs.  The banner is only read after a reset.
   */
  function AttemptOn(w: Wire, present: bool, mode: Mode, bannerSeen: bool, downloadMode: bool, timeout: int): (s: Step<()>)
  {
    if mode == NoResetNoSync then Step(Ok(()), w)
    else
      var w1 := w.(open := w.open || present);
      if !mode.NoReset? && !w1.open then Step(Err(NullReference), w1)
      else SyncTries(w1, SyncWith(present, timeout), SYNC_TRIES, None, !mode.NoReset? && bannerSeen, !mode.NoReset? && downloadMode)
  }

  /** The reset step of an attempt: input discarded, then the strategy run on the open port. */
  method ResetStep(link: Link, s: Strategy)
    requires link.Valid() && link.port == link.hw && link.hw.isOpen
    modifies link.hw
    ensures link.Valid() && link.hw.isOpen && WireOf(link) == old(WireOf(link))
    ensures link.hw.log == old(link.hw.log) + [DiscardedInput] + StrategyEvents(s, old(link.hw.dtr))
  {
    ResetIsQuiet(link.hw.log, s, link.hw.dtr);
    link.hw.log := link.hw.log + [DiscardedInput];
    var _ := Apply(s, link.hw, 0);
  }

  /** The input discard and the reset strategies write nothing, so the frames sent stay as they were. */
  lemma ResetIsQuiet(before: seq<PortEvent>, s: Strategy, dtr: bool)
    ensures Sent(before + [DiscardedInput] + StrategyEvents(s, dtr)) == Sent(before)
  {
    SentSkipsQuiet(before, [DiscardedInput]);
    StrategyWritesNothing(s, dtr);
    SentSkipsQuiet(before + [DiscardedInput], StrategyEvents(s, dtr));
  }

  /** No reset strategy writes to the port. */
  lemma StrategyWritesNothing(s: Strategy, dtr: bool)
    ensures Quiet(StrategyEvents(s, dtr))
  {
    match s
    case HardReset => HardQuiet(dtr, false);
    case HardResetUsb => HardQuiet(dtr, true);
    case ClassicReset => ClassicQuiet();
    case SerialJtagReset => SerialJtagQuiet(dtr);
    case _ =>
  }

  /** No event of the run is a write. */
  ghost predicate Quiet(events: seq<PortEvent>)
  {
    forall k :: 0 <= k < |events| ==> !events[k].Wrote?
  }

  lemma HardQuiet(dtr: bool, isUsb: bool)
    ensures Quiet(HardEvents(dtr, isUsb))
  {
  }

  lemma ClassicQuiet()
    ensures Quiet(ClassicEvents())
  {
  }

  lemma SerialJtagQuiet(dtr: bool)
    ensures Quiet(SerialJtagEvents(dtr))
  {
  }

  /** One try of the loop on an open port: the sync's result, or the rest of the loop with its error kept. */
  lemma SyncTriesStep(spec: Step<()>, w: Wire, sync: Wire -> Step<()>, n: nat, last: Option<Fault>, bannerSeen: bool, downloadMode: bool,
                      r: Result<()>, after: Wire)
    requires w.open && n > 0
    requires spec == SyncTries(w, sync, n, last, bannerSeen, downloadMode)
    requires Step(r, after) == sync(w)
    ensures r.Ok? ==> spec == Step(r, after)
    ensures r.Err? ==> spec == SyncTries(after, sync, n - 1, Some(r.fault), bannerSeen, downloadMode)
  {
  }

  /** The events of the first try stay at the head of the log through later tries. */
  lemma PrefixAfter(start: seq<PortEvent>, before: seq<PortEvent>, events: seq<PortEvent>, after: seq<PortEvent>)
    requires start == before || start + events <= before
    requires before + events <= after
    ensures start + events <= after
  {
    if start != before {
      assert before <= after;
    }
  }

  /** On a port that is not open every try fails with NullReferenceException, and so does the loop. */
  lemma {:induction false} SyncTriesClosed(w: Wire, sync: Wire -> Step<()>, n: nat, last: Option<Fault>, bannerSeen: bool, downloadMode: bool)
    requires !w.open && n > 0
    ensures SyncTries(w, sync, n, last, bannerSeen, downloadMode) == Step(Err(NullReference), w)
    decreases n
  {
    if n > 1 {
      SyncTriesClosed(w, sync, n - 1, Some(NullReference), bannerSeen, downloadMode);
    }
  }

  /** One try of the sync loop on an open port: input discarded, output flushed, then a sync. */
  method SyncTry(link: Link, ghost sync: Wire -> Step<()>, timeout: int) returns (r: Result<()>)
    requires link.Valid() && link.port == link.hw && link.hw.isOpen
    requires IsSync(sync, link.hw.present, timeout)
    modifies link`port, link.hw, link`incoming, link`waited
    ensures link.Valid() && link.port == link.hw && link.hw.isOpen
    ensures Step(r, WireOf(link)) == sync(old(WireOf(link)))
    ensures old(link.hw.log) + [DiscardedInput, Flushed] <= link.hw.log
  {
    assert At(WireOf(link));
    SentSkipsQuiet(link.hw.log, [DiscardedInput, Flushed]);
    link.hw.log := link.hw.log + [DiscardedInput, Flushed];
    r := Sync(link, timeout);
  }

  /**
   * The sync loop of ConnectAttemptAsync on the port GetOrOpenPort gave:
   * each try discards input and flushes, then syncs.
   */
  method SyncPhase(link: Link, ghost sync: Wire -> Step<()>, bannerSeen: bool, downloadMode: bool, timeout: int) returns (r: Result<()>)
    requires link.Valid() && link.port == link.hw
    requires IsSync(sync, link.hw.present, timeout)
    modifies link`port, link.hw, link`incoming, link`waited
    ensures link.Valid() && link.hw.isOpen == old(link.hw.isOpen)
    ensures Step(r, WireOf(link)) == SyncTries(old(WireOf(link)), sync, SYNC_TRIES, None, bannerSeen, downloadMode)
    ensures old(link.hw.isOpen) ==> old(link.hw.log) + [DiscardedInput, Flushed] <= link.hw.log
    ensures !old(link.hw.isOpen) ==> link.port == old(link.port) && unchanged(link.hw)
  {
    if !link.hw.isOpen {
      // every try fails the same way on a missing port
      SyncTriesClosed(WireOf(link), sync, SYNC_TRIES, None, bannerSeen, downloadMode);
      return Err(NullReference);
    }
    r := SyncTriesOpen(link, sync, bannerSeen, downloadMode, timeout);
  }

  /** The sync loop on a port that is open. */
  method SyncTriesOpen(link: Link, ghost sync: Wire -> Step<()>, bannerSeen: bool, downloadMode: bool, timeout: int) returns (r: Result<()>)
    requires link.Valid() && link.port == link.hw && link.hw.isOpen
    requires IsSync(sync, link.hw.present, timeout)
    modifies link`port, link.hw, link`incoming, link`waited
    ensures link.Valid() && link.hw.isOpen
    ensures Step(r, WireOf(link)) == SyncTries(old(WireOf(link)), sync, SYNC_TRIES, None, bannerSeen, downloadMode)
    ensures old(link.hw.log) + [DiscardedInput, Flushed] <= link.hw.log
  {
    ghost var spec := SyncTries(WireOf(link), sync, SYNC_TRIES, None, bannerSeen, downloadMode);
    ghost var cur, left := WireOf(link), SYNC_TRIES;
    var ex: Option<Fault> := None;
    var i := 0;
    while i < SYNC_TRIES
      invariant 0 <= i <= SYNC_TRIES && left == SYNC_TRIES - i && cur == WireOf(link)
      invariant spec == SyncTries(cur, sync, left, ex, bannerSeen, downloadMode)
      invariant link.Valid() && link.port == link.hw && link.hw.isOpen
      invariant i == 0 ==> link.hw.log == old(link.hw.log)
      invariant i > 0 ==> old(link.hw.log) + [DiscardedInput, Flushed] <= link.hw.log
    {
      ghost var log0 := link.hw.log;
      var s := SyncTry(link, sync, timeout);
      SyncTriesStep(spec, cur, sync, left, ex, bannerSeen, downloadMode, s, WireOf(link));
      PrefixAfter(old(link.hw.log), log0, [DiscardedInput, Flushed], link.hw.log);
      if s.Ok? {
        return s;
      }
      ex := Some(s.fault);
      cur := WireOf(link);
      i, left := i + 1, left - 1;
    }
    r := AfterSyncTries(ex, bannerSeen, downloadMode);
  }

  /**
   * ConnectAttemptAsync(strategy, mode, timeout).  The banner read after
   * the reset is given by `bannerSeen` and `downloadMode`.
   */
  method ConnectAttempt(link: Link, s: Strategy, mode: Mode, bannerSeen: bool, downloadMode: bool, timeout: int) returns (r: Result<()>)
    requires link.Valid()
    modifies link`port, link.hw, link`incoming, link`waited
    ensures link.Valid()
    ensures Step(r, WireOf(link)) == AttemptOn(old(WireOf(link)), link.hw.present, mode, bannerSeen, downloadMode, timeout)
    ensures mode == NoResetNoSync ==> link.port == old(link.port) && unchanged(link.hw)
    ensures !mode.NoReset? && mode != NoResetNoSync && link.hw.isOpen ==>
      var opening := if old(link.hw.isOpen) then [] else [Opened];
      old(link.hw.log) + opening + [DiscardedInput] + StrategyEvents(s, old(link.port) != null && old(link.hw.dtr)) <= link.hw.log
    ensures mode.NoReset? && link.hw.isOpen ==>
      var opening := if old(link.hw.isOpen) then [] else [Opened];
      old(link.hw.log) + opening + [DiscardedInput, Flushed] <= link.hw.log
  {
    if mode == NoResetNoSync {
      return Ok(());
    }
    var port := OpenPort(link);
    if !mode.NoReset? {
      if port == null {
        return Err(NullReference);
      }
      ResetStep(link, s);
    }
    SyncWithIsSync(link.hw.present, timeout);
    r := SyncPhase(link, SyncWith(link.hw.present, timeout), !mode.NoReset? && bannerSeen, !mode.NoReset? && downloadMode, timeout);
  }

  // BuildConnectStrategy.

  /** A StrategyEntry: a reset strategy and the delay stored with it (the strategies do not read it). */
  datatype Entry = Entry(strategy: Strategy, delay: int)

  const DEFAULT_RESET_DELAY: int := 50
  const EXTRA_DELAY: int := 550

  predicate StartsWith(s: string, prefix: string)
  {
    |prefix| <= |s| && s[..|prefix|] == prefix
  }

  /**
   * BuildConnectStrategy(mode): the serial-JTAG reset for UsbReset mode or
   * a serial-JTAG port; otherwise the classic reset twice on Windows or
   * an "rfc2217:" port, and NotImplementedException anywhere else.
   */
  function PlanOf(mode: Mode, ports: seq<PortInfo>, portName: string, isWindows: bool): Result<seq<Entry>>
  {
    if mode == UsbReset then Ok([Entry(SerialJtagReset, 0)])
    else match UsbJtagOf(ports, portName)
      case Err(f) => Err(f)
      case Ok(jtag) =>
        if jtag then Ok([Entry(SerialJtagReset, 0)])
        else if !isWindows && !StartsWith(portName, "rfc2217:") then Err(NotImplemented)
        else Ok([Entry(ClassicReset, DEFAULT_RESET_DELAY), Entry(ClassicReset, EXTRA_DELAY)])
  }

  method BuildConnectStrategy(mode: Mode, ports: seq<PortInfo>, portName: string, isWindows: bool) returns (r: Result<seq<Entry>>)
    ensures r == PlanOf(mode, ports, portName, isWindows)
  {
    if mode == UsbReset {
      return Ok([Entry(SerialJtagReset, 0)]);
    }
    var jtag := IsUsbSerialJtag(ports, portName);
    if jtag.Err? {
      return Err(jtag.fault);
    }
    if jtag.value {
      return Ok([Entry(SerialJtagReset, 0)]);
    }
    if !isWindows && !StartsWith(portName, "rfc2217:") {
      return Err(NotImplemented);
    }
    return Ok([Entry(ClassicReset, DEFAULT_RESET_DELAY), Entry(ClassicReset, EXTRA_DELAY)]);
  }

  /** Every plan is one serial-JTAG reset or two classic resets (50 then 550); on Windows a non-JTAG port always gets the classic pair. */
  lemma PlanShape(mode: Mode, ports: seq<PortInfo>, portName: string, isWindows: bool)
    ensures var p := PlanOf(mode, ports, portName, isWindows);
      p.Ok? ==> p.value == [Entry(SerialJtagReset, 0)] || p.value == [Entry(ClassicReset, 50), Entry(ClassicReset, 550)]
    ensures var p := PlanOf(mode, ports, portName, isWindows);
      p.Err? ==> p.fault in {ArgumentFault, NullReference, NotImplemented}
    ensures mode != UsbReset && isWindows && UsbJtagOf(ports, portName) == Ok(false) ==>
      PlanOf(mode, ports, portName, isWindows) == Ok([Entry(ClassicReset, 50), Entry(ClassicReset, 550)])
  {
  }

  // ConnectAsync.

  /** ConnectAsync raises `attempts` to the number of strategies. */
  function Attempts(attempts: int, strategies: nat): (n: int)
    ensures n >= strategies && n >= attempts
  {
    if attempts < strategies then strategies else attempts
  }

  /**
   * The attempt loop with n attempts left, `last` the error of the
   * attempt before, `attempt` one attempt as a step of the wire: the
   * first success ends it; when all fail the last error is raised (and a
   * loop that never ran would throw null, a NullReferenceException).
   */
  function AttemptsOn(w: Wire, attempt: Wire -> Step<()>, n: nat, last: Option<Fault>): Step<()>
    decreases n
  {
    if n == 0 then Step(Err(if last.Some? then last.value else NullReference), w)
    else
      var a := attempt(w);
      if a.result.Ok? then a
      else AttemptsOn(a.wire, attempt, n - 1, Some(a.result.fault))
  }

  /** ConnectAttemptAsync as a step of the wire. */
  function AttemptWith(present: bool, mode: Mode, bannerSeen: bool, downloadMode: bool, timeout: int): Wire -> Step<()>
  {
    w => AttemptOn(w, present, mode, bannerSeen, downloadMode, timeout)
  }

  /** `attempt` is ConnectAttemptAsync with these inputs. */
  ghost predicate IsAttempt(attempt: Wire -> Step<()>, present: bool, mode: Mode, bannerSeen: bool, downloadMode: bool, timeout: int)
  {
    forall w {:trigger At(w)} :: attempt(w) == AttemptOn(w, present, mode, bannerSeen, downloadMode, timeout)
  }

  lemma AttemptWithIsAttempt(present: bool, mode: Mode, bannerSeen: bool, downloadMode: bool, timeout: int)
    ensures IsAttempt(AttemptWith(present, mode, bannerSeen, downloadMode, timeout), present, mode, bannerSeen, downloadMode, timeout)
  {
    forall w ensures AttemptWith(present, mode, bannerSeen, downloadMode, timeout)(w) == AttemptOn(w, present, mode, bannerSeen, downloadMode, timeout) {
    }
  }

  /** NoResetNoSync connects at the first attempt without touching the wire. */
  lemma NoResetNoSyncIsImmediate(w: Wire, present: bool, bannerSeen: bool, downloadMode: bool, timeout: int, n: nat, last: Option<Fault>)
    requires n > 0
    ensures AttemptsOn(w, AttemptWith(present, NoResetNoSync, bannerSeen, downloadMode, timeout), n, last) == Step(Ok(()), w)
  {
  }

  /** One attempt as the loop sees it. */
  method AttemptStep(link: Link, ghost attempt: Wire -> Step<()>, s: Strategy, mode: Mode, bannerSeen: bool, downloadMode: bool, timeout: int)
    returns (r: Result<()>)
    requires link.Valid() && IsAttempt(attempt, link.hw.present, mode, bannerSeen, downloadMode, timeout)
    modifies link`port, link.hw, link`incoming, link`waited
    ensures link.Valid() && Step(r, WireOf(link)) == attempt(old(WireOf(link)))
  {
    assert At(WireOf(link));
    r := ConnectAttempt(link, s, mode, bannerSeen, downloadMode, timeout);
  }

  /** One attempt of the loop: its success, or the rest of the loop with its error kept. */
  lemma AttemptsStep(spec: Step<()>, w: Wire, attempt: Wire -> Step<()>, n: nat, last: Option<Fault>, r: Result<()>, after: Wire)
    requires n > 0
    requires spec == AttemptsOn(w, attempt, n, last)
    requires Step(r, after) == attempt(w)
    ensures r.Ok? ==> spec == Step(r, after)
    ensures r.Err? ==> spec == AttemptsOn(after, attempt, n - 1, Some(r.fault))
  {
  }

  /**
   * The attempt loop of ConnectAsync.  `used` lists the strategy each
   * attempt was given: the index only moves after a success, which ends
   * the loop, so every attempt gets the first strategy.
   */
  method ConnectLoop(link: Link, ghost attempt: Wire -> Step<()>, strategy: seq<Entry>, mode: Mode, attempts: int,
                     bannerSeen: bool, downloadMode: bool, timeout: int)
    returns (r: Result<()>, ghost used: seq<Entry>)
    requires link.Valid() && |strategy| > 0
    requires IsAttempt(attempt, link.hw.present, mode, bannerSeen, downloadMode, timeout)
    modifies link`port, link.hw, link`incoming, link`waited
    ensures link.Valid()
    ensures Step(r, WireOf(link)) == AttemptsOn(old(WireOf(link)), attempt, Attempts(attempts, |strategy|), None)
    ensures 1 <= |used| <= Attempts(attempts, |strategy|) && (r.Err? ==> |used| == Attempts(attempts, |strategy|))
    ensures forall k :: 0 <= k < |used| ==> used[k] == strategy[0]
  {
    var tries := if attempts < |strategy| then |strategy| else attempts;
    var strategyIndex := 0;
    var lastErr: Option<Fault> := None;
    used := [];
    ghost var spec := AttemptsOn(WireOf(link), attempt, tries, None);
    ghost var cur, left := WireOf(link), tries;
    var i := 0;
    while i < tries
      invariant 0 <= i <= tries && left == tries - i && cur == WireOf(link) && |used| == i
      invariant spec == AttemptsOn(cur, attempt, left, lastErr)
      invariant link.Valid() && strategyIndex == 0
      invariant forall k :: 0 <= k < |used| ==> used[k] == strategy[0]
    {
      used := used + [strategy[strategyIndex]];
      var a := AttemptStep(link, attempt, strategy[strategyIndex].strategy, mode, bannerSeen, downloadMode, timeout);
      AttemptsStep(spec, cur, attempt, left, lastErr, a, WireOf(link));
      if a.Ok? {
        strategyIndex := strategyIndex + 1;
        if strategyIndex == |strategy| {
          strategyIndex := 0;
        }
        return a, used;
      }
      lastErr := Some(a.fault);
      cur := WireOf(link);
      i, left := i + 1, left - 1;
    }
    r := Err(if lastErr.Some? then lastErr.value else NullReference);
  }

  /** The end of ConnectAsync: the result, the wire, the device, the bootloader state and the register commands issued. */
  datatype Finished = Finished(result: Result<()>, wire: Wire, device: Option<Descriptor>, inBootloader: bool, trace: seq<RegAccess>)

  /**
   * What ConnectAsync does once connected, unless only detecting: reads
   * the magic register, creates the device from it (NotSupportedException
   * when no descriptor matches), enters the bootloader state, runs the
   * device's connect hook at the link's default timeout and, when the
   * link's baud differs from the ROM's 115200, switches to it.
   */
  function FinishOn(w: Wire, t: Target, inBootloader: bool, defaultTimeout: int, baudRate: int): Finished
  {
    var magic := ReadRun(w, BusOf(t), CHIP_DETECT_MAGIC_REG_ADDR, []);
    if magic.result.Err? then Finished(Err(magic.result.fault), magic.wire, t.device, inBootloader, magic.trace)
    else
      var c := FindChip(REGISTRY, magic.result.value, false);
      if c.None? then Finished(Err(NotSupported), magic.wire, t.device, inBootloader, magic.trace)
      else ConnectedOn(magic.wire, t.(device := Some(NewDescriptor(c.value))), defaultTimeout, baudRate, magic.trace)
  }

  /**
   * ConnectFinish once the target's descriptor is created: the bootloader
   * state is entered and the hook runs on the descriptor at the default
   * timeout.
   */
  function ConnectedOn(w: Wire, t: Target, defaultTimeout: int, baudRate: int, done: seq<RegAccess>): (f: Finished)
    requires t.device.Some?
    ensures f.inBootloader && f.device.Some? && f.device.value.chip == t.device.value.chip
  {
    AfterHook(HookOn(w, t.(timeout := defaultTimeout), done), t, baudRate)
  }

  /**
   * What follows the hook `h` run on the target's descriptor: the RAM
   * block is the hook's, and the baud switch follows a successful hook
   * unless the link's baud is the ROM's.
   */
  function AfterHook(h: Hooked, t: Target, baudRate: int): (f: Finished)
    requires t.device.Some?
    ensures f.inBootloader && f.device == Some(t.device.value.(ramBlock := h.ramBlock)) && f.trace == h.run.trace
  {
    var device := Some(t.device.value.(ramBlock := h.ramBlock));
    if h.run.result.Err? || baudRate == ESP_ROM_BAUD then Finished(h.run.result, h.run.wire, device, true, h.run.trace)
    else
      var b := BaudOn(h.run.wire, t.present, device, true, t.isStub, baudRate, baudRate, t.timeout);
      Finished(b.result, b.wire, device, true, h.run.trace)
  }

  /** ConnectFinish on the link. */
  method ConnectFinish(link: Link, timeout: int) returns (r: Result<()>)
    requires link.Valid()
    modifies link`device, link`inBootloader, link`baudRate, link`port, link.hw, link`incoming, link`waited
    ensures link.Valid() && link.baudRate == old(link.baudRate)
    ensures var f := FinishOn(old(WireOf(link)), old(TargetOf(link, timeout)), old(link.inBootloader), link.defaultTimeout, link.baudRate);
      r == f.result && WireOf(link) == f.wire && link.device == f.device && link.inBootloader == f.inBootloader
  {
    ghost var t := TargetOf(link, timeout);
    BusOfDrives(t);
    ghost var magicRun := ReadRun(WireOf(link), BusOf(t), CHIP_DETECT_MAGIC_REG_ADDR, []);
    var magic := BusRead(link, BusOf(t), CHIP_DETECT_MAGIC_REG_ADDR, timeout);
    assert magic == magicRun.result && WireOf(link) == magicRun.wire;
    if magic.Err? {
      return Err(magic.fault);
    }
    ghost var c := FindChip(REGISTRY, magic.value, false);
    var created := CreateDevice(link, magic.value, false);
    if created.Err? {
      return created;
    }
    ghost var t' := TargetOf(link, timeout);
    assert t' == t.(device := Some(NewDescriptor(c.value)));
    assert FinishOn(old(WireOf(link)), t, link.inBootloader, link.defaultTimeout, link.baudRate) ==
      ConnectedOn(WireOf(link), t', link.defaultTimeout, link.baudRate, magicRun.trace);
    r := Connected(link, magicRun.trace, timeout);
  }

  /** ConnectFinish once the device exists: the bootloader state, the connect hook, the baud switch. */
  method Connected(link: Link, ghost done: seq<RegAccess>, timeout: int) returns (r: Result<()>)
    requires link.Valid() && link.device.Some?
    modifies link`device, link`inBootloader, link`baudRate, link`port, link.hw, link`incoming, link`waited
    ensures link.Valid() && link.baudRate == old(link.baudRate)
    ensures var f := ConnectedOn(old(WireOf(link)), old(TargetOf(link, timeout)), link.defaultTimeout, link.baudRate, done);
      r == f.result && WireOf(link) == f.wire && link.device == f.device && link.inBootloader == f.inBootloader
  {
    ghost var t := TargetOf(link, timeout);
    ghost var h := HookOn(WireOf(link), t.(timeout := link.defaultTimeout), done);
    assert AfterHook(h, t, link.baudRate) == ConnectedOn(WireOf(link), t, link.defaultTimeout, link.baudRate, done);
    link.inBootloader := true;
    r := DeviceConnected(link, done, link.defaultTimeout);
    if r.Ok? {
      r := RestoreBaud(link, h, t, timeout);
    }
  }

  /** ConnectFinish after a successful hook `h` on the target: the baud switch unless the link's baud is the ROM's. */
  method RestoreBaud(link: Link, ghost h: Hooked, ghost t: Target, timeout: int) returns (r: Result<()>)
    requires link.Valid() && t.device.Some? && h.run.result.Ok? && link.inBootloader
    requires t == Target(link.hw.present, t.device, link.isStub, timeout)
    requires WireOf(link) == h.run.wire && link.device == Some(t.device.value.(ramBlock := h.ramBlock))
    modifies link`baudRate, link`port, link.hw, link`incoming, link`waited
    ensures link.Valid() && link.baudRate == old(link.baudRate)
    ensures var f := AfterHook(h, t, link.baudRate); r == f.result && WireOf(link) == f.wire
  {
    if link.baudRate != ESP_ROM_BAUD {
      r := SetBaudRate(link, link.baudRate, timeout);
    } else {
      r := Ok(());
      UnitIdentity(h.run.result);
    }
  }

  /**
   * ConnectAsync once an attempt succeeded: the port is opened (null when
   * it will not open, a NullReferenceException), the input buffer is
   * discarded, then ConnectFinish unless only detecting.
   */
  function EndOn(w: Wire, t: Target, inBootloader: bool, detecting: bool, defaultTimeout: int, baudRate: int): Finished
  {
    if !(w.open || t.present) then Finished(Err(NullReference), w, t.device, inBootloader, [])
    else if detecting then Finished(Ok(()), w.(open := true), t.device, inBootloader, [])
    else FinishOn(w.(open := true), t, inBootloader, defaultTimeout, baudRate)
  }

  /** ConnectEnd on the link. */
  method ConnectEnd(link: Link, detecting: bool, timeout: int) returns (r: Result<()>)
    requires link.Valid()
    modifies link`device, link`inBootloader, link`baudRate, link`port, link.hw, link`incoming, link`waited
    ensures link.Valid() && link.baudRate == old(link.baudRate)
    ensures var e := EndOn(old(WireOf(link)), old(TargetOf(link, timeout)), old(link.inBootloader), detecting, link.defaultTimeout, link.baudRate);
      r == e.result && WireOf(link) == e.wire && link.device == e.device && link.inBootloader == e.inBootloader
  {
    var port := OpenPort(link);
    if port == null {
      return Err(NullReference);
    }
    ghost var log0 := port.log;
    port.log := port.log + [DiscardedInput];
    SentSkipsQuiet(log0, [DiscardedInput]);
    r := Ok(());
    if !detecting {
      r := ConnectFinish(link, timeout);
    }
  }

  /**
   * ConnectAsync(mode, attempts, detecting, timeout) as a whole: the
   * strategy plan, the attempt loop, and its end once an attempt
   * succeeded; with no plan nothing happens.
   */
  function ConnectOn(w: Wire, t: Target, inBootloader: bool, plan: Result<seq<Entry>>, mode: Mode, attempts: int, detecting: bool,
                     bannerSeen: bool, downloadMode: bool, defaultTimeout: int, baudRate: int): Finished
  {
    if plan.Err? then Finished(Err(plan.fault), w, t.device, inBootloader, [])
    else
      var loop := AttemptsOn(w, AttemptWith(t.present, mode, bannerSeen, downloadMode, t.timeout), Attempts(attempts, |plan.value|), None);
      if loop.result.Err? then Finished(loop.result, loop.wire, t.device, inBootloader, [])
      else EndOn(loop.wire, t, inBootloader, detecting, defaultTimeout, baudRate)
  }

  /**
   * ConnectAsync on the link.  The WMI port list, the platform and the
   * banner are inputs; `used` lists the strategy each attempt was given.
   */
  method Connect(link: Link, mode: Mode, attempts: int, detecting: bool, timeout: int,
                 ports: seq<PortInfo>, isWindows: bool, bannerSeen: bool, downloadMode: bool)
    returns (r: Result<()>, ghost used: seq<Entry>)
    requires link.Valid()
    modifies link`device, link`inBootloader, link`baudRate, link`port, link.hw, link`incoming, link`waited
    ensures link.Valid() && link.baudRate == old(link.baudRate)
    ensures var plan := PlanOf(mode, ports, link.portName, isWindows);
      var c := ConnectOn(old(WireOf(link)), old(TargetOf(link, timeout)), old(link.inBootloader), plan, mode, attempts, detecting,
                         bannerSeen, downloadMode, link.defaultTimeout, link.baudRate);
      r == c.result && WireOf(link) == c.wire && link.device == c.device && link.inBootloader == c.inBootloader
    ensures var plan := PlanOf(mode, ports, link.portName, isWindows);
      (plan.Err? ==> used == [] && link.port == old(link.port) && unchanged(link.hw)) &&
      (plan.Ok? ==> 1 <= |used| && forall k :: 0 <= k < |used| ==> used[k] == plan.value[0])
  {
    var plan := BuildConnectStrategy(mode, ports, link.portName, isWindows);
    if plan.Err? {
      return Err(plan.fault), [];
    }
    AttemptWithIsAttempt(link.hw.present, mode, bannerSeen, downloadMode, timeout);
    r, used := ConnectLoop(link, AttemptWith(link.hw.present, mode, bannerSeen, downloadMode, timeout), plan.value, mode, attempts, bannerSeen, downloadMode, timeout);
    if r.Err? {
      return;
    }
    r := ConnectEnd(link, detecting, timeout);
  }

  // What connecting promises.

  /**
   * Once connected, ConnectFinish's first register command is the magic
   * read; a failed read ends it, no descriptor with that magic value is
   * NotSupportedException with the device and the bootloader state left
   * as they were, and otherwise the device is the registry's chip with
   * that magic value and the rest runs on it after the read.
   */
  lemma FinishReadsMagic(w: Wire, t: Target, inBootloader: bool, defaultTimeout: int, baudRate: int)
    ensures var f := FinishOn(w, t, inBootloader, defaultTimeout, baudRate);
      var magic := ReadStep(BusOf(t), w, CHIP_DETECT_MAGIC_REG_ADDR);
      var c := FindChip(REGISTRY, Value(Run(magic.result, magic.wire, [])), false);
      (magic.result.Err? ==> f == Finished(Err(magic.result.fault), magic.wire, t.device, inBootloader, [RegRead(CHIP_DETECT_MAGIC_REG_ADDR)])) &&
      (magic.result.Ok? && c.None? ==>
        f == Finished(Err(NotSupported), magic.wire, t.device, inBootloader, [RegRead(CHIP_DETECT_MAGIC_REG_ADDR)])) &&
      (magic.result.Ok? && c.Some? ==>
        f.inBootloader && f.device.Some? && Magic(f.device.value.chip) == magic.result.value && f.device.value.chip in REGISTRY &&
        f == ConnectedOn(magic.wire, t.(device := Some(NewDescriptor(c.value))), defaultTimeout, baudRate, [RegRead(CHIP_DETECT_MAGIC_REG_ADDR)]))
  {
    assert [] + [RegRead(CHIP_DETECT_MAGIC_REG_ADDR)] == [RegRead(CHIP_DETECT_MAGIC_REG_ADDR)];
  }

  /**
   * Once the descriptor exists, the hook runs on it at the default
   * timeout after the commands before; its register commands are all that
   * follow (the baud switch is not a register command), its RAM block is
   * the device's, and a failed hook ends the connect with its error.
   */
  lemma ConnectedRunsHook(w: Wire, t: Target, defaultTimeout: int, baudRate: int, done: seq<RegAccess>)
    requires t.device.Some?
    ensures var h := HookOn(w, t.(timeout := defaultTimeout), done);
      var f := ConnectedOn(w, t, defaultTimeout, baudRate, done);
      f.trace == h.run.trace && f.device == Some(t.device.value.(ramBlock := h.ramBlock)) && f.inBootloader &&
      (h.run.result.Err? ==> f.result == h.run.result && f.wire == h.run.wire)
  {
  }

  /**
   * The baud switch after a successful hook: at the ROM's 115200 nothing
   * more is sent; otherwise, once the port opens, exactly one
   * CHANGE_BAUDRATE frame carrying the link's baud as both the new and
   * the old rate.
   */
  lemma AfterHookSwitchesBaud(h: Hooked, t: Target, baudRate: int)
    requires t.device.Some?
    ensures var f := AfterHook(h, t, baudRate);
      h.run.result.Ok? ==>
        (baudRate == ESP_ROM_BAUD ==> f.result == h.run.result && f.wire == h.run.wire) &&
        (baudRate != ESP_ROM_BAUD && (h.run.wire.open || t.present) ==>
          f.wire.sent == h.run.wire.sent + [Frame(PacketBytes(ESP_CHANGE_BAUDRATE, BaudPayload(baudRate, baudRate, t.isStub), 0))])
  {
    if h.run.result.Ok? && baudRate != ESP_ROM_BAUD && (h.run.wire.open || t.present) {
      BaudChangeSendsOneFrame(h.run.wire, t.present, Some(t.device.value.(ramBlock := h.ramBlock)), t.isStub, baudRate, baudRate, t.timeout);
    }
  }

  /** Only detecting: once the port opens, nothing but opening it happens. */
  lemma DetectingChangesNothing(w: Wire, t: Target, inBootloader: bool, defaultTimeout: int, baudRate: int)
    ensures var e := EndOn(w, t, inBootloader, true, defaultTimeout, baudRate);
      e.device == t.device && e.inBootloader == inBootloader && e.trace == [] &&
      (e.result.Ok? <==> w.open || t.present) && e.wire.sent == w.sent && e.wire.queue == w.queue
  {
  }

  /**
   * A failed attempt loop is ConnectAsync's result, with the device and
   * the bootloader state untouched; after a successful one, only
   * detecting leaves them untouched too.
   */
  lemma ConnectFailsWithLoop(w: Wire, t: Target, inBootloader: bool, plan: Result<seq<Entry>>, mode: Mode, attempts: int, detecting: bool,
                             bannerSeen: bool, downloadMode: bool, defaultTimeout: int, baudRate: int)
    requires plan.Ok?
    ensures var loop := AttemptsOn(w, AttemptWith(t.present, mode, bannerSeen, downloadMode, t.timeout), Attempts(attempts, |plan.value|), None);
      var c := ConnectOn(w, t, inBootloader, plan, mode, attempts, detecting, bannerSeen, downloadMode, defaultTimeout, baudRate);
      (loop.result.Err? ==> c.result == loop.result && c.wire == loop.wire && c.device == t.device && c.inBootloader == inBootloader) &&
      (loop.result.Ok? && detecting ==>
        c.device == t.device && c.inBootloader == inBootloader && c.trace == [] && c.wire.sent == loop.wire.sent)
  {
  }

  // What the attempt loop and the sync loop evidently intend.

  /** The two-entry plan BuildConnectStrategy gives a non-JTAG port on Windows. */
  const ClassicPair: seq<Entry> := [Entry(ClassicReset, DEFAULT_RESET_DELAY), Entry(ClassicReset, EXTRA_DELAY)]

  /**
   * The entry the attempt loop evidently means to give attempt k: the
   * strategy index moves on after every attempt and wraps at the end of
   * the plan.
   */
  function IntendedEntry(plan: seq<Entry>, k: nat): (e: Entry)
    requires |plan| > 0
    ensures e in plan
  {
    plan[k % |plan|]
  }

  /**
   * With the intended rotation the first |plan| attempts try the plan's
   * entries in order, so the 550 ms entry of the classic pair gets the
   * second attempt; as written, every attempt gets the 50 ms entry.
   */
  lemma RotationTriesEveryEntry(plan: seq<Entry>, attempts: int, used: seq<Entry>)
    requires |plan| > 0
    requires forall k :: 0 <= k < |used| ==> used[k] == ClassicPair[0]
    ensures forall j :: 0 <= j < |plan| ==> j < Attempts(attempts, |plan|) && IntendedEntry(plan, j) == plan[j]
    ensures IntendedEntry(ClassicPair, 1) == Entry(ClassicReset, EXTRA_DELAY)
    ensures Entry(ClassicReset, EXTRA_DELAY) !in used
  {
    var n := Attempts(attempts, |plan|);
    forall j | 0 <= j < |plan|
      ensures j < Attempts(attempts, |plan|) && IntendedEntry(plan, j) == plan[j]
    {
      assert j < n;
      assert j % |plan| == j;
    }
    assert Entry(ClassicReset, EXTRA_DELAY) != ClassicPair[0];
  }

  /** The boot-mode message for a banner taken for download mode or not. */
  function BootModeFault(downloadMode: bool): Fault
  {
    IOFault(if downloadMode then DownloadModeNoSync else WrongBootMode)
  }

  /**
   * The sync loop as ConnectAttemptAsync evidently means it: when every
   * try fails and the banner was seen, the boot-mode message replaces the
   * error of the last try.
   */
  function SyncTriesIntended(w: Wire, sync: Wire -> Step<()>, n: nat, bannerSeen: bool, downloadMode: bool): (s: Step<()>)
    ensures s.wire == SyncTries(w, sync, n, None, false, false).wire
  {
    var s := SyncTries(w, sync, n, None, false, false);
    if s.result.Err? && bannerSeen then Step(Err(BootModeFault(downloadMode)), s.wire) else s
  }

  /**
   * The intended loop leaves the same wire and succeeds exactly when the
   * loop as written does; after a banner its failure is the boot-mode
   * message, which the loop as written never raises.
   */
  lemma BannerReportedAsIntended(w: Wire, present: bool, timeout: int, n: nat, last: Option<Fault>, bannerSeen: bool, downloadMode: bool)
    requires n > 0
    ensures var written := SyncTries(w, SyncWith(present, timeout), n, last, bannerSeen, downloadMode);
      var intended := SyncTriesIntended(w, SyncWith(present, timeout), n, bannerSeen, downloadMode);
      intended.wire == written.wire && (intended.result.Ok? <==> written.result.Ok?) &&
      (!bannerSeen ==> intended == written) &&
      (written.result.Err? ==> written.result.fault != BootModeFault(downloadMode)) &&
      (written.result.Err? && bannerSeen ==> intended.result == Err(BootModeFault(downloadMode)))
  {
    SyncTriesIgnoreBanner(w, present, timeout, n, last, bannerSeen, downloadMode);
  }
}
