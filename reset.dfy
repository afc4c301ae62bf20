/*
 * Reset strategies (EspLink.Reset.cs): each strategy drives the port's
 * DTR and RTS lines through a fixed sequence with sleeps in between, and
 * Reset runs a strategy on a freshly opened port, up to three times.
 *
 * Every line assignment of the C# code is one SetDtr/SetRts event on the
 * port's log, the no-op `DtrEnable = DtrEnable` included (it re-asserts
 * the line's current level), and every Thread.Sleep is a Slept event.
 */
module Reset {
  import opened Results
  import opened Session

  /**
   * The five ResetStrategy delegates the link defines, and a caller's own
   * delegate: ResetStrategy is a public delegate type.  A caller's delegate
   * is given by what its k-th invocation returns (false past the end of
   * the list); it leaves the port alone.
   */
  datatype Strategy = NoReset | HardReset | HardResetUsb | ClassicReset | SerialJtagReset | Custom(answers: seq<bool>)

  /** SerialJtagResetImpl's line sequence; d re-asserts the DTR level it has at that point. */
  function SerialJtagEvents(dtr: bool): seq<PortEvent>
  {
    [SetRts(false), SetDtr(dtr), SetDtr(false), Slept(100),
     SetDtr(true), SetRts(false), SetDtr(true), Slept(100),
     SetRts(true), SetDtr(true), SetDtr(false), SetRts(true), SetDtr(false), Slept(100),
     SetDtr(false), SetRts(false), SetDtr(false)]
  }

  /** HardResetImplInt's line sequence: RTS pulsed high for 100 ms, or 200 ms plus 200 ms after on USB. */
  function HardEvents(dtr: bool, isUsb: bool): seq<PortEvent>
  {
    [SetRts(true), SetDtr(dtr)] +
    (if isUsb then [Slept(200), SetRts(false), SetDtr(dtr), Slept(200)]
     else [Slept(100), SetRts(false), SetDtr(dtr)])
  }

  /** ClassicResetImpl's line sequence: the chip is held in reset with IO0 low, then released. */
  function ClassicEvents(): seq<PortEvent>
  {
    [SetDtr(false), SetRts(true), SetDtr(false), Slept(50),
     SetDtr(true), SetRts(false), SetDtr(true), Slept(550),
     SetDtr(false)]
  }

  /** The events a strategy puts on an open port whose DTR line is at dtr. */
  function StrategyEvents(s: Strategy, dtr: bool): seq<PortEvent>
  {
    match s
    case NoReset => []
    case HardReset => HardEvents(dtr, false)
    case HardResetUsb => HardEvents(dtr, true)
    case ClassicReset => ClassicEvents()
    case SerialJtagReset => SerialJtagEvents(dtr)
    case Custom(_) => []
  }

  /** What the k-th invocation of a strategy returns on an open port. */
  predicate Succeeds(s: Strategy, k: nat)
  {
    match s
    case Custom(answers) => k < |answers| && answers[k]
    case _ => true
  }

  /**
   * The level of a line (DTR when dtr is true, RTS otherwise) after a run
   * of events: the last level the events set it to, or the level it had
   * when they set it to nothing.
   */
  function LineAfter(events: seq<PortEvent>, dtr: bool, level: bool): bool
  {
    if events == [] then level
    else
      var e := events[|events| - 1];
      if dtr && e.SetDtr? then e.on
      else if !dtr && e.SetRts? then e.on
      else LineAfter(events[..|events| - 1], dtr, level)
  }

  /** The DTR and RTS levels after a run of events. */
  function LinesAfter(events: seq<PortEvent>, dtr: bool, rts: bool): (bool, bool)
  {
    (LineAfter(events, true, dtr), LineAfter(events, false, rts))
  }

  /**
   * The k-th invocation of a strategy on a port: NoReset succeeds without
   * touching anything, a caller's delegate answers as it was given, and
   * the others return false on a null or closed port and otherwise play
   * their line sequence and succeed.
   */
  method Apply(s: Strategy, port: SerialPort?, k: nat) returns (ok: bool)
    modifies port
    ensures s == NoReset ==> ok
    ensures s.Custom? ==> ok == Succeeds(s, k)
    ensures s != NoReset && !s.Custom? ==> (ok <==> port != null && old(port.isOpen))
    ensures !ok || s == NoReset || s.Custom? ==> port == null || unchanged(port)
    ensures ok && port != null ==>
      var events := StrategyEvents(s, old(port.dtr));
      port.log == old(port.log) + events && (port.dtr, port.rts) == LinesAfter(events, old(port.dtr), old(port.rts)) &&
      port.isOpen == old(port.isOpen) && port.baud == old(port.baud) && port.handshake == old(port.handshake)
  {
    if s == NoReset {
      return true;
    }
    if s.Custom? {
      return Succeeds(s, k);
    }
    if port == null || !port.isOpen {
      return false;
    }
    var events := StrategyEvents(s, port.dtr);
    var lines := LinesAfter(events, port.dtr, port.rts);
    port.log := port.log + events;
    port.dtr, port.rts := lines.0, lines.1;
    return true;
  }

  // What each strategy leaves behind.

  /** One more event: it sets the line, or leaves it where the events before left it. */
  lemma LineAfterSnoc(events: seq<PortEvent>, e: PortEvent, dtr: bool, level: bool)
    ensures LineAfter(events + [e], dtr, level) ==
      if (dtr && e.SetDtr?) || (!dtr && e.SetRts?) then e.on else LineAfter(events, dtr, level)
  {
    assert (events + [e])[..|events + [e]| - 1] == events;
  }

  /** Classic reset ends with both lines low. */
  lemma ClassicEndsLow(dtr: bool, rts: bool)
    ensures LinesAfter(StrategyEvents(ClassicReset, dtr), dtr, rts) == (false, false)
  {
    var p := [SetDtr(false), SetRts(true), SetDtr(false), Slept(50), SetDtr(true)];
    assert ClassicEvents() == p + [SetRts(false)] + [SetDtr(true)] + [Slept(550)] + [SetDtr(false)];
    LineAfterSnoc(p + [SetRts(false)] + [SetDtr(true)] + [Slept(550)], SetDtr(false), false, rts);
    LineAfterSnoc(p + [SetRts(false)] + [SetDtr(true)], Slept(550), false, rts);
    LineAfterSnoc(p + [SetRts(false)], SetDtr(true), false, rts);
    LineAfterSnoc(p, SetRts(false), false, rts);
    LineAfterSnoc(p + [SetRts(false)] + [SetDtr(true)] + [Slept(550)], SetDtr(false), true, dtr);
  }

  /** The serial-JTAG reset ends with both lines low. */
  lemma SerialJtagEndsLow(dtr: bool, rts: bool)
    ensures LinesAfter(StrategyEvents(SerialJtagReset, dtr), dtr, rts) == (false, false)
  {
    var p := SerialJtagEvents(dtr)[..15];
    assert SerialJtagEvents(dtr) == p + [SetRts(false)] + [SetDtr(false)];
    LineAfterSnoc(p + [SetRts(false)], SetDtr(false), false, rts);
    LineAfterSnoc(p, SetRts(false), false, rts);
    LineAfterSnoc(p + [SetRts(false)], SetDtr(false), true, dtr);
  }

  /** A hard reset ends with RTS low and DTR where it was. */
  lemma HardResetEndsWithRtsLow(dtr: bool, rts: bool)
    ensures LinesAfter(StrategyEvents(HardReset, dtr), dtr, rts) == (dtr, false)
    ensures LinesAfter(StrategyEvents(HardResetUsb, dtr), dtr, rts) == (dtr, false)
  {
    var head := [SetRts(true), SetDtr(dtr)];
    assert HardEvents(dtr, false) == head + [Slept(100)] + [SetRts(false)] + [SetDtr(dtr)];
    LineAfterSnoc(head + [Slept(100)] + [SetRts(false)], SetDtr(dtr), true, dtr);
    LineAfterSnoc(head + [Slept(100)] + [SetRts(false)], SetDtr(dtr), false, rts);
    LineAfterSnoc(head + [Slept(100)], SetRts(false), false, rts);
    assert HardEvents(dtr, true) == head + [Slept(200)] + [SetRts(false)] + [SetDtr(dtr)] + [Slept(200)];
    LineAfterSnoc(head + [Slept(200)] + [SetRts(false)] + [SetDtr(dtr)], Slept(200), true, dtr);
    LineAfterSnoc(head + [Slept(200)] + [SetRts(false)], SetDtr(dtr), true, dtr);
    LineAfterSnoc(head + [Slept(200)] + [SetRts(false)] + [SetDtr(dtr)], Slept(200), false, rts);
    LineAfterSnoc(head + [Slept(200)] + [SetRts(false)], SetDtr(dtr), false, rts);
    LineAfterSnoc(head + [Slept(200)], SetRts(false), false, rts);
  }

  /** The hard reset raises RTS before anything else: the chip's EN line is held low first. */
  lemma HardResetRaisesRtsFirst(dtr: bool, isUsb: bool)
    ensures HardEvents(dtr, isUsb)[0] == SetRts(true)
  {
  }

  // Reset itself.

  /** How often Reset runs the strategy before giving up. */
  const RESET_TRIES: nat := 3

  /** Every one of Reset's three runs of the strategy returns false on the open port. */
  predicate ResetFails(s: Strategy)
  {
    !Succeeds(s, 0) && !Succeeds(s, 1) && !Succeeds(s, 2)
  }

  /**
   * The events of Reset after the first Close, on a port that opens: open,
   * handshake off, input discarded, the strategy's successful run (none
   * when every run fails), close.
   */
  function ResetEvents(s: Strategy): seq<PortEvent>
  {
    [Opened, SetHandshake(NoHandshake), DiscardedInput] + (if ResetFails(s) then [] else StrategyEvents(s, false)) + [Closed]
  }

  /** The strategy Reset runs: the one given, or HardReset. */
  function ChosenStrategy(strategy: Option<Strategy>): Strategy
  {
    if strategy.Some? then strategy.value else HardReset
  }

  /**
   * What Reset returns: IOException when the port opens and every run of
   * the strategy refuses; a port that will not open returns normally.
   */
  function ResetOutcome(present: bool, s: Strategy): (r: Result<()>)
    ensures r.Err? <==> present && ResetFails(s)
    ensures r.Err? ==> r.fault == IOFault(ResetFailed)
  {
    if present && ResetFails(s) then Err(IOFault(ResetFailed)) else Ok(())
  }

  /**
   * The outcome Reset's documentation promises ("IOException: unable to
   * communicate with the device"): a port that will not open fails too.
   */
  function ResetOutcomeIntended(present: bool, s: Strategy): (r: Result<()>)
    ensures r.Ok? <==> present && !ResetFails(s)
    ensures r.Err? ==> r.fault == IOFault(ResetFailed)
  {
    if present && !ResetFails(s) then Ok(()) else Err(IOFault(ResetFailed))
  }

  /**
   * The two agree whenever the port opens; as written, a device that
   * cannot be reached at all is reported as reset.
   */
  lemma ResetOutcomesDiffer(present: bool, s: Strategy)
    ensures present ==> ResetOutcome(present, s) == ResetOutcomeIntended(present, s)
    ensures !present ==> ResetOutcome(present, s) == Ok(()) && ResetOutcomeIntended(present, s).Err?
  {
  }

  /**
   * Reset(strategy): closes the link, opens the port afresh (115200 baud,
   * no handshake, both lines low), turns the handshake off, discards
   * input, runs the strategy up to three times until it succeeds, and
   * closes the link again; three failures raise IOException.  A port that
   * will not open is no error: Reset then returns without doing anything
   * else.
   */
  method Reset(link: Link, strategy: Option<Strategy>) returns (r: Result<()>)
    requires link.Valid()
    modifies link`port, link`device, link`spiAttached, link.hw
    ensures link.Valid() && link.port == null && !link.hw.isOpen && link.device == None && !link.spiAttached
    ensures r == ResetOutcome(link.hw.present, ChosenStrategy(strategy))
    ensures var closing := if old(link.port) != null && old(link.hw.isOpen) then [Closed] else [];
      link.hw.log == old(link.hw.log) + closing + (if link.hw.present then ResetEvents(ChosenStrategy(strategy)) else [])
    ensures link.hw.present ==>
      var s := ChosenStrategy(strategy);
      (link.hw.dtr, link.hw.rts) == if ResetFails(s) then (false, false) else LinesAfter(StrategyEvents(s, false), false, false)
  {
    ghost var closing := if link.port != null && link.hw.isOpen then [Closed] else [];
    ghost var log0 := link.hw.log;
    link.Close();
    var s := ChosenStrategy(strategy);
    var port := link.GetOrOpenPort();
    if port != null && port.isOpen {
      port.handshake := NoHandshake;
      port.log := port.log + [SetHandshake(NoHandshake), DiscardedInput];
      var ok := Retry(s, port);
      link.Close();
      ResetLog(log0 + closing, s, ok);
      return if ok then Ok(()) else Err(IOFault(ResetFailed));
    }
    link.Close();
    return Ok(());
  }

  /** The log of Reset's open-port branch, event group by event group. */
  lemma ResetLog(before: seq<PortEvent>, s: Strategy, ok: bool)
    requires ok == !ResetFails(s)
    ensures before + [Opened] + [SetHandshake(NoHandshake), DiscardedInput] + (if ok then StrategyEvents(s, false) else []) + [Closed]
      == before + ResetEvents(s)
  {
  }

  /** Reset's loop: the strategy runs on the open port until it succeeds, three times at most. */
  method Retry(s: Strategy, port: SerialPort) returns (ok: bool)
    requires port.isOpen && !port.dtr && !port.rts
    modifies port
    ensures ok == !ResetFails(s)
    ensures port.log == old(port.log) + (if ok then StrategyEvents(s, false) else [])
    ensures (port.dtr, port.rts) == if ok then LinesAfter(StrategyEvents(s, false), false, false) else (false, false)
    ensures port.isOpen && port.baud == old(port.baud) && port.handshake == old(port.handshake)
  {
    var i := 2;
    while i >= 0
      invariant -1 <= i <= 2
      invariant unchanged(port)
      invariant forall k :: 0 <= k < 2 - i ==> !Succeeds(s, k)
    {
      ok := Apply(s, port, 2 - i);
      if ok {
        return;
      }
      i := i - 1;
    }
    return false;
  }

  /** With the link's own strategies Reset never fails; a caller's delegate fails it only by refusing all three times. */
  lemma ResetFailsOnlyByRefusal(s: Strategy)
    ensures ResetFails(s) <==> s.Custom? && (forall k :: 0 <= k < 3 ==> !(k < |s.answers| && s.answers[k]))
  {
  }
}
