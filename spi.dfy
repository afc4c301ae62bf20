/*
 * The SPI flash driver (EspLink.SpiFlash.cs): the attach command, and
 * arbitrary SPI flash commands run through the SPI controller's "user
 * command" registers.  A flash command is a fixed sequence of awaited
 * register reads and writes, each a command on the wire that can fail;
 * the sequences are specified as runs over a bus (Registers.Bus), and
 * the attach step as its own wire exchange.
 */
module Spi {
  import opened Results
  import opened Bytes
  import opened Devices
  import opened Packet
  import opened Session
  import opened Transport
  import opened Commands
  import opened Registers
  import opened Framing

  // SPI_USR flag bits and the SPI_CMD start/busy bit.
  const SPI_USR_COMMAND: bv32 := 1 << 31
  const SPI_USR_ADDR: bv32 := 1 << 30
  const SPI_USR_DUMMY: bv32 := 1 << 29
  const SPI_USR_MISO: bv32 := 1 << 28
  const SPI_USR_MOSI: bv32 := 1 << 27
  const SPI_CMD_USR: bv32 := 1 << 18

  /** The SPI_USR word: the command phase always, and each other phase iff it is used. */
  function UserFlags(readBits: bv32, dataBits: bv32, addrLen: bv32, dummyLen: bv32): (f: bv32)
    ensures f & SPI_USR_COMMAND != 0
    ensures f & SPI_USR_MISO != 0 <==> readBits > 0
    ensures f & SPI_USR_MOSI != 0 <==> dataBits > 0
    ensures f & SPI_USR_ADDR != 0 <==> addrLen > 0
    ensures f & SPI_USR_DUMMY != 0 <==> dummyLen > 0
    ensures f & 0x07FF_FFFF == 0
  {
    SPI_USR_COMMAND | (if readBits > 0 then SPI_USR_MISO else 0) | (if dataBits > 0 then SPI_USR_MOSI else 0) |
    (if addrLen > 0 then SPI_USR_ADDR else 0) | (if dummyLen > 0 then SPI_USR_DUMMY else 0)
  }

  /** C#'s (uint) of a long: its low 32 bits. */
  function Low32(x: bv64): bv32
  {
    (x & 0xFFFF_FFFF) as bv32
  }

  /** SpiSetLengthsAsync's long flags word: dummy-1 from bit 0, addr-1 from bit 26, each only when nonzero. */
  function NewLengthFlags(addrBits: bv32, dummyBits: bv32): (f: bv64)
    ensures f == 0 <==> dummyBits <= 1 && addrBits <= 1
  {
    (if dummyBits > 0 then (dummyBits - 1) as bv64 else 0) | (if addrBits > 0 then ((addrBits as bv64) - 1) << 26 else 0)
  }

  /** The new length encoding decodes back to its fields while they fit: 26 bits of dummy, 6 of address. */
  lemma NewLengthFields(addrBits: bv32, dummyBits: bv32)
    requires 0 < dummyBits <= 0x400_0000 && 0 < addrBits <= 64
    ensures Low32(NewLengthFlags(addrBits, dummyBits)) & 0x3FF_FFFF == dummyBits - 1
    ensures Low32(NewLengthFlags(addrBits, dummyBits)) >> 26 == addrBits - 1
  {
  }

  /**
   * The SPI controller's registers as the C# code addresses them:
   * SPI_REG_BASE plus each offset.  newLengths says whether the chip has
   * the separate MOSI/MISO length registers (SPI_MOSI_DLEN_OFFS is not -1).
   */
  datatype SpiRegs = SpiRegs(cmd: bv32, addr: bv32, usr: bv32, usr1: bv32, usr2: bv32, w0: bv32, mosiDlen: bv32, misoDlen: bv32, newLengths: bool)

  /** The registers of each chip, from the SPI layout table (SPI_CMD at the base, SPI_ADDR at base + 4). */
  function ChipRegs(c: Chip): (r: SpiRegs)
    ensures r.newLengths
  {
    match c
    case Esp32 => SpiRegs(0x3FF4_2000, 0x3FF4_2004, 0x3FF4_201C, 0x3FF4_2020, 0x3FF4_2024, 0x3FF4_2080, 0x3FF4_2028, 0x3FF4_202C, true)
    case Esp32S3 => SpiRegs(0x6000_2000, 0x6000_2004, 0x6000_2018, 0x6000_201C, 0x6000_2020, 0x6000_2058, 0x6000_2024, 0x6000_2028, true)
  }

  /** Each register is the base plus the offset of the chip's SPI layout. */
  lemma ChipRegsFromLayout(c: Chip)
    ensures var l := Spi(c); var r := ChipRegs(c);
      r.cmd == l.base && r.addr == l.base + 4 && r.usr == l.base + l.usr && r.usr1 == l.base + l.usr1 && r.usr2 == l.base + l.usr2 &&
      r.w0 == l.base + l.w0
  {
  }

  /** The two length registers sit at their layout offsets, and their presence selects the new length encoding. */
  lemma ChipLengthRegsFromLayout(c: Chip)
    ensures var l := Spi(c); var r := ChipRegs(c);
      r.mosiDlen as int == l.base as int + l.mosiDlen && r.misoDlen as int == l.base as int + l.misoDlen &&
      (r.newLengths <==> l.mosiDlen != DEFAULT_DLEN_OFFS)
  {
    match c
    case Esp32 =>
      assert ChipRegs(c).mosiDlen as int == 0x3FF4_2028 && ChipRegs(c).misoDlen as int == 0x3FF4_202C;
    case Esp32S3 =>
      assert ChipRegs(c).mosiDlen as int == 0x6000_2024 && ChipRegs(c).misoDlen as int == 0x6000_2028;
  }

  /** SpiSetLengthsAsync's writes: the MOSI and MISO bit lengths less one, each only when nonzero, then USR1 when its flags are nonzero. */
  function NewLengthWrites(r: SpiRegs, mosiBits: bv32, misoBits: bv32, addrBits: bv32, dummyBits: bv32): (t: seq<RegAccess>)
    ensures |t| == (if mosiBits > 0 then 1 else 0) + (if misoBits > 0 then 1 else 0) + (if dummyBits <= 1 && addrBits <= 1 then 0 else 1)
  {
    (if mosiBits > 0 then [WriteWord(r.mosiDlen, mosiBits - 1)] else []) +
    (if misoBits > 0 then [WriteWord(r.misoDlen, misoBits - 1)] else []) +
    (if NewLengthFlags(addrBits, dummyBits) != 0 then [WriteWord(r.usr1, Low32(NewLengthFlags(addrBits, dummyBits)))] else [])
  }

  /**
   * SpiSetLengthsOldAsync's long flags word: MISO length less one from
   * bit 8, MOSI length less one from bit 17, dummy and address as in the
   * new encoding; an absent field counts as 0.
   */
  function OldLengthFlags(mosiBits: bv32, misoBits: bv32, addrBits: bv32, dummyBits: bv32): bv64
  {
    var mosiMask: bv32 := if mosiBits == 0 then 0 else mosiBits - 1;
    var misoMask: bv32 := if misoBits == 0 then 0 else misoBits - 1;
    ((misoMask as bv64) << 8) | ((mosiMask as bv64) << 17) |
    (if dummyBits > 0 then (dummyBits - 1) as bv64 else 0) | (if addrBits > 0 then ((addrBits - 1) as bv64) << 26 else 0)
  }

  /** The old encoding decodes back to its four fields while they fit their slots. */
  lemma OldLengthFields(mosiBits: bv32, misoBits: bv32, addrBits: bv32, dummyBits: bv32)
    requires 0 < mosiBits <= 0x200 && 0 < misoBits <= 0x200 && 0 < dummyBits <= 0x100 && 0 < addrBits <= 64
    ensures var v := Low32(OldLengthFlags(mosiBits, misoBits, addrBits, dummyBits));
      v & 0xFF == dummyBits - 1 && (v >> 8) & 0x1FF == misoBits - 1 && (v >> 17) & 0x1FF == mosiBits - 1 && v >> 26 == addrBits - 1
  {
  }

  /** SpiSetLengthsOldAsync writes its one word to USR1, whatever the lengths. */
  function OldLengthWrites(r: SpiRegs, mosiBits: bv32, misoBits: bv32, addrBits: bv32, dummyBits: bv32): (t: seq<RegAccess>)
    ensures |t| == 1
  {
    [WriteWord(r.usr1, Low32(OldLengthFlags(mosiBits, misoBits, addrBits, dummyBits)))]
  }

  /**
   * The address register's word: the address shifted up by 32 - (int)addr_len
   * as a long, then truncated to 32 bits.  C# takes a long shift count
   * modulo 64, and 32 - addrLen in 32-bit arithmetic has the same low six
   * bits as 32 - (int)addr_len.
   */
  function AddrWord(addr: bv32, addrLen: bv32): bv32
  {
    Low32((addr as bv64) << ((32 - addrLen) & 63))
  }

  /** A 24-bit flash address is left-aligned in the address register, and reads back from its top 24 bits. */
  lemma AddrWord24(addr: bv32)
    requires addr < 0x100_0000
    ensures AddrWord(addr, 24) == addr << 8 && AddrWord(addr, 24) >> 8 == addr
  {
  }

  /** One data word: four bytes, byte-swapped so the first byte goes out first. */
  function DataWord(chunk: seq<byte>): (v: bv32)
    requires |chunk| == 4
    ensures LE32(v) == [chunk[3], chunk[2], chunk[1], chunk[0]]
  {
    LE32OfWord32(chunk);
    SwapBytes32Reverses(Word32(chunk));
    SwapBytes32(Word32(chunk))
  }

  /** The data zero-padded to a whole number of words, as PadTo(data, 4, 0) leaves it. */
  function Pad4(data: seq<byte>): (p: seq<byte>)
    ensures |p| % 4 == 0 && |data| <= |p| < |data| + 4 && p[..|data|] == data
    ensures forall i :: |data| <= i < |p| ==> p[i] == 0
  {
    data + seq((4 - |data| % 4) % 4, _ => 0)
  }

  /** Pad4 is the only padding of data to whole words with fewer than four zero bytes. */
  lemma Pad4Unique(data: seq<byte>, p: seq<byte>)
    requires |data| <= |p| < |data| + 4 && |p| % 4 == 0
    requires p[..|data|] == data && forall i :: |data| <= i < |p| ==> p[i] == 0
    ensures p == Pad4(data)
  {
    var q := Pad4(data);
    assert |p| == |q|;
    assert forall i :: 0 <= i < |data| ==> p[i] == p[..|data|][i] == q[..|data|][i] == q[i];
  }

  /**
   * The data register writes, from register reg on: each word of the
   * padded data in turn, byte-swapped, into consecutive registers.
   */
  function DataWrites(reg: bv32, padded: seq<byte>): (t: seq<RegAccess>)
    requires |padded| % 4 == 0
    ensures |t| == |padded| / 4
    decreases |padded|
  {
    if padded == [] then [] else [WriteWord(reg, DataWord(padded[..4]))] + DataWrites(reg + 4, padded[4..])
  }

  /** A word as the SPI controller shifts it out: most significant byte first. */
  function ShiftedOut(v: bv32): (b: seq<byte>)
    ensures |b| == 4
  {
    [LE32(v)[3], LE32(v)[2], LE32(v)[1], LE32(v)[0]]
  }

  /** The bytes the written words put on the SPI bus, in order. */
  function BusBytes(t: seq<RegAccess>): (b: seq<byte>)
  {
    if t == [] then [] else (if t[0].RegWrite? then ShiftedOut(t[0].value) else []) + BusBytes(t[1..])
  }

  /** The data writes put exactly the padded data on the bus, first byte first. */
  lemma {:induction false} DataWritesCarryData(reg: bv32, padded: seq<byte>)
    requires |padded| % 4 == 0
    ensures BusBytes(DataWrites(reg, padded)) == padded
    decreases |padded|
  {
    if padded != [] {
      var t := DataWrites(reg, padded);
      DataWritesCarryData(reg + 4, padded[4..]);
      assert t[1..] == DataWrites(reg + 4, padded[4..]);
      assert ShiftedOut(DataWord(padded[..4])) == padded[..4];
      assert padded == padded[..4] + padded[4..];
    }
  }

  /** A run of polls of one register. */
  function Polls(address: bv32, n: nat): (t: seq<RegAccess>)
    ensures |t| == n
  {
    if n == 0 then [] else [RegRead(address)] + Polls(address, n - 1)
  }

  /** One more poll, in front. */
  lemma PollsCons(address: bv32, n: nat)
    ensures [RegRead(address)] + Polls(address, n) == Polls(address, n + 1)
  {
  }

  /** The pad configuration word of SpiReadPadsAsync, from the two efuse words. */
  function PadsWord(rdata5: bv32, rdata3: bv32): (p: bv32)
    ensures p & 0x1F == rdata5 & 0x1F
    ensures (p >> 6) & 0x1F == (rdata5 >> 5) & 0x1F
    ensures (p >> 12) & 0x1F == (rdata5 >> 10) & 0x1F
    ensures (p >> 18) & 0x1F == (rdata5 >> 15) & 0x1F
    ensures (p >> 24) & 0x1F == (rdata3 >> 4) & 0x1F
    ensures p & 0xE082_0820 == 0
  {
    var clk := rdata5 & 0x1F;
    var q := (rdata5 >> 5) & 0x1F;
    var d := (rdata5 >> 10) & 0x1F;
    var cs := (rdata5 >> 15) & 0x1F;
    var hd := (rdata3 >> 4) & 0x1F;
    (hd << 24) | (cs << 18) | (d << 12) | (q << 6) | clk
  }

  // The register sequences, as runs over a bus and as methods over the link.
  // A method that issues part of a longer sequence of writes takes the
  // writes that follow it (`rest`) and the commands before it (`done`),
  // and promises Continues of the whole run.

  /** SpiSetLengthsAsync: the new length encoding's writes, in order, each awaited. */
  method SetLengthsNew(link: Link, ghost bus: Bus, ghost rest: seq<RegAccess>, ghost done: seq<RegAccess>,
                       regs: SpiRegs, mosiBits: bv32, misoBits: bv32, addrBits: bv32, dummyBits: bv32, timeout: int)
    returns (r: Result<()>)
    requires link.Valid() && Drives(bus, TargetOf(link, timeout))
    modifies link`port, link.hw, link`incoming, link`waited
    ensures link.Valid()
    ensures var cmds := NewLengthWrites(regs, mosiBits, misoBits, addrBits, dummyBits);
      Continues(AccessesOn(old(WireOf(link)), bus.access, cmds + rest, done), bus.access, r, WireOf(link), rest, done + cmds)
  {
    ghost var cmds := NewLengthWrites(regs, mosiBits, misoBits, addrBits, dummyBits);
    ghost var goal := AccessesOn(WireOf(link), bus.access, cmds + rest, done);
    ghost var mosi := if mosiBits > 0 then [WriteWord(regs.mosiDlen, mosiBits - 1)] else [];
    ghost var miso := if misoBits > 0 then [WriteWord(regs.misoDlen, misoBits - 1)] else [];
    var flags := NewLengthFlags(addrBits, dummyBits);
    ghost var usr1 := if flags != 0 then [WriteWord(regs.usr1, Low32(flags))] else [];
    assert cmds == (mosi + miso) + usr1;
    AppendAssoc(mosi + miso, usr1, rest);
    AppendAssoc(mosi, miso, usr1 + rest);
    AppendAssoc(done, mosi + miso, usr1);
    AppendAssoc(done, mosi, miso);
    r := WriteIf(link, bus, miso + (usr1 + rest), done, mosiBits > 0, regs.mosiDlen, mosiBits - 1, timeout);
    if r.Err? {
      return;
    }
    r := WriteIf(link, bus, usr1 + rest, done + mosi, misoBits > 0, regs.misoDlen, misoBits - 1, timeout);
    if r.Err? {
      return;
    }
    r := WriteIf(link, bus, rest, (done + mosi) + miso, flags != 0, regs.usr1, Low32(flags), timeout);
  }

  /** A write that the C# code makes only under a condition. */
  method WriteIf(link: Link, ghost bus: Bus, ghost rest: seq<RegAccess>, ghost done: seq<RegAccess>, cond: bool, address: bv32, value: bv32, timeout: int)
    returns (r: Result<()>)
    requires link.Valid() && Drives(bus, TargetOf(link, timeout))
    modifies link`port, link.hw, link`incoming, link`waited
    ensures link.Valid()
    ensures var cmds := if cond then [WriteWord(address, value)] else [];
      Continues(AccessesOn(old(WireOf(link)), bus.access, cmds + rest, done), bus.access, r, WireOf(link), rest, done + cmds)
  {
    if cond {
      r := WriteNext(link, bus, rest, done, address, value, timeout);
    } else {
      assert [] + rest == rest && done + [] == done;
      r := Ok(());
    }
  }

  /** SpiSetLengthsOldAsync: one write of the packed lengths. */
  method SetLengthsOld(link: Link, ghost bus: Bus, ghost rest: seq<RegAccess>, ghost done: seq<RegAccess>,
                       regs: SpiRegs, mosiBits: bv32, misoBits: bv32, addrBits: bv32, dummyBits: bv32, timeout: int)
    returns (r: Result<()>)
    requires link.Valid() && Drives(bus, TargetOf(link, timeout))
    modifies link`port, link.hw, link`incoming, link`waited
    ensures link.Valid()
    ensures var cmds := OldLengthWrites(regs, mosiBits, misoBits, addrBits, dummyBits);
      Continues(AccessesOn(old(WireOf(link)), bus.access, cmds + rest, done), bus.access, r, WireOf(link), rest, done + cmds)
  {
    r := WriteNext(link, bus, rest, done, regs.usr1, Low32(OldLengthFlags(mosiBits, misoBits, addrBits, dummyBits)), timeout);
  }

  /** The data words: PadTo(data, 4, 0), then each word byte-swapped into W0, W0+4, ... */
  method WriteData(link: Link, ghost bus: Bus, ghost rest: seq<RegAccess>, ghost done: seq<RegAccess>, w0: bv32, data: seq<byte>, timeout: int)
    returns (r: Result<()>)
    requires data != [] && link.Valid() && Drives(bus, TargetOf(link, timeout))
    modifies link`port, link.hw, link`incoming, link`waited
    ensures link.Valid()
    ensures var cmds := DataWrites(w0, Pad4(data));
      Continues(AccessesOn(old(WireOf(link)), bus.access, cmds + rest, done), bus.access, r, WireOf(link), rest, done + cmds)
  {
    var raw := new byte[|data|](i requires 0 <= i < |data| => data[i]);
    var padded := PadTo(raw, 4, 0);
    assert raw[..] == data;
    Pad4Unique(data, padded[..]);
    r := WriteWords(link, bus, rest, done, w0, padded, timeout);
  }

  /** The loop of the data phase: word i of the padded data goes to register w0 + 4i, until a write fails. */
  method WriteWords(link: Link, ghost bus: Bus, ghost rest: seq<RegAccess>, ghost done: seq<RegAccess>, w0: bv32, padded: array<byte>, timeout: int)
    returns (r: Result<()>)
    requires padded.Length % 4 == 0 && link.Valid() && Drives(bus, TargetOf(link, timeout))
    modifies link`port, link.hw, link`incoming, link`waited
    ensures link.Valid()
    ensures var cmds := DataWrites(w0, padded[..]);
      Continues(AccessesOn(old(WireOf(link)), bus.access, cmds + rest, done), bus.access, r, WireOf(link), rest, done + cmds)
  {
    var words := padded[..];
    ghost var goal := AccessesOn(WireOf(link), bus.access, DataWrites(w0, words) + rest, done);
    ghost var sent := done;
    var nextReg := w0;
    var i := 0;
    assert words[i..] == words;
    while i < |words|
      invariant 0 <= i <= |words| && (|words| - i) % 4 == 0
      invariant link.Valid()
      invariant goal == AccessesOn(WireOf(link), bus.access, DataWrites(nextReg, words[i..]) + rest, sent)
      invariant sent + DataWrites(nextReg, words[i..]) == done + DataWrites(w0, words)
      decreases |words| - i
    {
      var val := SwapBytes32(Word32(words[i..i + 4]));
      DataWritesStep(sent, rest, nextReg, words, i);
      r := WriteNext(link, bus, DataWrites(nextReg + 4, words[i + 4..]) + rest, sent, nextReg, val, timeout);
      sent := sent + [WriteWord(nextReg, val)];
      if r.Err? {
        return;
      }
      nextReg := nextReg + 4;
      i := i + 4;
    }
    assert words[i..] == [] && DataWrites(nextReg, words[i..]) == [];
    assert [] + rest == rest && sent + [] == sent;
    return Ok(());
  }

  /** One step of the data writes: the word at i, then the rest from the next register. */
  lemma DataWritesStep(log: seq<RegAccess>, rest: seq<RegAccess>, reg: bv32, padded: seq<byte>, i: nat)
    requires i + 4 <= |padded| && (|padded| - i) % 4 == 0
    ensures var x := WriteWord(reg, SwapBytes32(Word32(padded[i..i + 4])));
      DataWrites(reg, padded[i..]) + rest == [x] + (DataWrites(reg + 4, padded[i + 4..]) + rest) &&
      (log + [x]) + DataWrites(reg + 4, padded[i + 4..]) == log + DataWrites(reg, padded[i..])
  {
    assert padded[i..][..4] == padded[i..i + 4] && padded[i..][4..] == padded[i + 4..];
  }

  /**
   * SpiWaitDoneAsync over a bus: read SPI_CMD at most n more times until
   * the user-command bit reads clear.  A read that fails ends the wait
   * with its fault; n busy reads end it with TimeoutException.
   */
  function PollOn(w: Wire, bus: Bus, reg: bv32, n: nat, done: seq<RegAccess>): (run: Run<()>)
    decreases n
  {
    if n == 0 then Run(Err(Timeout), w, done)
    else
      var s := ReadStep(bus, w, reg);
      var done' := done + [RegRead(reg)];
      if s.result.Err? then Run(Err(s.result.fault), s.wire, done')
      else if s.result.value & SPI_CMD_USR == 0 then Run(Ok(()), s.wire, done')
      else PollOn(s.wire, bus, reg, n - 1, done')
  }

  /** SpiWaitDoneAsync: polls SPI_CMD until the user-command bit clears, at most 10 times. */
  method WaitDone(link: Link, ghost bus: Bus, ghost done: seq<RegAccess>, regs: SpiRegs, timeout: int) returns (r: Result<()>)
    requires link.Valid() && Drives(bus, TargetOf(link, timeout))
    modifies link`port, link.hw, link`incoming, link`waited
    ensures link.Valid()
    ensures var run := PollOn(old(WireOf(link)), bus, regs.cmd, 10, done);
      r == run.result && WireOf(link) == run.wire
  {
    ghost var goal := PollOn(WireOf(link), bus, regs.cmd, 10, done);
    ghost var polled := done;
    var retr := 0;
    while retr < 10
      invariant 0 <= retr <= 10 && link.Valid()
      invariant goal == PollOn(WireOf(link), bus, regs.cmd, 10 - retr, polled)
    {
      var v := BusRead(link, bus, regs.cmd, timeout);
      polled := polled + [RegRead(regs.cmd)];
      if v.Err? {
        return Err(v.fault);
      }
      if v.value & SPI_CMD_USR == 0 {
        return Ok(());
      }
      retr := retr + 1;
    }
    return Err(Timeout);
  }

  /** SpiReadPadsAsync over a bus: reads efuse words RDATA5 then RDATA3 and packs the five pad fields. */
  function ReadPadsOn(w: Wire, bus: Bus, done: seq<RegAccess>): (run: Run<bv32>)
  {
    var rdata5 := ReadRun(w, bus, EfuseRData5(Esp32), done);
    var rdata3 := ReadRun(rdata5.wire, bus, EfuseRData3(Esp32), rdata5.trace);
    Then(rdata5, Giving(rdata3, PadsWord(Value(rdata5), Value(rdata3))))
  }

  /** SpiReadPadsAsync on an ESP32. */
  method ReadPads(link: Link, ghost bus: Bus, ghost done: seq<RegAccess>, timeout: int) returns (r: Result<bv32>)
    requires link.Valid() && Drives(bus, TargetOf(link, timeout))
    modifies link`port, link.hw, link`incoming, link`waited
    ensures link.Valid()
    ensures var run := ReadPadsOn(old(WireOf(link)), bus, done);
      r == run.result && WireOf(link) == run.wire
  {
    var rdata5 := BusRead(link, bus, EfuseRData5(Esp32), timeout);
    if rdata5.Err? {
      return Err(rdata5.fault);
    }
    var rdata3 := BusRead(link, bus, EfuseRData3(Esp32), timeout);
    if rdata3.Err? {
      return Err(rdata3.fault);
    }
    r := Ok(PadsWord(rdata5.value, rdata3.value));
  }

  /** The SPI_ATTACH payload: {hspi_arg, 0} for the ROM, which takes an extra word, and {hspi_arg} for the stub. */
  function AttachPayload(isStub: bool, hspiArg: bv32): (d: seq<byte>)
    ensures |d| == if isStub then 4 else 8
    ensures Word32(d[0..4]) == hspiArg && (!isStub ==> Word32(d[4..8]) == 0)
  {
    Word32OfLE32(hspiArg);
    Word32OfLE32(0);
    if isStub then LE32(hspiArg) else LE32(hspiArg) + LE32(0)
  }

  /**
   * SpiFlashAttachAsync on the wire: nothing once attached; otherwise the
   * status-checked SPI_ATTACH command.  The device opcode is read after
   * the payload is built, so without a device it is NullReferenceException.
   */
  function AttachOn(w: Wire, present: bool, device: Option<Descriptor>, isStub: bool, attached: bool, hspiArg: bv32, timeout: int): (s: Step<()>)
    ensures attached ==> s == Step(Ok(()), w)
  {
    if attached then Step(Ok(()), w)
    else if device.None? then Step(Err(NullReference), w)
    else
      var c := CheckOn(w, present, device, isStub, ESP_SPI_ATTACH as int, AttachPayload(isStub, hspiArg), 0, timeout);
      Step(if c.result.Err? then Err(c.result.fault) else Ok(()), c.wire)
  }

  /** SpiFlashAttachAsync: the flag is set only once the command has gone through. */
  method SpiFlashAttach(link: Link, hspiArg: bv32, timeout: int) returns (r: Result<()>)
    requires link.Valid()
    modifies link`port, link.hw, link`incoming, link`waited, link`spiAttached
    ensures link.Valid()
    ensures Step(r, WireOf(link)) == AttachOn(old(WireOf(link)), link.hw.present, link.device, link.isStub, old(link.spiAttached), hspiArg, timeout)
    ensures link.spiAttached <==> r.Ok?
  {
    if link.spiAttached {
      return Ok(());
    }
    var data := AttachPayload(link.isStub, hspiArg);
    if link.device.None? {
      return Err(NullReference);
    }
    ghost var w := WireOf(link);
    var c := CheckCommand(link, ESP_SPI_ATTACH as int, data, 0, timeout);
    assert Step(c, WireOf(link)) == CheckOn(w, link.hw.present, link.device, link.isStub, ESP_SPI_ATTACH as int, data, 0, timeout);
    if c.Err? {
      return Err(c.fault);
    }
    ghost var after := WireOf(link);
    link.spiAttached := true;
    assert WireOf(link) == after;
    return Ok(());
  }

  /** C#'s (uint)(data.Length * 8) for data of at most 64 bytes. */
  function DataBits(data: seq<byte>): bv32
    requires |data| <= 64
  {
    U32(|data| * 8)
  }

  /**
   * The writes that configure a user command: the lengths (in the
   * chip's encoding), the phase flags to USR, the 8-bit command to USR2,
   * the left-aligned address when there is one, and the data words (or
   * a cleared W0 when there is no data).
   */
  function ConfigWrites(regs: SpiRegs, cmd: byte, data: seq<byte>, readBits: bv32, addr: bv32, addrLen: bv32, dummyLen: bv32): (t: seq<RegAccess>)
    requires |data| <= 64
  {
    var dataBits := DataBits(data);
    (if regs.newLengths then NewLengthWrites(regs, dataBits, readBits, addrLen, dummyLen)
     else OldLengthWrites(regs, dataBits, readBits, addrLen, dummyLen)) +
    ([WriteWord(regs.usr, UserFlags(readBits, dataBits, addrLen, dummyLen)), WriteWord(regs.usr2, (7 << 28) | cmd as bv32)] +
     OperandWrites(regs, addr, addrLen, data))
  }

  /**
   * The end of a user command over a bus: wait for SPI_CMD, read W0,
   * write back the saved USR and USR2, and give W0 byte-swapped.
   */
  function FinishOn(w: Wire, bus: Bus, regs: SpiRegs, oldUsr: bv32, oldUsr2: bv32, done: seq<RegAccess>): (run: Run<bv32>)
  {
    var poll := PollOn(w, bus, regs.cmd, 10, done);
    var status := ReadRun(poll.wire, bus, regs.w0, poll.trace);
    var restore := AccessesOn(status.wire, bus.access, [WriteWord(regs.usr, oldUsr), WriteWord(regs.usr2, oldUsr2)], status.trace);
    Then(poll, Then(status, Giving(restore, SwapBytes32(Value(status)))))
  }

  /**
   * The register part of SpiFlashCommandAsync over a bus: save USR and
   * USR2, configure, start the command, then finish it.  Each step runs
   * only if the one before it succeeded.
   */
  function UserCommandOn(w: Wire, bus: Bus, regs: SpiRegs, cmd: byte, data: seq<byte>, readBits: bv32, addr: bv32, addrLen: bv32, dummyLen: bv32,
                         done: seq<RegAccess>): (run: Run<bv32>)
    requires |data| <= 64
  {
    var usr := ReadRun(w, bus, regs.usr, done);
    var usr2 := ReadRun(usr.wire, bus, regs.usr2, usr.trace);
    var start := AccessesOn(usr2.wire, bus.access, ConfigWrites(regs, cmd, data, readBits, addr, addrLen, dummyLen) + [WriteWord(regs.cmd, SPI_CMD_USR)], usr2.trace);
    Then(usr, Then(usr2, Then(start, FinishOn(start.wire, bus, regs, Value(usr), Value(usr2), start.trace))))
  }

  /** The configuring part of SpiFlashCommandAsync, from the lengths to the data. */
  method Configure(link: Link, ghost bus: Bus, ghost rest: seq<RegAccess>, ghost done: seq<RegAccess>,
                   regs: SpiRegs, cmd: byte, data: seq<byte>, readBits: bv32, addr: bv32, addrLen: bv32, dummyLen: bv32, timeout: int)
    returns (r: Result<()>)
    requires |data| <= 64 && link.Valid() && Drives(bus, TargetOf(link, timeout))
    modifies link`port, link.hw, link`incoming, link`waited
    ensures link.Valid()
    ensures var cmds := ConfigWrites(regs, cmd, data, readBits, addr, addrLen, dummyLen);
      Continues(AccessesOn(old(WireOf(link)), bus.access, cmds + rest, done), bus.access, r, WireOf(link), rest, done + cmds)
  {
    var dataBits := DataBits(data);
    var flags := UserFlags(readBits, dataBits, addrLen, dummyLen);
    var usr2 := (7 << 28) | cmd as bv32;
    ghost var lengths := if regs.newLengths then NewLengthWrites(regs, dataBits, readBits, addrLen, dummyLen)
                         else OldLengthWrites(regs, dataBits, readBits, addrLen, dummyLen);
    ghost var phases := [WriteWord(regs.usr, flags), WriteWord(regs.usr2, usr2)] + OperandWrites(regs, addr, addrLen, data);
    ghost var after := phases + rest;
    assert ConfigWrites(regs, cmd, data, readBits, addr, addrLen, dummyLen) == lengths + phases;
    AppendAssoc(lengths, phases, rest);
    AppendAssoc(done, lengths, phases);
    if regs.newLengths {
      r := SetLengthsNew(link, bus, after, done, regs, dataBits, readBits, addrLen, dummyLen, timeout);
    } else {
      r := SetLengthsOld(link, bus, after, done, regs, dataBits, readBits, addrLen, dummyLen, timeout);
    }
    if r.Err? {
      return;
    }
    r := WritePhases(link, bus, rest, done + lengths, regs, flags, usr2, addr, addrLen, data, timeout);
  }

  /** The phase flags to USR and the command word to USR2, then the address and the data. */
  method WritePhases(link: Link, ghost bus: Bus, ghost rest: seq<RegAccess>, ghost done: seq<RegAccess>,
                     regs: SpiRegs, flags: bv32, usr2: bv32, addr: bv32, addrLen: bv32, data: seq<byte>, timeout: int)
    returns (r: Result<()>)
    requires |data| <= 64 && link.Valid() && Drives(bus, TargetOf(link, timeout))
    modifies link`port, link.hw, link`incoming, link`waited
    ensures link.Valid()
    ensures var cmds := [WriteWord(regs.usr, flags), WriteWord(regs.usr2, usr2)] + OperandWrites(regs, addr, addrLen, data);
      Continues(AccessesOn(old(WireOf(link)), bus.access, cmds + rest, done), bus.access, r, WireOf(link), rest, done + cmds)
  {
    ghost var operands := OperandWrites(regs, addr, addrLen, data);
    ghost var one := [WriteWord(regs.usr, flags)];
    ghost var two := [WriteWord(regs.usr2, usr2)];
    assert [WriteWord(regs.usr, flags), WriteWord(regs.usr2, usr2)] == one + two;
    AppendAssoc(one + two, operands, rest);
    AppendAssoc(one, two, operands + rest);
    AppendAssoc(done, one + two, operands);
    AppendAssoc(done, one, two);
    r := WriteNext(link, bus, [WriteWord(regs.usr2, usr2)] + (operands + rest), done, regs.usr, flags, timeout);
    if r.Err? {
      return;
    }
    r := WriteNext(link, bus, operands + rest, done + [WriteWord(regs.usr, flags)], regs.usr2, usr2, timeout);
    if r.Err? {
      return;
    }
    r := WriteOperands(link, bus, rest, (done + [WriteWord(regs.usr, flags)]) + [WriteWord(regs.usr2, usr2)], regs, addr, addrLen, data, timeout);
  }

  /** The address write, when there is an address, then the data words (or a cleared W0 when there is no data). */
  function OperandWrites(regs: SpiRegs, addr: bv32, addrLen: bv32, data: seq<byte>): (t: seq<RegAccess>)
    requires |data| <= 64
  {
    (if addrLen > 0 then [WriteWord(regs.addr, AddrWord(addr, addrLen))] else []) +
    (if data == [] then [WriteWord(regs.w0, 0)] else DataWrites(regs.w0, Pad4(data)))
  }

  /** The address and data phase of the configuration. */
  method WriteOperands(link: Link, ghost bus: Bus, ghost rest: seq<RegAccess>, ghost done: seq<RegAccess>,
                       regs: SpiRegs, addr: bv32, addrLen: bv32, data: seq<byte>, timeout: int)
    returns (r: Result<()>)
    requires |data| <= 64 && link.Valid() && Drives(bus, TargetOf(link, timeout))
    modifies link`port, link.hw, link`incoming, link`waited
    ensures link.Valid()
    ensures var cmds := OperandWrites(regs, addr, addrLen, data);
      Continues(AccessesOn(old(WireOf(link)), bus.access, cmds + rest, done), bus.access, r, WireOf(link), rest, done + cmds)
  {
    ghost var address := if addrLen > 0 then [WriteWord(regs.addr, AddrWord(addr, addrLen))] else [];
    ghost var words := if data == [] then [WriteWord(regs.w0, 0)] else DataWrites(regs.w0, Pad4(data));
    assert OperandWrites(regs, addr, addrLen, data) == address + words;
    AppendAssoc(address, words, rest);
    AppendAssoc(done, address, words);
    r := WriteIf(link, bus, words + rest, done, addrLen > 0, regs.addr, AddrWord(addr, addrLen), timeout);
    if r.Err? {
      return;
    }
    if data == [] {
      r := WriteNext(link, bus, rest, done + address, regs.w0, 0, timeout);
    } else {
      r := WriteData(link, bus, rest, done + address, regs.w0, data, timeout);
    }
  }

  /** The end of the register part of SpiFlashCommandAsync, on the link. */
  method Finish(link: Link, ghost bus: Bus, ghost done: seq<RegAccess>, regs: SpiRegs, oldUsr: bv32, oldUsr2: bv32, timeout: int) returns (r: Result<bv32>)
    requires link.Valid() && Drives(bus, TargetOf(link, timeout))
    modifies link`port, link.hw, link`incoming, link`waited
    ensures link.Valid()
    ensures var run := FinishOn(old(WireOf(link)), bus, regs, oldUsr, oldUsr2, done);
      r == run.result && WireOf(link) == run.wire
  {
    ghost var poll := PollOn(WireOf(link), bus, regs.cmd, 10, done);
    var p := WaitDone(link, bus, done, regs, timeout);
    if p.Err? {
      return Err(p.fault);
    }
    var status := BusRead(link, bus, regs.w0, timeout);
    if status.Err? {
      return Err(status.fault);
    }
    var x := Restore(link, bus, poll.trace + [RegRead(regs.w0)], regs, oldUsr, oldUsr2, timeout);
    if x.Err? {
      return Err(x.fault);
    }
    r := Ok(SwapBytes32(status.value));
  }

  /** The writes that put back the saved USR and USR2 words. */
  method Restore(link: Link, ghost bus: Bus, ghost done: seq<RegAccess>, regs: SpiRegs, oldUsr: bv32, oldUsr2: bv32, timeout: int) returns (r: Result<()>)
    requires link.Valid() && Drives(bus, TargetOf(link, timeout))
    modifies link`port, link.hw, link`incoming, link`waited
    ensures link.Valid()
    ensures var run := AccessesOn(old(WireOf(link)), bus.access, [WriteWord(regs.usr, oldUsr), WriteWord(regs.usr2, oldUsr2)], done);
      r == run.result && WireOf(link) == run.wire
  {
    assert [WriteWord(regs.usr, oldUsr), WriteWord(regs.usr2, oldUsr2)] == [WriteWord(regs.usr, oldUsr)] + [WriteWord(regs.usr2, oldUsr2)];
    assert [WriteWord(regs.usr2, oldUsr2)] == [WriteWord(regs.usr2, oldUsr2)] + [];
    r := WriteNext(link, bus, [WriteWord(regs.usr2, oldUsr2)], done, regs.usr, oldUsr, timeout);
    if r.Err? {
      return;
    }
    r := WriteNext(link, bus, [], done + [WriteWord(regs.usr, oldUsr)], regs.usr2, oldUsr2, timeout);
    UnitIdentity(r);
  }

  /** The register part of SpiFlashCommandAsync, step by step. */
  method UserCommand(link: Link, ghost bus: Bus, ghost done: seq<RegAccess>,
                     regs: SpiRegs, cmd: byte, data: seq<byte>, readBits: bv32, addr: bv32, addrLen: bv32, dummyLen: bv32, timeout: int)
    returns (r: Result<bv32>)
    requires |data| <= 64 && link.Valid() && Drives(bus, TargetOf(link, timeout))
    modifies link`port, link.hw, link`incoming, link`waited
    ensures link.Valid()
    ensures var run := UserCommandOn(old(WireOf(link)), bus, regs, cmd, data, readBits, addr, addrLen, dummyLen, done);
      r == run.result && WireOf(link) == run.wire
  {
    var oldUsr := BusRead(link, bus, regs.usr, timeout);
    if oldUsr.Err? {
      return Err(oldUsr.fault);
    }
    var oldUsr2 := BusRead(link, bus, regs.usr2, timeout);
    if oldUsr2.Err? {
      return Err(oldUsr2.fault);
    }
    r := Execute(link, bus, done + [RegRead(regs.usr)] + [RegRead(regs.usr2)], regs, cmd, data, readBits, addr, addrLen, dummyLen,
                 oldUsr.value, oldUsr2.value, timeout);
  }

  /**
   * The user command after USR and USR2 were saved: configure, set the
   * start bit in SPI_CMD, then finish.
   */
  method Execute(link: Link, ghost bus: Bus, ghost done: seq<RegAccess>,
                 regs: SpiRegs, cmd: byte, data: seq<byte>, readBits: bv32, addr: bv32, addrLen: bv32, dummyLen: bv32,
                 oldUsr: bv32, oldUsr2: bv32, timeout: int)
    returns (r: Result<bv32>)
    requires |data| <= 64 && link.Valid() && Drives(bus, TargetOf(link, timeout))
    modifies link`port, link.hw, link`incoming, link`waited
    ensures link.Valid()
    ensures var start := AccessesOn(old(WireOf(link)), bus.access, ConfigWrites(regs, cmd, data, readBits, addr, addrLen, dummyLen) + [WriteWord(regs.cmd, SPI_CMD_USR)], done);
      var run := Then(start, FinishOn(start.wire, bus, regs, oldUsr, oldUsr2, start.trace));
      r == run.result && WireOf(link) == run.wire
  {
    ghost var config := ConfigWrites(regs, cmd, data, readBits, addr, addrLen, dummyLen);
    var c := Configure(link, bus, [WriteWord(regs.cmd, SPI_CMD_USR)], done, regs, cmd, data, readBits, addr, addrLen, dummyLen, timeout);
    if c.Err? {
      return Err(c.fault);
    }
    assert [WriteWord(regs.cmd, SPI_CMD_USR)] == [WriteWord(regs.cmd, SPI_CMD_USR)] + [];
    c := WriteNext(link, bus, [], done + config, regs.cmd, SPI_CMD_USR, timeout);
    if c.Err? {
      return Err(c.fault);
    }
    r := Finish(link, bus, done + config + [WriteWord(regs.cmd, SPI_CMD_USR)], regs, oldUsr, oldUsr2, timeout);
  }

  // The whole of SpiFlashCommandAsync: attaching, checking, running.

  /** A step of the flash command: its outcome, the wire, the attached flag and the register commands issued. */
  datatype Outcome<T> = Outcome(result: Result<T>, wire: Wire, attached: bool, trace: seq<RegAccess>)

  /** C#'s (byte) cast leaves the SPI_ATTACH opcode as it is. */
  lemma AttachOpcodeByte()
    ensures ByteOf(ESP_SPI_ATTACH as int) == ESP_SPI_ATTACH
  {
    var b := ByteFor(0x0D);
    assert (b as int) as byte == b;
  }

  /** With a device and a port that opens, an attach that is due sends exactly one frame: SPI_ATTACH with its payload. */
  lemma AttachSendsOneFrame(w: Wire, present: bool, device: Option<Descriptor>, isStub: bool, hspiArg: bv32, timeout: int)
    requires device.Some? && (w.open || present)
    ensures AttachOn(w, present, device, isStub, false, hspiArg, timeout).wire.sent ==
      w.sent + [Frame(PacketBytes(ESP_SPI_ATTACH, AttachPayload(isStub, hspiArg), 0))]
  {
    AttachOpcodeByte();
    CheckOnSends(w, present, device, isStub, ESP_SPI_ATTACH as int, AttachPayload(isStub, hspiArg), 0, timeout);
  }

  /**
   * The first attach of SpiFlashCommandAsync: under the ROM of an ESP32
   * that is not attached yet, the pad configuration is read from the
   * efuses and passed to SPI_ATTACH.  Looking at the chip name without a
   * device is a NullReferenceException.
   */
  function PadsAttachOn(w: Wire, t: Target, bus: Bus, attached: bool, done: seq<RegAccess>): (o: Outcome<()>)
  {
    if attached || t.isStub then Outcome(Ok(()), w, attached, done)
    else if t.device.None? then Outcome(Err(NullReference), w, attached, done)
    else if t.device.value.chip != Esp32 then Outcome(Ok(()), w, attached, done)
    else
      var pads := ReadPadsOn(w, bus, done);
      if pads.result.Err? then Outcome(Err(pads.result.fault), pads.wire, attached, pads.trace)
      else
        var a := AttachOn(pads.wire, t.present, t.device, t.isStub, false, pads.result.value, t.timeout);
        Outcome(a.result, a.wire, a.result.Ok?, pads.trace)
  }

  /**
   * The two attaches of SpiFlashCommandAsync: the pad attach, then the
   * fallback attach with argument 0, which does nothing once attached.
   */
  function AttachPhaseOn(w: Wire, t: Target, bus: Bus, attached: bool, done: seq<RegAccess>): (o: Outcome<()>)
  {
    var first := PadsAttachOn(w, t, bus, attached, done);
    if first.result.Err? then first
    else
      var second := AttachOn(first.wire, t.present, t.device, t.isStub, first.attached, 0, t.timeout);
      Outcome(second.result, second.wire, second.result.Ok?, first.trace)
  }

  /**
   * The part of SpiFlashCommandAsync after the attaches: the argument
   * checks (read_bits above 32, data above 64 bytes), then the register
   * sequence on the device's SPI controller.
   */
  function CheckedRun(w: Wire, device: Option<Descriptor>, bus: Bus,
                      cmd: byte, data: seq<byte>, readBits: bv32, addr: bv32, addrLen: bv32, dummyLen: bv32, done: seq<RegAccess>): (run: Run<bv32>)
  {
    if readBits > 32 then Run(Err(ArgumentOutOfRange), w, done)
    else if |data| > 64 then Run(Err(ArgumentFault), w, done)
    else if device.None? then Run(Err(NullReference), w, done)
    else UserCommandOn(w, bus, ChipRegs(device.value.chip), cmd, data, readBits, addr, addrLen, dummyLen, done)
  }

  /** SpiFlashCommandAsync on the wire: the attaches, then the checked run. */
  function SpiCommandOn(w: Wire, t: Target, bus: Bus, attached: bool,
                        cmd: byte, data: seq<byte>, readBits: bv32, addr: bv32, addrLen: bv32, dummyLen: bv32): (o: Outcome<bv32>)
  {
    var a := AttachPhaseOn(w, t, bus, attached, []);
    if a.result.Err? then Outcome(Err(a.result.fault), a.wire, a.attached, a.trace)
    else
      var run := CheckedRun(a.wire, t.device, bus, cmd, data, readBits, addr, addrLen, dummyLen, a.trace);
      Outcome(run.result, run.wire, true, run.trace)
  }

  /** The first attach of SpiFlashCommandAsync, on the link. */
  method PadsAttach(link: Link, ghost bus: Bus, timeout: int) returns (r: Result<()>)
    requires link.Valid() && Drives(bus, TargetOf(link, timeout))
    modifies link`port, link.hw, link`incoming, link`waited, link`spiAttached
    ensures link.Valid()
    ensures var o := PadsAttachOn(old(WireOf(link)), TargetOf(link, timeout), bus, old(link.spiAttached), []);
      r == o.result && WireOf(link) == o.wire && link.spiAttached == o.attached
  {
    if link.spiAttached || link.isStub {
      return Ok(());
    }
    if link.device.None? {
      return Err(NullReference);
    }
    if link.device.value.chip != Esp32 {
      return Ok(());
    }
    var pads := ReadPads(link, bus, [], timeout);
    if pads.Err? {
      return Err(pads.fault);
    }
    r := SpiFlashAttach(link, pads.value, timeout);
  }

  /** Both attaches of SpiFlashCommandAsync, on the link. */
  method AttachPhase(link: Link, ghost bus: Bus, timeout: int) returns (r: Result<()>)
    requires link.Valid() && Drives(bus, TargetOf(link, timeout))
    modifies link`port, link.hw, link`incoming, link`waited, link`spiAttached
    ensures link.Valid()
    ensures var o := AttachPhaseOn(old(WireOf(link)), TargetOf(link, timeout), bus, old(link.spiAttached), []);
      r == o.result && WireOf(link) == o.wire && link.spiAttached == o.attached
  {
    r := PadsAttach(link, bus, timeout);
    if r.Ok? {
      r := SpiFlashAttach(link, 0, timeout);
    }
  }

  /** The checks and the register sequence of SpiFlashCommandAsync, on the link. */
  method RunChecked(link: Link, ghost bus: Bus, ghost done: seq<RegAccess>,
                    cmd: byte, data: seq<byte>, readBits: bv32, addr: bv32, addrLen: bv32, dummyLen: bv32, timeout: int)
    returns (r: Result<bv32>)
    requires link.Valid() && Drives(bus, TargetOf(link, timeout))
    modifies link`port, link.hw, link`incoming, link`waited
    ensures link.Valid()
    ensures var run := CheckedRun(old(WireOf(link)), link.device, bus, cmd, data, readBits, addr, addrLen, dummyLen, done);
      r == run.result && WireOf(link) == run.wire
  {
    if readBits > 32 {
      return Err(ArgumentOutOfRange);
    }
    if |data| > 64 {
      return Err(ArgumentFault);
    }
    if link.device.None? {
      return Err(NullReference);
    }
    r := UserCommand(link, bus, done, ChipRegs(link.device.value.chip), cmd, data, readBits, addr, addrLen, dummyLen, timeout);
  }

  /**
   * SpiFlashCommandAsync: attach, check, run.  `bus` is the link's
   * register commands with this timeout (BusOf(TargetOf(link, timeout))
   * is one).
   */
  method SpiFlashCommand(link: Link, ghost bus: Bus, cmd: byte, data: seq<byte>, readBits: bv32, addr: bv32, addrLen: bv32, dummyLen: bv32, timeout: int)
    returns (r: Result<bv32>)
    requires link.Valid() && Drives(bus, TargetOf(link, timeout))
    modifies link`port, link.hw, link`incoming, link`waited, link`spiAttached
    ensures link.Valid()
    ensures var o := SpiCommandOn(old(WireOf(link)), TargetOf(link, timeout), bus, old(link.spiAttached), cmd, data, readBits, addr, addrLen, dummyLen);
      r == o.result && WireOf(link) == o.wire && link.spiAttached == o.attached
  {
    ghost var a := AttachPhaseOn(WireOf(link), TargetOf(link, timeout), bus, link.spiAttached, []);
    var x := AttachPhase(link, bus, timeout);
    if x.Err? {
      return Err(x.fault);
    }
    r := RunChecked(link, bus, a.trace, cmd, data, readBits, addr, addrLen, dummyLen, timeout);
  }

  // Properties of the wait.

  /** The wait reads SPI_CMD once per round: at least once when it may poll at all, and at most n times. */
  lemma {:induction false} PollOnTrace(w: Wire, bus: Bus, reg: bv32, n: nat, done: seq<RegAccess>)
    ensures var run := PollOn(w, bus, reg, n, done); var k := |run.trace| - |done|;
      |done| <= |run.trace| && k <= n && (n > 0 ==> k > 0) && run.trace == done + Polls(reg, k)
    decreases n
  {
    if n == 0 {
      assert done + Polls(reg, 0) == done;
    } else {
      var s := ReadStep(bus, w, reg);
      var done' := done + [RegRead(reg)];
      if s.result.Ok? && s.result.value & SPI_CMD_USR != 0 {
        PollOnTrace(s.wire, bus, reg, n - 1, done');
        var k := |PollOn(s.wire, bus, reg, n - 1, done').trace| - |done'|;
        assert done' + Polls(reg, k) == done + Polls(reg, k + 1);
      } else {
        assert done' == done + Polls(reg, 1);
      }
    }
  }

  /** The first |vs| reads of reg on the bus, starting from w, all succeed and give vs in order. */
  ghost predicate ReadsGive(bus: Bus, w: Wire, reg: bv32, vs: seq<bv32>)
    decreases |vs|
  {
    vs == [] || (var s := ReadStep(bus, w, reg); s.result == Ok(vs[0]) && ReadsGive(bus, s.wire, reg, vs[1..]))
  }

  /** The wire after n reads of reg. */
  ghost function WireAfter(bus: Bus, w: Wire, reg: bv32, n: nat): Wire
    decreases n
  {
    if n == 0 then w else WireAfter(bus, ReadStep(bus, w, reg).wire, reg, n - 1)
  }

  /** Every value read before position k still has the user-command bit set. */
  predicate BusyBefore(vs: seq<bv32>, k: nat)
    requires k <= |vs|
  {
    forall i :: 0 <= i < k ==> vs[i] & SPI_CMD_USR != 0
  }

  /**
   * The wait ends well on round k, for any k from 1 to n, when the k - 1
   * reads before it still show the start bit and the k-th shows it clear:
   * exactly k reads of SPI_CMD are made.
   */
  lemma {:induction false} PollSucceedsAt(w: Wire, bus: Bus, reg: bv32, n: nat, vs: seq<bv32>, done: seq<RegAccess>)
    requires 1 <= |vs| <= n && ReadsGive(bus, w, reg, vs)
    requires BusyBefore(vs, |vs| - 1) && vs[|vs| - 1] & SPI_CMD_USR == 0
    ensures PollOn(w, bus, reg, n, done) == Run(Ok(()), WireAfter(bus, w, reg, |vs|), done + Polls(reg, |vs|))
    decreases n
  {
    var s := ReadStep(bus, w, reg);
    var done' := done + [RegRead(reg)];
    if |vs| == 1 {
      assert s.result == Ok(vs[0]);
      assert WireAfter(bus, s.wire, reg, 0) == s.wire;
    } else {
      assert s.result == Ok(vs[0]) && vs[0] & SPI_CMD_USR != 0;
      assert PollOn(w, bus, reg, n, done) == PollOn(s.wire, bus, reg, n - 1, done');
      var vs' := vs[1..];
      assert BusyBefore(vs', |vs'| - 1) by {
        forall i | 0 <= i < |vs'| - 1 ensures vs'[i] & SPI_CMD_USR != 0 {
          assert vs'[i] == vs[i + 1];
        }
      }
      PollSucceedsAt(s.wire, bus, reg, n - 1, vs', done');
      AppendAssoc(done, [RegRead(reg)], Polls(reg, |vs'|));
      PollsCons(reg, |vs'|);
    }
  }

  /** When all n reads still show the start bit, the wait fails with TimeoutException after n reads. */
  lemma {:induction false} PollTimesOut(w: Wire, bus: Bus, reg: bv32, vs: seq<bv32>, done: seq<RegAccess>)
    requires ReadsGive(bus, w, reg, vs) && BusyBefore(vs, |vs|)
    ensures PollOn(w, bus, reg, |vs|, done) == Run(Err(Timeout), WireAfter(bus, w, reg, |vs|), done + Polls(reg, |vs|))
    decreases |vs|
  {
    if vs == [] {
      assert done + Polls(reg, 0) == done;
    } else {
      var s := ReadStep(bus, w, reg);
      var done' := done + [RegRead(reg)];
      assert s.result == Ok(vs[0]) && vs[0] & SPI_CMD_USR != 0;
      assert PollOn(w, bus, reg, |vs|, done) == PollOn(s.wire, bus, reg, |vs| - 1, done');
      var vs' := vs[1..];
      assert BusyBefore(vs', |vs'|) by {
        forall i | 0 <= i < |vs'| ensures vs'[i] & SPI_CMD_USR != 0 {
          assert vs'[i] == vs[i + 1];
        }
      }
      PollTimesOut(s.wire, bus, reg, vs', done');
      AppendAssoc(done, [RegRead(reg)], Polls(reg, |vs'|));
      PollsCons(reg, |vs'|);
    }
  }

  /** A READ_REG reply with a zero status word and value v. */
  function RegReply(v: bv32): seq<byte>
  {
    Frame(PacketBytes(ESP_READ_REG, [0, 0], v))
  }

  /** n copies of a request frame, as the port's list of written frames holds them. */
  function Copies(frame: seq<byte>, n: nat): (r: seq<seq<byte>>)
    ensures |r| == n
  {
    if n == 0 then [] else [frame] + Copies(frame, n - 1)
  }

  /** The READ_REG replies carrying vs, one after the other. */
  function Replies(vs: seq<bv32>): seq<byte>
    decreases |vs|
  {
    if vs == [] then [] else RegReply(vs[0]) + Replies(vs[1..])
  }

  /** On the serial link, a read with a READ_REG reply at the head of the queue gives its value and takes the reply off. */
  lemma SerialRead(w: Wire, t: Target, reg: bv32, v: bv32, rest: seq<byte>)
    requires (w.open || t.present) && Plain(PacketBytes(ESP_READ_REG, [0, 0], v)) && w.queue == RegReply(v) + rest
    ensures ReadStep(BusOf(t), w, reg) == Step(Ok(v), Wire(rest, w.sent + [RequestFrame(t.device, RegRead(reg))], w.waited, true))
  {
    ReadRegAnswer(w, t, reg, [0, 0], v, rest);
  }

  /**
   * On the serial link, a queue that starts with one READ_REG reply per
   * value makes the reads give those values, in order, and leaves the rest
   * of the queue.
   */
  lemma {:induction false} QueueGivesReads(w: Wire, t: Target, reg: bv32, vs: seq<bv32>, rest: seq<byte>)
    requires w.open || t.present
    requires forall i :: 0 <= i < |vs| ==> Plain(PacketBytes(ESP_READ_REG, [0, 0], vs[i]))
    requires w.queue == Replies(vs) + rest
    ensures ReadsGive(BusOf(t), w, reg, vs)
    decreases |vs|
  {
    if vs != [] {
      var tail := Replies(vs[1..]) + rest;
      AppendAssoc(RegReply(vs[0]), Replies(vs[1..]), rest);
      SerialRead(w, t, reg, vs[0], tail);
      QueueGivesReads(Wire(tail, w.sent + [RequestFrame(t.device, RegRead(reg))], w.waited, true), t, reg, vs[1..], rest);
    }
  }

  /**
   * The same reads send one READ_REG request each and leave the rest of
   * the queue.
   */
  lemma {:induction false} QueueAfterReads(w: Wire, t: Target, reg: bv32, vs: seq<bv32>, rest: seq<byte>)
    requires w.open || t.present
    requires forall i :: 0 <= i < |vs| ==> Plain(PacketBytes(ESP_READ_REG, [0, 0], vs[i]))
    requires w.queue == Replies(vs) + rest
    ensures WireAfter(BusOf(t), w, reg, |vs|) == Wire(rest, w.sent + Copies(RequestFrame(t.device, RegRead(reg)), |vs|), w.waited, w.open || |vs| > 0)
    decreases |vs|
  {
    if vs == [] {
      assert w.queue == rest && w.sent + Copies(RequestFrame(t.device, RegRead(reg)), 0) == w.sent;
    } else {
      var tail := Replies(vs[1..]) + rest;
      AppendAssoc(RegReply(vs[0]), Replies(vs[1..]), rest);
      SerialRead(w, t, reg, vs[0], tail);
      var frame := RequestFrame(t.device, RegRead(reg));
      var next := Wire(tail, w.sent + [frame], w.waited, true);
      assert WireAfter(BusOf(t), w, reg, |vs|) == WireAfter(BusOf(t), next, reg, |vs[1..]|);
      QueueAfterReads(next, t, reg, vs[1..], rest);
      AppendAssoc(w.sent, [frame], Copies(frame, |vs[1..]|));
      assert [frame] + Copies(frame, |vs[1..]|) == Copies(frame, |vs|);
    }
  }

  // Properties of the whole command.

  /** A failed wait ends the command at once, without reading W0 and without restoring USR and USR2. */
  lemma FinishWaitFails(w: Wire, bus: Bus, regs: SpiRegs, oldUsr: bv32, oldUsr2: bv32, done: seq<RegAccess>)
    ensures var run := FinishOn(w, bus, regs, oldUsr, oldUsr2, done); var poll := PollOn(w, bus, regs.cmd, 10, done);
      poll.result.Err? ==> run.result == Err(poll.result.fault) && run.wire == poll.wire && run.trace == poll.trace
  {
    var poll := PollOn(w, bus, regs.cmd, 10, done);
    if poll.result.Err? {
      assert FinishOn(w, bus, regs, oldUsr, oldUsr2, done) == Run(Err(poll.result.fault), poll.wire, poll.trace);
    }
  }

  /**
   * A successful finish polled SPI_CMD k times (1 <= k <= 10), read W0,
   * restored USR then USR2 to the saved values, and returns W0 with its
   * bytes swapped.
   */
  lemma FinishShape(w: Wire, bus: Bus, regs: SpiRegs, oldUsr: bv32, oldUsr2: bv32, done: seq<RegAccess>)
    ensures var run := FinishOn(w, bus, regs, oldUsr, oldUsr2, done); var poll := PollOn(w, bus, regs.cmd, 10, done);
      var status := ReadStep(bus, poll.wire, regs.w0);
      run.result.Ok? ==>
        poll.result.Ok? && status.result.Ok? && run.result == Ok(SwapBytes32(status.result.value)) &&
        exists k :: 1 <= k <= 10 &&
          run.trace == done + Polls(regs.cmd, k) + [RegRead(regs.w0), WriteWord(regs.usr, oldUsr), WriteWord(regs.usr2, oldUsr2)]
  {
    var run := FinishOn(w, bus, regs, oldUsr, oldUsr2, done);
    var poll := PollOn(w, bus, regs.cmd, 10, done);
    PollOnTrace(w, bus, regs.cmd, 10, done);
    if run.result.Ok? {
      var status := ReadRun(poll.wire, bus, regs.w0, poll.trace);
      var restores := [WriteWord(regs.usr, oldUsr), WriteWord(regs.usr2, oldUsr2)];
      var restore := AccessesOn(status.wire, bus.access, restores, status.trace);
      assert poll.result.Ok? && status.result.Ok? && restore.result.Ok? && run.trace == restore.trace;
      AccessesOkTrace(status.wire, bus.access, restores, status.trace);
      var k := |poll.trace| - |done|;
      assert 1 <= k <= 10;
      FinishTrace(done, Polls(regs.cmd, k), RegRead(regs.w0), restores);
    }
  }

  lemma FinishTrace(done: seq<RegAccess>, polls: seq<RegAccess>, read: RegAccess, restores: seq<RegAccess>)
    requires |restores| == 2
    ensures done + polls + [read] + restores == done + polls + [read, restores[0], restores[1]]
  {
    assert [read] + restores == [read, restores[0], restores[1]];
  }

  /**
   * A successful command read USR and USR2 first, then wrote the
   * configuration and the start bit, polled, read W0, and finally wrote
   * back exactly the USR and USR2 values it had read.
   */
  lemma UserCommandShape(w: Wire, bus: Bus, regs: SpiRegs, cmd: byte, data: seq<byte>, readBits: bv32, addr: bv32, addrLen: bv32, dummyLen: bv32,
                         done: seq<RegAccess>)
    requires |data| <= 64
    ensures var run := UserCommandOn(w, bus, regs, cmd, data, readBits, addr, addrLen, dummyLen, done);
      var usr := ReadStep(bus, w, regs.usr); var usr2 := ReadStep(bus, usr.wire, regs.usr2);
      var start := done + [RegRead(regs.usr), RegRead(regs.usr2)] +
        (ConfigWrites(regs, cmd, data, readBits, addr, addrLen, dummyLen) + [WriteWord(regs.cmd, SPI_CMD_USR)]);
      run.result.Ok? ==>
        usr.result.Ok? && usr2.result.Ok? &&
        exists k :: 1 <= k <= 10 &&
          run.trace == start + Polls(regs.cmd, k) + [RegRead(regs.w0), WriteWord(regs.usr, usr.result.value), WriteWord(regs.usr2, usr2.result.value)]
  {
    var run := UserCommandOn(w, bus, regs, cmd, data, readBits, addr, addrLen, dummyLen, done);
    if run.result.Ok? {
      var usr := ReadRun(w, bus, regs.usr, done);
      var usr2 := ReadRun(usr.wire, bus, regs.usr2, usr.trace);
      var cmds := ConfigWrites(regs, cmd, data, readBits, addr, addrLen, dummyLen) + [WriteWord(regs.cmd, SPI_CMD_USR)];
      var start := AccessesOn(usr2.wire, bus.access, cmds, usr2.trace);
      AccessesOkTrace(usr2.wire, bus.access, cmds, usr2.trace);
      assert usr2.trace == done + [RegRead(regs.usr), RegRead(regs.usr2)];
      FinishShape(start.wire, bus, regs, Value(usr), Value(usr2), start.trace);
    }
  }

  // Properties of the attaches.

  /**
   * Once attached, the attaches send nothing and succeed.  Otherwise they
   * succeed only by attaching, and read registers only under the ROM of
   * an ESP32: EFUSE_BLK0_RDATA5, then EFUSE_BLK0_RDATA3.
   */
  lemma AttachPhaseShape(w: Wire, t: Target, bus: Bus, attached: bool, done: seq<RegAccess>)
    ensures var o := AttachPhaseOn(w, t, bus, attached, done);
      (attached ==> o == Outcome(Ok(()), w, true, done)) && (o.result.Ok? ==> o.attached) && (o.attached ==> o.result.Ok?)
    ensures var o := AttachPhaseOn(w, t, bus, attached, done);
      o.trace == done ||
      (!attached && !t.isStub && t.device.Some? && t.device.value.chip == Esp32 &&
       (o.trace == done + [RegRead(EfuseRData5(Esp32))] || o.trace == done + [RegRead(EfuseRData5(Esp32)), RegRead(EfuseRData3(Esp32))]))
  {
    var first := PadsAttachOn(w, t, bus, attached, done);
    if !attached && !t.isStub && t.device.Some? && t.device.value.chip == Esp32 {
      var pads := ReadPadsOn(w, bus, done);
      var rdata5 := ReadRun(w, bus, EfuseRData5(Esp32), done);
      assert first.trace == pads.trace;
      if rdata5.result.Ok? {
        assert pads.trace == done + [RegRead(EfuseRData5(Esp32))] + [RegRead(EfuseRData3(Esp32))];
      }
    }
  }

  /**
   * SpiFlashCommandAsync attaches before it checks its arguments: with
   * read_bits above 32 it still attaches, then throws
   * ArgumentOutOfRangeException without touching a register.  A link
   * once attached stays attached.
   */
  lemma SpiCommandChecksAfterAttach(w: Wire, t: Target, bus: Bus, attached: bool,
                                    cmd: byte, data: seq<byte>, readBits: bv32, addr: bv32, addrLen: bv32, dummyLen: bv32)
    ensures var o := SpiCommandOn(w, t, bus, attached, cmd, data, readBits, addr, addrLen, dummyLen);
      var a := AttachPhaseOn(w, t, bus, attached, []);
      readBits > 32 && a.result.Ok? ==> o == Outcome(Err(ArgumentOutOfRange), a.wire, true, a.trace)
    ensures var o := SpiCommandOn(w, t, bus, attached, cmd, data, readBits, addr, addrLen, dummyLen);
      attached ==> o.attached
  {
    AttachPhaseShape(w, t, bus, attached, []);
  }
}
