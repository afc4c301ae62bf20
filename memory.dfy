/*
 * RAM download (EspLink.Memory.cs): MEM_BEGIN, MEM_DATA and MEM_END, each
 * a status-checked command over the wire.  Each method is proved against
 * a function of the wire before the call; the device opcode is read
 * before the command is sent, so without a device the call raises
 * NullReferenceException and sends nothing.
 */
module Memory {
  import opened Results
  import opened Bytes
  import opened Devices
  import opened Packet
  import opened Framing
  import opened Session
  import opened Transport
  import opened Commands

  /** BeginWriteMemoryAsync on the wire: MEM_BEGIN with {size, blocks, blocksize, offset} and checksum 0. */
  function MemBeginOn(w: Wire, present: bool, device: Option<Descriptor>, isStub: bool, size: bv32, blocks: bv32, blocksize: bv32, offset: bv32, timeout: int): (s: Step<Answer>)
  {
    if device.None? then Step(Err(NullReference), w)
    else CheckOn(w, present, device, isStub, ESP_MEM_BEGIN as int, Record(size, blocks, blocksize, offset), 0, timeout)
  }

  method BeginWriteMemory(link: Link, size: bv32, blocks: bv32, blocksize: bv32, offset: bv32, timeout: int) returns (r: Result<Answer>)
    requires link.Valid()
    modifies link`port, link.hw, link`incoming, link`waited
    ensures link.Valid()
    ensures Step(r, WireOf(link)) == MemBeginOn(old(WireOf(link)), link.hw.present, link.device, link.isStub, size, blocks, blocksize, offset, timeout)
  {
    if link.device.None? {
      return Err(NullReference);
    }
    r := CheckCommand(link, ESP_MEM_BEGIN as int, Record(size, blocks, blocksize, offset), 0, timeout);
  }

  /** The MEM_DATA payload: the header {length, seq, 0, 0}, then the block's bytes. */
  function MemBlockPayload(block: seq<byte>, sequence: bv32): (p: seq<byte>)
    ensures |p| == 16 + |block| && p[16..] == block
    ensures Word32(p[0..4]) == U32(|block|) && Word32(p[4..8]) == sequence && Word32(p[8..12]) == 0 && Word32(p[12..16]) == 0
  {
    RecordDecodes(U32(|block|), sequence, 0, 0);
    var p := Record(U32(|block|), sequence, 0, 0) + block;
    assert p[0..16] == Record(U32(|block|), sequence, 0, 0);
    assert p[0..4] == p[0..16][0..4] && p[4..8] == p[0..16][4..8] && p[8..12] == p[0..16][8..12] && p[12..16] == p[0..16][12..16];
    p
  }

  /**
   * WriteMemoryBlockAsync on the wire: MEM_DATA with the block
   * data[index .. index+length), checksummed from 0xEF over the block's
   * bytes alone.  A range outside data is Array.Copy's ArgumentException,
   * raised before the device is looked at.
   */
  function MemBlockOn(w: Wire, present: bool, device: Option<Descriptor>, isStub: bool, data: seq<byte>, index: nat, length: nat, sequence: bv32, timeout: int): (s: Step<Answer>)
  {
    if index + length > |data| then Step(Err(ArgumentFault), w)
    else if device.None? then Step(Err(NullReference), w)
    else
      var block := data[index..index + length];
      CheckOn(w, present, device, isStub, ESP_MEM_DATA as int, MemBlockPayload(block, sequence), XorFold(block, CHECKSUM_SEED), timeout)
  }

  method WriteMemoryBlock(link: Link, data: seq<byte>, index: nat, length: nat, sequence: bv32, timeout: int) returns (r: Result<Answer>)
    requires link.Valid()
    modifies link`port, link.hw, link`incoming, link`waited
    ensures link.Valid()
    ensures Step(r, WireOf(link)) == MemBlockOn(old(WireOf(link)), link.hw.present, link.device, link.isStub, data, index, length, sequence, timeout)
  {
    if index + length > |data| {
      return Err(ArgumentFault);
    }
    if link.device.None? {
      return Err(NullReference);
    }
    var block := data[index..index + length];
    r := CheckCommand(link, ESP_MEM_DATA as int, MemBlockPayload(block, sequence), XorFold(block, CHECKSUM_SEED), timeout);
  }

  /** The MEM_END timeout: 3000 ms under the stub, 200 ms under the ROM. */
  function FinishTimeout(isStub: bool): (t: int)
    ensures t == 3000 || t == 200
    ensures t == 3000 <==> isStub
  {
    if isStub then 3000 else 200
  }

  /** The MEM_END payload: {1, 0} to stay in the loader, {0, entrypoint} to jump to the entry point. */
  function MemEndPayload(entrypoint: bv32): (p: seq<byte>)
    ensures |p| == 8 && Word32(p[4..8]) == entrypoint
    ensures Word32(p[0..4]) == if entrypoint == 0 then 1 else 0
  {
    var flag: bv32 := if entrypoint == 0 then 1 else 0;
    Word32OfLE32(flag);
    Word32OfLE32(entrypoint);
    LE32(flag) + LE32(entrypoint)
  }

  /**
   * FinishWriteMemoryAsync on the wire.  Every failure, the missing device
   * included, is swallowed under the ROM and passed on under the stub.
   */
  function MemEndOn(w: Wire, present: bool, device: Option<Descriptor>, isStub: bool, entrypoint: bv32): (s: Step<()>)
    ensures !isStub ==> s.result.Ok?
    ensures device.None? ==> s.wire == w && (s.result.Err? <==> isStub)
  {
    var c := if device.None? then Step(Err(NullReference), w)
             else CheckOn(w, present, device, isStub, ESP_MEM_END as int, MemEndPayload(entrypoint), 0, FinishTimeout(isStub));
    if c.result.Err? && isStub then Step(Err(c.result.fault), c.wire) else Step(Ok(()), c.wire)
  }

  method FinishWriteMemory(link: Link, entrypoint: bv32) returns (r: Result<()>)
    requires link.Valid()
    modifies link`port, link.hw, link`incoming, link`waited
    ensures link.Valid()
    ensures Step(r, WireOf(link)) == MemEndOn(old(WireOf(link)), link.hw.present, link.device, link.isStub, entrypoint)
  {
    var c: Result<Answer>;
    if link.device.None? {
      c := Err(NullReference);
    } else {
      c := CheckCommand(link, ESP_MEM_END as int, MemEndPayload(entrypoint), 0, FinishTimeout(link.isStub));
    }
    if c.Err? && link.isStub {
      return Err(c.fault);
    }
    return Ok(());
  }

  // What the three commands put on the wire.

  /** C#'s (byte) cast leaves the MEM_BEGIN and MEM_DATA opcodes as they are. */
  lemma MemOpcodeBytes()
    ensures ByteOf(ESP_MEM_BEGIN as int) == ESP_MEM_BEGIN && ByteOf(ESP_MEM_DATA as int) == ESP_MEM_DATA
  {
    var b, d := ByteFor(5), ByteFor(7);
    assert (b as int) as byte == b && (d as int) as byte == d;
  }

  /** With a device and a port that opens, MEM_BEGIN sends exactly one frame: its packet. */
  lemma MemBeginSendsOneFrame(w: Wire, present: bool, device: Option<Descriptor>, isStub: bool, size: bv32, blocks: bv32, blocksize: bv32, offset: bv32, timeout: int)
    requires device.Some? && (w.open || present)
    ensures MemBeginOn(w, present, device, isStub, size, blocks, blocksize, offset, timeout).wire.sent ==
      w.sent + [Frame(PacketBytes(ESP_MEM_BEGIN, Record(size, blocks, blocksize, offset), 0))]
  {
    MemOpcodeBytes();
    CheckOnSends(w, present, device, isStub, ESP_MEM_BEGIN as int, Record(size, blocks, blocksize, offset), 0, timeout);
  }

  /** A MEM_DATA block's checksum covers the block and not the header: it is the checksum of the payload after byte 16. */
  lemma MemBlockSendsOneFrame(w: Wire, present: bool, device: Option<Descriptor>, isStub: bool, data: seq<byte>, index: nat, length: nat, sequence: bv32, timeout: int)
    requires index + length <= |data| && device.Some? && (w.open || present)
    ensures var p := MemBlockPayload(data[index..index + length], sequence);
      MemBlockOn(w, present, device, isStub, data, index, length, sequence, timeout).wire.sent ==
      w.sent + [Frame(PacketBytes(ESP_MEM_DATA, p, XorFold(p[16..], CHECKSUM_SEED)))]
  {
    var p := MemBlockPayload(data[index..index + length], sequence);
    MemOpcodeBytes();
    CheckOnSends(w, present, device, isStub, ESP_MEM_DATA as int, p, XorFold(data[index..index + length], CHECKSUM_SEED), timeout);
  }

  /** A MEM_DATA request that succeeded sent its one frame and left the port open. */
  lemma MemBlockOkSends(w: Wire, present: bool, device: Option<Descriptor>, isStub: bool, data: seq<byte>, index: nat, length: nat, sequence: bv32, timeout: int)
    requires MemBlockOn(w, present, device, isStub, data, index, length, sequence, timeout).result.Ok?
    ensures index + length <= |data|
    ensures var block := data[index..index + length];
      var s := MemBlockOn(w, present, device, isStub, data, index, length, sequence, timeout);
      s.wire.sent == w.sent + [Frame(PacketBytes(ESP_MEM_DATA, MemBlockPayload(block, sequence), XorFold(block, CHECKSUM_SEED)))] && s.wire.open
  {
    var block := data[index..index + length];
    MemOpcodeBytes();
    CheckOnOkSends(w, present, device, isStub, ESP_MEM_DATA as int, MemBlockPayload(block, sequence), XorFold(block, CHECKSUM_SEED), timeout);
  }
}
