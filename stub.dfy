/*
 * The stub loader (EspLink.Stub.cs): finding the stub image of the
 * connected chip among the embedded resources, downloading its text and
 * data segments to RAM block by block, starting it, and waiting for the
 * "OHAI" frame that says it runs.
 *
 * The embedded resources are an input: each `.idx` resource is listed by
 * name together with the three words it holds and the `.text` and `.data`
 * files stored beside it.
 */
module Stub {
  import opened Results
  import opened Bytes
  import opened Devices
  import opened Packet
  import opened Framing
  import opened Session
  import opened Transport
  import opened Commands
  import opened Memory

  /** EspStub: a stub image ready to be downloaded. */
  datatype EspStub = EspStub(name: string, entryPoint: bv32, text: seq<byte>, textStart: bv32, data: seq<byte>, dataStart: bv32)

  /** An embedded `.idx` resource: its name, the words it holds, and the segments stored beside it. */
  datatype Resource = Resource(name: string, entryPoint: bv32, textStart: bv32, dataStart: bv32, text: seq<byte>, data: seq<byte>)

  // The resource name of a chip.

  /** String.Replace(c, ""): every occurrence of c removed. */
  function Remove(s: string, c: char): (r: string)
    ensures |r| <= |s| && c !in r
    ensures forall x :: x in r ==> x in s
    ensures c !in s ==> r == s
  {
    if s == [] then []
    else (if s[0] == c then [] else [s[0]]) + Remove(s[1..], c)
  }

  /** The invariant lower-casing of one character, for the ASCII letters chip names use. */
  function Lower(c: char): (d: char)
    ensures !('A' <= d <= 'Z')
    ensures !('A' <= c <= 'Z') ==> d == c
  {
    if 'A' <= c <= 'Z' then (c as int + 32) as char else c
  }

  /** ToLowerInvariant, character by character. */
  function LowerAll(s: string): (r: string)
    ensures |r| == |s| && forall k :: 0 <= k < |s| ==> r[k] == Lower(s[k])
  {
    if s == [] then [] else [Lower(s[0])] + LowerAll(s[1..])
  }

  /** The stub resource name: the chip name without "(", ")" and "-", lower-cased. */
  function ResourceName(chipName: string): (r: string)
    ensures |r| <= |chipName|
    ensures '(' !in r && ')' !in r && '-' !in r
    ensures forall k :: 0 <= k < |r| ==> !('A' <= r[k] <= 'Z')
  {
    var kept := Remove(Remove(Remove(chipName, '('), ')'), '-');
    LowerAll(kept)
  }

  /** Lower-casing a string with no upper-case letter changes nothing. */
  lemma LowerAllKeeps(s: string)
    requires forall k :: 0 <= k < |s| ==> !('A' <= s[k] <= 'Z')
    ensures LowerAll(s) == s
  {
  }

  /** A resource name is its own resource name. */
  lemma ResourceNameIdempotent(chipName: string)
    ensures ResourceName(ResourceName(chipName)) == ResourceName(chipName)
  {
    var r := ResourceName(chipName);
    assert Remove(Remove(Remove(r, '('), ')'), '-') == r;
    LowerAllKeeps(r);
  }

  /** The ESP32 ("ESP32") looks for the resource "esp32". */
  lemma Esp32ResourceName()
    ensures ResourceName("ESP32") == "esp32"
  {
    var n := "ESP32";
    assert '(' !in n && ')' !in n && '-' !in n;
    assert Remove(Remove(Remove(n, '('), ')'), '-') == n;
    LowerEsp32();
  }

  lemma LowerEsp32()
    ensures LowerAll("ESP32") == "esp32"
  {
    var s := LowerAll("ESP32");
    forall k | 0 <= k < 5 ensures s[k] == "esp32"[k] {
    }
  }

  // GetStubAsync.

  /** String.EndsWith with ordinal comparison. */
  predicate EndsWith(s: string, suffix: string)
  {
    |suffix| <= |s| && s[|s| - |suffix|..] == suffix
  }

  /** The name suffix of a chip's index resource. */
  function IndexSuffix(resName: string): string
  {
    ".Stubs." + resName + ".idx"
  }

  /** The first resource at or after `from` whose name ends with key. */
  function FirstMatch(resources: seq<Resource>, key: string, from: nat): (i: Option<nat>)
    requires from <= |resources|
    ensures i.Some? ==> from <= i.value < |resources| && EndsWith(resources[i.value].name, key)
    ensures i.Some? ==> forall k :: from <= k < i.value ==> !EndsWith(resources[k].name, key)
    ensures i.None? ==> forall k :: from <= k < |resources| ==> !EndsWith(resources[k].name, key)
    decreases |resources| - from
  {
    if from == |resources| then None
    else if EndsWith(resources[from].name, key) then Some(from)
    else FirstMatch(resources, key, from + 1)
  }

  /** The stub GetStubAsync returns, or the exception it raises. */
  function StubOf(device: Option<Descriptor>, resources: seq<Resource>): (r: Result<EspStub>)
    ensures device.None? <==> r == Err(InvalidOperation(NoDevice))
    ensures r.Err? && device.Some? ==> r.fault == NotSupported
    ensures r.Ok? ==> device.Some? && r.value.name == ResourceName(ChipName(device.value.chip))
  {
    if device.None? then Err(InvalidOperation(NoDevice))
    else
      var resName := ResourceName(ChipName(device.value.chip));
      match FirstMatch(resources, IndexSuffix(resName), 0)
      case None => Err(NotSupported)
      case Some(i) =>
        var res := resources[i];
        Ok(EspStub(resName, res.entryPoint, res.text, res.textStart, res.data, res.dataStart))
  }

  /** The stub comes from the first index resource of the chip, and is NotSupported when there is none. */
  lemma StubOfFirst(d: Descriptor, resources: seq<Resource>)
    ensures var key := IndexSuffix(ResourceName(ChipName(d.chip)));
      var r := StubOf(Some(d), resources);
      (r.Err? <==> forall k :: 0 <= k < |resources| ==> !EndsWith(resources[k].name, key)) &&
      (r.Ok? ==> exists i :: 0 <= i < |resources| && EndsWith(resources[i].name, key) &&
                   (forall k :: 0 <= k < i ==> !EndsWith(resources[k].name, key)) &&
                   r.value.entryPoint == resources[i].entryPoint &&
                   r.value.text == resources[i].text && r.value.textStart == resources[i].textStart &&
                   r.value.data == resources[i].data && r.value.dataStart == resources[i].dataStart)
  {
    var resName := ResourceName(ChipName(d.chip));
    var key := IndexSuffix(resName);
    var m := FirstMatch(resources, key, 0);
    var r := StubOf(Some(d), resources);
    if m.Some? {
      var i := m.value;
      var res := resources[i];
      assert r == Ok(EspStub(resName, res.entryPoint, res.text, res.textStart, res.data, res.dataStart));
      assert EndsWith(resources[i].name, key);
    } else {
      assert r == Err(NotSupported);
    }
  }

  /** GetStubAsync: the scan for the index resource. */
  method GetStub(link: Link, resources: seq<Resource>) returns (r: Result<EspStub>)
    ensures r == StubOf(link.device, resources)
  {
    if link.device.None? {
      return Err(InvalidOperation(NoDevice));
    }
    var resName := ResourceName(ChipName(link.device.value.chip));
    var searchIdx := IndexSuffix(resName);
    var i := 0;
    while i < |resources|
      invariant 0 <= i <= |resources|
      invariant FirstMatch(resources, searchIdx, 0) == FirstMatch(resources, searchIdx, i)
    {
      if EndsWith(resources[i].name, searchIdx) {
        var res := resources[i];
        return Ok(EspStub(resName, res.entryPoint, res.text, res.textStart, res.data, res.dataStart));
      }
      i := i + 1;
    }
    r := Err(NotSupported);
  }

  // WriteStubEntryAsync: the block arithmetic.

  /** The number of RAM blocks of b bytes a segment of len bytes needs. */
  function Blocks(len: nat, b: nat): (n: nat)
    requires b > 0
    ensures n * b >= len && (n == 0 || (n - 1) * b < len)
    ensures n == 0 <==> len == 0
  {
    var n := (len + b - 1) / b;
    assert n * b + (len + b - 1) % b == len + b - 1;
    n
  }

  /** Every block before the count starts inside the segment. */
  lemma BlockStarts(len: nat, b: nat, k: nat)
    requires b > 0 && k < Blocks(len, b)
    ensures 0 <= k * b < len
  {
    var n := Blocks(len, b);
    assert k * b <= (n - 1) * b;
  }

  /** Where block k ends: b bytes after its start, or the end of the segment. */
  function ChunkEnd(len: nat, b: nat, k: nat): (e: nat)
    requires k * b <= len
    ensures k * b <= e <= len && e - k * b <= b
    ensures e < len ==> e == k * b + b
  {
    if len - k * b > b then k * b + b else len
  }

  /** Block k of a segment. */
  function Chunk(data: seq<byte>, b: nat, k: nat): (c: seq<byte>)
    requires b > 0 && k < Blocks(|data|, b)
    ensures 0 < |c| <= b
    ensures k < Blocks(|data|, b) - 1 ==> |c| == b
  {
    BlockStarts(|data|, b, k);
    InnerChunkFull(|data|, b, k);
    data[k * b..ChunkEnd(|data|, b, k)]
  }

  /** Chunk k is the slice MEM_DATA sends for block k: from k*b, ChunkEnd - k*b bytes. */
  lemma ChunkSlice(data: seq<byte>, b: nat, k: nat)
    requires b > 0 && k < Blocks(|data|, b)
    ensures k * b + (ChunkEnd(|data|, b, k) - k * b) <= |data|
    ensures data[k * b..k * b + (ChunkEnd(|data|, b, k) - k * b)] == Chunk(data, b, k)
  {
    BlockStarts(|data|, b, k);
  }

  /** A block before the last one is full. */
  lemma InnerChunkFull(len: nat, b: nat, k: nat)
    requires b > 0 && k < Blocks(len, b)
    ensures k * b < len
    ensures k < Blocks(len, b) - 1 ==> ChunkEnd(len, b, k) == k * b + b
  {
    BlockStarts(len, b, k);
    if k < Blocks(len, b) - 1 {
      BlockStarts(len, b, k + 1);
      assert (k + 1) * b == k * b + b;
    }
  }

  /** Blocks k .. n-1 one after another. */
  function Chunks(data: seq<byte>, b: nat, k: nat): seq<byte>
    requires b > 0 && k <= Blocks(|data|, b)
    decreases Blocks(|data|, b) - k
  {
    if k == Blocks(|data|, b) then [] else Chunk(data, b, k) + Chunks(data, b, k + 1)
  }

  /** The blocks from k on are the segment from byte k*b on. */
  lemma {:induction false} ChunksFrom(data: seq<byte>, b: nat, k: nat)
    requires b > 0 && k < Blocks(|data|, b)
    ensures k * b < |data| && Chunks(data, b, k) == data[k * b..]
    decreases Blocks(|data|, b) - k
  {
    var n := Blocks(|data|, b);
    BlockStarts(|data|, b, k);
    var e := ChunkEnd(|data|, b, k);
    if k + 1 < n {
      ChunksFrom(data, b, k + 1);
      BlockStarts(|data|, b, k + 1);
      assert (k + 1) * b == k * b + b;
      assert e == (k + 1) * b;
    } else {
      assert n * b >= |data| && n * b == k * b + b;
      assert e == |data|;
    }
  }

  /** The blocks of a segment, in order, are the segment. */
  lemma ChunksCover(data: seq<byte>, b: nat)
    requires b > 0
    ensures Chunks(data, b, 0) == data
  {
    if |data| > 0 {
      ChunksFrom(data, b, 0);
    }
  }

  // WriteStubEntryAsync on the wire.

  /** The MEM_DATA request of block k, its answer dropped. */
  function BlockOn(w: Wire, present: bool, device: Option<Descriptor>, isStub: bool, data: seq<byte>, b: nat, k: nat, timeout: int): (s: Step<()>)
    requires b > 0 && k < Blocks(|data|, b)
  {
    BlockStarts(|data|, b, k);
    Dropped(MemBlockOn(w, present, device, isStub, data, k * b, ChunkEnd(|data|, b, k) - k * b, U32(k), timeout))
  }

  /** The block requests k .. n-1, each a step of the wire, stopping at the first failure. */
  function BlocksOn(w: Wire, block: (Wire, nat) -> Step<()>, n: nat, k: nat): Step<()>
    decreases n - k
  {
    if k >= n then Step(Ok(()), w)
    else
      var s := block(w, k);
      if s.result.Err? then s else BlocksOn(s.wire, block, n, k + 1)
  }

  /** BlockOn as a step of the wire (a block past the count sends nothing). */
  function BlockWith(present: bool, device: Option<Descriptor>, isStub: bool, data: seq<byte>, b: nat, timeout: int): (Wire, nat) -> Step<()>
  {
    (w: Wire, k: nat) => if b > 0 && k < Blocks(|data|, b) then BlockOn(w, present, device, isStub, data, b, k, timeout) else Step(Ok(()), w)
  }

  /** A trigger term for IsBlock. */
  ghost predicate Visit(w: Wire, k: nat, from: nat, length: nat) { true }

  /** An exchange with its answer dropped. */
  function Dropped(s: Step<Answer>): Step<()>
  {
    Step(Unit(s.result), s.wire)
  }

  /**
   * `block` sends the MEM_DATA request of each block of data: block k
   * covers data[from .. from+length) with from = k*b and length its
   * ChunkEnd distance.
   */
  ghost predicate IsBlock(block: (Wire, nat) -> Step<()>, present: bool, device: Option<Descriptor>, isStub: bool, data: seq<byte>, b: nat, timeout: int)
  {
    b > 0 &&
    forall w: Wire, k: nat, from: nat, length: nat {:trigger Visit(w, k, from, length)} ::
      k < Blocks(|data|, b) && from == k * b && k * b <= |data| && length == ChunkEnd(|data|, b, k) - k * b ==>
      block(w, k) == Dropped(MemBlockOn(w, present, device, isStub, data, from, length, U32(k), timeout))
  }

  lemma BlockWithIsBlock(present: bool, device: Option<Descriptor>, isStub: bool, data: seq<byte>, b: nat, timeout: int)
    requires b > 0
    ensures IsBlock(BlockWith(present, device, isStub, data, b, timeout), present, device, isStub, data, b, timeout)
  {
    forall w: Wire, k: nat, from: nat, length: nat |
      k < Blocks(|data|, b) && from == k * b && k * b <= |data| && length == ChunkEnd(|data|, b, k) - k * b
      ensures BlockWith(present, device, isStub, data, b, timeout)(w, k) == Dropped(MemBlockOn(w, present, device, isStub, data, from, length, U32(k), timeout))
    {
      BlockWithAt(w, present, device, isStub, data, b, k, from, length, timeout);
    }
  }

  /** The block step at block k is that block's MEM_DATA request. */
  lemma BlockWithAt(w: Wire, present: bool, device: Option<Descriptor>, isStub: bool, data: seq<byte>, b: nat, k: nat, from: nat, length: nat, timeout: int)
    requires b > 0 && k < Blocks(|data|, b) && from == k * b && k * b <= |data| && length == ChunkEnd(|data|, b, k) - k * b
    ensures BlockWith(present, device, isStub, data, b, timeout)(w, k) == Dropped(MemBlockOn(w, present, device, isStub, data, from, length, U32(k), timeout))
  {
    assert BlockWith(present, device, isStub, data, b, timeout)(w, k) == BlockOn(w, present, device, isStub, data, b, k, timeout);
  }

  /**
   * WriteStubEntryAsync on the wire: MEM_BEGIN with the segment's length,
   * block count, block size and load address, then one MEM_DATA per
   * block.  Without a device the block size cannot be read, and a block
   * size of 0 fails the division.
   */
  function StubEntryOn(w: Wire, present: bool, device: Option<Descriptor>, isStub: bool, offset: bv32, data: seq<byte>, timeout: int): (s: Step<()>)
  {
    if device.None? then Step(Err(NullReference), w)
    else if device.value.ramBlock == 0 then Step(Err(DivideByZero), w)
    else
      var b := device.value.ramBlock;
      var begin := MemBeginOn(w, present, device, isStub, U32(|data|), U32(Blocks(|data|, b)), U32(b), offset, timeout);
      if begin.result.Err? then Step(Err(begin.result.fault), begin.wire)
      else BlocksOn(begin.wire, BlockWith(present, device, isStub, data, b, timeout), Blocks(|data|, b), 0)
  }

  /** Where block `sequence` starts and how many bytes it holds. */
  method BlockRange(len: nat, b: nat, sequence: nat) returns (fromOffs: nat, toWrite: nat)
    requires b > 0 && sequence < Blocks(len, b)
    ensures fromOffs == sequence * b && sequence * b <= len && toWrite == ChunkEnd(len, b, sequence) - sequence * b
  {
    BlockStarts(len, b, sequence);
    fromOffs := sequence * b;
    toWrite := len - fromOffs;
    if toWrite > b {
      toWrite := b;
    }
  }

  /** One pass of the block loop: the block's range, then its MEM_DATA request. */
  method WriteBlock(link: Link, ghost block: (Wire, nat) -> Step<()>, data: seq<byte>, b: nat, sequence: nat, timeout: int) returns (r: Result<()>)
    requires link.Valid() && IsBlock(block, link.hw.present, link.device, link.isStub, data, b, timeout)
    requires sequence < Blocks(|data|, b)
    modifies link`port, link.hw, link`incoming, link`waited
    ensures link.Valid() && Step(r, WireOf(link)) == block(old(WireOf(link)), sequence)
  {
    var fromOffs, toWrite := BlockRange(|data|, b, sequence);
    assert Visit(WireOf(link), sequence, fromOffs, toWrite);
    var m := WriteMemoryBlock(link, data, fromOffs, toWrite, U32(sequence), timeout);
    r := Unit(m);
  }

  /** The block loop of WriteStubEntryAsync. */
  method WriteBlocks(link: Link, ghost block: (Wire, nat) -> Step<()>, data: seq<byte>, b: nat, blocks: nat, timeout: int) returns (r: Result<()>)
    requires link.Valid() && IsBlock(block, link.hw.present, link.device, link.isStub, data, b, timeout)
    requires blocks == Blocks(|data|, b)
    modifies link`port, link.hw, link`incoming, link`waited
    ensures link.Valid() && Step(r, WireOf(link)) == BlocksOn(old(WireOf(link)), block, blocks, 0)
  {
    ghost var spec := BlocksOn(WireOf(link), block, blocks, 0);
    var sequence := 0;
    while sequence < blocks
      invariant 0 <= sequence <= blocks && link.Valid()
      invariant spec == BlocksOn(WireOf(link), block, blocks, sequence)
      decreases blocks - sequence
    {
      var m := WriteBlock(link, block, data, b, sequence, timeout);
      if m.Err? {
        return m;
      }
      sequence := sequence + 1;
    }
    r := Ok(());
  }

  /** WriteStubEntryAsync(offset, data, timeout). */
  method WriteStubEntry(link: Link, offset: bv32, data: seq<byte>, timeout: int) returns (r: Result<()>)
    requires link.Valid()
    modifies link`port, link.hw, link`incoming, link`waited
    ensures link.Valid()
    ensures Step(r, WireOf(link)) == StubEntryOn(old(WireOf(link)), link.hw.present, link.device, link.isStub, offset, data, timeout)
  {
    if link.device.None? {
      return Err(NullReference);
    }
    var b := link.device.value.ramBlock;
    if b == 0 {
      return Err(DivideByZero);
    }
    var len := |data|;
    var blocks := (len + b - 1) / b;
    assert blocks == Blocks(len, b);
    var begin := BeginWriteMemory(link, U32(len), U32(blocks), U32(b), offset, timeout);
    if begin.Err? {
      return Err(begin.fault);
    }
    BlockWithIsBlock(link.hw.present, link.device, link.isStub, data, b, timeout);
    r := WriteBlocks(link, BlockWith(link.hw.present, link.device, link.isStub, data, b, timeout), data, b, blocks, timeout);
  }

  // What a download puts on the wire.

  /** The frame of block k's MEM_DATA request: its chunk, headed by {length, k, 0, 0}, checksummed over the chunk. */
  function BlockFrame(data: seq<byte>, b: nat, k: nat): seq<byte>
    requires b > 0 && k < Blocks(|data|, b)
  {
    var c := Chunk(data, b, k);
    Frame(PacketBytes(ESP_MEM_DATA, MemBlockPayload(c, U32(k)), XorFold(c, CHECKSUM_SEED)))
  }

  /** Block k's frame, for every k: nothing past the last block. */
  function FrameAt(data: seq<byte>, b: nat): nat -> seq<byte>
  {
    (k: nat) => if b > 0 && k < Blocks(|data|, b) then BlockFrame(data, b, k) else []
  }

  /** frame(k), ..., frame(n-1), in order. */
  function FramesFrom(frame: nat -> seq<byte>, n: nat, k: nat): (fs: seq<seq<byte>>)
    ensures |fs| == if k <= n then n - k else 0
    decreases n - k
  {
    if k >= n then [] else [frame(k)] + FramesFrom(frame, n, k + 1)
  }

  /** The MEM_BEGIN frame of a segment: {length, block count, block size, load address}. */
  function BeginFrame(data: seq<byte>, b: nat, offset: bv32): seq<byte>
    requires b > 0
  {
    Frame(PacketBytes(ESP_MEM_BEGIN, Record(U32(|data|), U32(Blocks(|data|, b)), U32(b), offset), 0))
  }

  /** The frames of a whole segment: MEM_BEGIN, then one MEM_DATA per block. */
  function EntryFrames(data: seq<byte>, b: nat, offset: bv32): (fs: seq<seq<byte>>)
    requires b > 0
    ensures |fs| == 1 + Blocks(|data|, b)
  {
    [BeginFrame(data, b, offset)] + FramesFrom(FrameAt(data, b), Blocks(|data|, b), 0)
  }

  /** Every block step k < n that succeeds sends frame(k), and nothing else, on an open port. */
  ghost predicate Sends(block: (Wire, nat) -> Step<()>, frame: nat -> seq<byte>, n: nat)
  {
    forall w: Wire, k: nat {:trigger block(w, k)} ::
      k < n && block(w, k).result.Ok? ==> block(w, k).wire.sent == w.sent + [frame(k)] && block(w, k).wire.open
  }

  /** A block loop that succeeded sent the frames of blocks k .. n-1 and nothing else. */
  lemma {:induction false} BlocksOnSends(w: Wire, block: (Wire, nat) -> Step<()>, frame: nat -> seq<byte>, n: nat, k: nat)
    requires Sends(block, frame, n) && w.open
    requires BlocksOn(w, block, n, k).result.Ok?
    ensures BlocksOn(w, block, n, k).wire.sent == w.sent + FramesFrom(frame, n, k)
    ensures BlocksOn(w, block, n, k).wire.open
    decreases n - k
  {
    if k < n {
      var s := block(w, k);
      assert s.result.Ok? && BlocksOn(w, block, n, k) == BlocksOn(s.wire, block, n, k + 1);
      BlocksOnSends(s.wire, block, frame, n, k + 1);
      assert FramesFrom(frame, n, k) == [frame(k)] + FramesFrom(frame, n, k + 1);
      assert w.sent + [frame(k)] + FramesFrom(frame, n, k + 1) == w.sent + FramesFrom(frame, n, k);
    }
  }

  /** One frame, then a block loop that succeeded: that frame and the blocks' frames, in order. */
  lemma BeginThenBlocks(w: Wire, begin: Wire, block: (Wire, nat) -> Step<()>, frame: nat -> seq<byte>, n: nat, first: seq<byte>, s: Step<()>)
    requires Sends(block, frame, n) && begin.open && begin.sent == w.sent + [first]
    requires s == BlocksOn(begin, block, n, 0) && s.result.Ok?
    ensures s.wire.sent == w.sent + ([first] + FramesFrom(frame, n, 0)) && s.wire.open
  {
    BlocksOnSends(begin, block, frame, n, 0);
  }

  /** One MEM_DATA block that succeeded sent its frame. */
  lemma BlockOnSends(w: Wire, present: bool, device: Option<Descriptor>, isStub: bool, data: seq<byte>, b: nat, k: nat, timeout: int)
    requires b > 0 && k < Blocks(|data|, b)
    requires BlockOn(w, present, device, isStub, data, b, k, timeout).result.Ok?
    ensures BlockOn(w, present, device, isStub, data, b, k, timeout).wire.sent == w.sent + [BlockFrame(data, b, k)]
    ensures BlockOn(w, present, device, isStub, data, b, k, timeout).wire.open
  {
    BlockStarts(|data|, b, k);
    ChunkSlice(data, b, k);
    var from: nat := k * b;
    var end := ChunkEnd(|data|, b, k);
    var length: nat := end - from;
    var c := Chunk(data, b, k);
    assert c == data[from..end];
    var m := MemBlockOn(w, present, device, isStub, data, from, length, U32(k), timeout);
    assert BlockOn(w, present, device, isStub, data, b, k, timeout) == Dropped(m);
    assert m.result.Ok? && device.Some?;
    assert from + length == end;
    assert m == CheckOn(w, present, device, isStub, ESP_MEM_DATA as int, MemBlockPayload(c, U32(k)), XorFold(c, CHECKSUM_SEED), timeout);
    MemOpcodeBytes();
    CheckOnOkSends(w, present, device, isStub, ESP_MEM_DATA as int, MemBlockPayload(c, U32(k)), XorFold(c, CHECKSUM_SEED), timeout);
  }

  /** The segment's block step sends block k's frame. */
  lemma BlockWithSends(present: bool, device: Option<Descriptor>, isStub: bool, data: seq<byte>, b: nat, timeout: int)
    requires b > 0
    ensures Sends(BlockWith(present, device, isStub, data, b, timeout), FrameAt(data, b), Blocks(|data|, b))
  {
    var block := BlockWith(present, device, isStub, data, b, timeout);
    forall w: Wire, k: nat | k < Blocks(|data|, b) && block(w, k).result.Ok?
      ensures block(w, k).wire.sent == w.sent + [FrameAt(data, b)(k)] && block(w, k).wire.open
    {
      assert block(w, k) == BlockOn(w, present, device, isStub, data, b, k, timeout);
      BlockOnSends(w, present, device, isStub, data, b, k, timeout);
    }
  }

  /** The MEM_BEGIN of a segment download that succeeded: one frame, then the block loop on an open port. */
  lemma StubEntryBegins(w: Wire, present: bool, device: Option<Descriptor>, isStub: bool, offset: bv32, data: seq<byte>, timeout: int)
      returns (begin: Wire)
    requires StubEntryOn(w, present, device, isStub, offset, data, timeout).result.Ok?
    ensures device.Some? && device.value.ramBlock > 0
    ensures begin.open && begin.sent == w.sent + [BeginFrame(data, device.value.ramBlock, offset)]
    ensures StubEntryOn(w, present, device, isStub, offset, data, timeout) ==
      BlocksOn(begin, BlockWith(present, device, isStub, data, device.value.ramBlock, timeout), Blocks(|data|, device.value.ramBlock), 0)
  {
    var b := device.value.ramBlock;
    var n := Blocks(|data|, b);
    var m := MemBeginOn(w, present, device, isStub, U32(|data|), U32(n), U32(b), offset, timeout);
    begin := m.wire;
    MemOpcodeBytes();
    CheckOnOkSends(w, present, device, isStub, ESP_MEM_BEGIN as int, Record(U32(|data|), U32(n), U32(b), offset), 0, timeout);
  }

  /**
   * A segment download that succeeded had a device with a non-zero block
   * size, and sent MEM_BEGIN and then every block in order; the blocks'
   * chunks concatenate to the segment (ChunksCover).
   */
  lemma StubEntrySent(w: Wire, present: bool, device: Option<Descriptor>, isStub: bool, offset: bv32, data: seq<byte>, timeout: int)
    requires StubEntryOn(w, present, device, isStub, offset, data, timeout).result.Ok?
    ensures device.Some? && device.value.ramBlock > 0
    ensures StubEntryOn(w, present, device, isStub, offset, data, timeout).wire.sent == w.sent + EntryFrames(data, device.value.ramBlock, offset)
    ensures StubEntryOn(w, present, device, isStub, offset, data, timeout).wire.open
  {
    var begin := StubEntryBegins(w, present, device, isStub, offset, data, timeout);
    var b := device.value.ramBlock;
    BlockWithSends(present, device, isStub, data, b, timeout);
    BeginThenBlocks(w, begin, BlockWith(present, device, isStub, data, b, timeout), FrameAt(data, b), Blocks(|data|, b),
      BeginFrame(data, b, offset), StubEntryOn(w, present, device, isStub, offset, data, timeout));
  }

  // RunStubAsync.

  /** The stub's segments downloaded and started: text, then data, then MEM_END to the entry point. */
  function LoadOn(w: Wire, present: bool, device: Option<Descriptor>, stub: EspStub, timeout: int): Step<()>
  {
    var t := StubEntryOn(w, present, device, false, stub.textStart, stub.text, timeout);
    if t.result.Err? then t
    else
      var d := StubEntryOn(t.wire, present, device, false, stub.dataStart, stub.data, timeout);
      if d.result.Err? then d
      else MemEndOn(d.wire, present, device, false, stub.entryPoint)
  }

  /** The wait for the stub's greeting: the next frame must be exactly OHAI. */
  function SentinelOn(w: Wire, timeout: int): (s: Step<()>)
    ensures s.wire.sent == w.sent
  {
    var rd := ReadOn(w, timeout);
    if rd.result.Err? then Step(Err(rd.result.fault), rd.wire)
    else if rd.result.value == OHAI then Step(Ok(()), rd.wire)
    else Step(Err(IOFault(NoStubSentinel)), rd.wire)
  }

  /** RunStubAsync on the wire. */
  function RunStubOn(w: Wire, present: bool, device: Option<Descriptor>, isStub: bool, resources: seq<Resource>, timeout: int): (s: Step<()>)
    ensures device.None? ==> s == Step(Err(InvalidOperation(NoDevice)), w)
    ensures device.Some? && isStub ==> s == Step(Err(InvalidOperation(StubRunning)), w)
    ensures device.Some? && !isStub && StubOf(device, resources).Err? ==> s == Step(Err(NotSupported), w)
  {
    if device.None? then Step(Err(InvalidOperation(NoDevice)), w)
    else if isStub then Step(Err(InvalidOperation(StubRunning)), w)
    else match StubOf(device, resources)
      case Err(f) => Step(Err(f), w)
      case Ok(stub) => StartOn(w, present, device, stub, timeout)
  }

  /** Load the stub, then wait for its greeting. */
  function StartOn(w: Wire, present: bool, device: Option<Descriptor>, stub: EspStub, timeout: int): Step<()>
  {
    var l := LoadOn(w, present, device, stub, timeout);
    if l.result.Err? then l else SentinelOn(l.wire, timeout)
  }

  /** The downloads and MEM_END of RunStubAsync. */
  method Load(link: Link, stub: EspStub, timeout: int) returns (r: Result<()>)
    requires link.Valid() && !link.isStub
    modifies link`port, link.hw, link`incoming, link`waited
    ensures link.Valid()
    ensures Step(r, WireOf(link)) == LoadOn(old(WireOf(link)), link.hw.present, link.device, stub, timeout)
  {
    var t := WriteStubEntry(link, stub.textStart, stub.text, timeout);
    if t.Err? {
      return t;
    }
    var d := WriteStubEntry(link, stub.dataStart, stub.data, timeout);
    if d.Err? {
      return d;
    }
    r := FinishWriteMemory(link, stub.entryPoint);
  }

  /** The sentinel check: IsStub is set only by an exact OHAI frame. */
  method Sentinel(link: Link, timeout: int) returns (r: Result<()>)
    requires !link.isStub
    modifies link`incoming, link`waited, link`isStub
    ensures Step(r, WireOf(link)) == SentinelOn(old(WireOf(link)), timeout)
    ensures link.isStub <==> r.Ok?
  {
    ghost var w := WireOf(link);
    var frame := ReadFrame(link, timeout);
    assert Step(frame, WireOf(link)) == ReadOn(w, timeout);
    if frame.Err? {
      return Err(frame.fault);
    }
    OhaiIs(frame.value);
    if IsOhai(frame.value) {
      link.isStub := true;
    }
    if !link.isStub {
      return Err(IOFault(NoStubSentinel));
    }
    r := Ok(());
  }

  /** RunStubAsync(timeout): load the stub for the device, start it, and wait for OHAI. */
  method RunStub(link: Link, resources: seq<Resource>, timeout: int) returns (r: Result<()>)
    requires link.Valid()
    modifies link`port, link.hw, link`incoming, link`waited, link`isStub
    ensures link.Valid()
    ensures Step(r, WireOf(link)) == RunStubOn(old(WireOf(link)), link.hw.present, link.device, old(link.isStub), resources, timeout)
    ensures link.isStub <==> old(link.isStub) || r.Ok?
  {
    if link.device.None? {
      return Err(InvalidOperation(NoDevice));
    }
    if link.isStub {
      return Err(InvalidOperation(StubRunning));
    }
    var stub := GetStub(link, resources);
    if stub.Err? {
      return Err(stub.fault);
    }
    r := Start(link, stub.value, timeout);
  }

  /** The download, start and greeting of RunStubAsync. */
  method Start(link: Link, stub: EspStub, timeout: int) returns (r: Result<()>)
    requires link.Valid() && !link.isStub
    modifies link`port, link.hw, link`incoming, link`waited, link`isStub
    ensures link.Valid()
    ensures Step(r, WireOf(link)) == StartOn(old(WireOf(link)), link.hw.present, link.device, stub, timeout)
    ensures link.isStub <==> r.Ok?
  {
    var l := Load(link, stub, timeout);
    if l.Err? {
      return l;
    }
    r := Sentinel(link, timeout);
  }

  /** An OHAI frame at the head of the queue starts the stub, and is consumed. */
  lemma SentinelOfOhai(w: Wire, rest: seq<byte>, timeout: int)
    ensures SentinelOn(w.(queue := OHAI_FRAME + rest), timeout) == Step(Ok(()), w.(queue := rest))
  {
    OhaiFrame();
    NextFrameOfFrame(OHAI, rest, timeout);
  }

  /** Any other well-formed frame is an IOException, and IsStub stays false. */
  lemma SentinelOfOther(w: Wire, payload: seq<byte>, rest: seq<byte>, timeout: int)
    requires Plain(payload) && payload != OHAI
    ensures SentinelOn(w.(queue := Frame(payload) + rest), timeout) == Step(Err(IOFault(NoStubSentinel)), w.(queue := rest))
  {
    NextFrameOfFrame(payload, rest, timeout);
  }

  /**
   * A stub load that succeeded sent the text segment's frames, then the
   * data segment's, then MEM_END {0, entry point}.
   */
  lemma LoadSent(w: Wire, present: bool, d: Descriptor, stub: EspStub, timeout: int)
    requires LoadOn(w, present, Some(d), stub, timeout).result.Ok?
    ensures d.ramBlock > 0
    ensures LoadOn(w, present, Some(d), stub, timeout).wire.sent ==
      w.sent + EntryFrames(stub.text, d.ramBlock, stub.textStart) + EntryFrames(stub.data, d.ramBlock, stub.dataStart) +
      [Frame(PacketBytes(ESP_MEM_END, MemEndPayload(stub.entryPoint), 0))]
  {
    var t := StubEntryOn(w, present, Some(d), false, stub.textStart, stub.text, timeout);
    StubEntrySent(w, present, Some(d), false, stub.textStart, stub.text, timeout);
    var e := StubEntryOn(t.wire, present, Some(d), false, stub.dataStart, stub.data, timeout);
    StubEntrySent(t.wire, present, Some(d), false, stub.dataStart, stub.data, timeout);
    MemEndOpcodeByte();
    CheckOnSends(e.wire, present, Some(d), false, ESP_MEM_END as int, MemEndPayload(stub.entryPoint), 0, FinishTimeout(false));
  }

  /** C#'s (byte) cast leaves the MEM_END opcode as it is. */
  lemma MemEndOpcodeByte()
    ensures ByteOf(ESP_MEM_END as int) == ESP_MEM_END
  {
    var e := ByteFor(6);
    assert (e as int) as byte == e;
  }
}
