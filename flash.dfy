/*
 * Writing an image to flash (EspLink.Flash.cs): the compressed-download
 * commands FLASH_DEFL_BEGIN / DATA / END, the block loop of FlashAsync
 * with its reused, 0xFF-padded block buffer, per-block retry and progress
 * reports, and the zlib container (RFC 1950 section 2.2) that the image is
 * wrapped in, with its Adler-32 trailer.
 *
 * The DEFLATE bytes themselves (System.IO.Compression.DeflateStream) are an
 * input of the model: FlashAsync is given the image and its compressed
 * form, and only the container around the compressed form is built here.
 */
module Flash {
  import opened Results
  import opened Bytes
  import opened Devices
  import opened Packet
  import opened Framing
  import opened Session
  import opened Transport
  import opened Commands
  import opened Memory
  import opened Registers
  import opened Connect
  import opened Stub
  import opened Zlib

  // FlashDeflBeginAsync.

  /** ERASE_REGION_TIMEOUT_PER_MB: the value every non-negative timeout of FlashDeflBeginAsync is replaced by. */
  const ERASE_REGION_TIMEOUT_PER_MB: int := 30

  /** A C# uint. */
  type u32 = x: nat | x < 0x1_0000_0000

  /** uint arithmetic: the result modulo 2^32. */
  function Wrap(x: nat): u32
  {
    x % 0x1_0000_0000
  }

  /** A block size of 0 means the device's FLASH_WRITE_SIZE. */
  function FlashBlockSize(d: Descriptor, isStub: bool, blockSize: u32): (b: u32)
    ensures b != 0
    ensures blockSize != 0 ==> b == blockSize
    ensures blockSize == 0 ==> b == FlashWriteSize(d.chip, isStub)
  {
    if blockSize == 0 then FlashWriteSize(d.chip, isStub) else blockSize
  }

  /** C#'s uint (n + b - 1) / b: the sum wraps modulo 2^32 before the division. */
  function CeilDivU32(n: u32, b: u32): (q: u32)
    requires b != 0
    ensures n + b - 1 < 0x1_0000_0000 ==> q == Blocks(n, b)
  {
    var x := Wrap(n + b - 1);
    DivAtMost(x, b);
    x / b
  }

  /** A quotient is at most its dividend. */
  lemma DivAtMost(x: nat, b: nat)
    requires b > 0
    ensures x / b <= x
  {
    var q := x / b;
    assert q * b + x % b == x;
    MulAtLeast(q, b);
  }

  lemma MulAtLeast(q: nat, b: nat)
    requires b > 0
    ensures q <= q * b
  {
    assert q * b == q * (b - 1) + q;
  }

  /** The wrap is real: a compressed size of 2^32 - 1 in blocks of 0x400 gives no blocks at all. */
  lemma CeilDivU32Wraps()
    ensures CeilDivU32(0xFFFF_FFFF, 0x400) == 0
  {
  }

  /** write_size: the erase size rounded up to whole blocks, in uint arithmetic. */
  function WriteSize(size: u32, b: u32): u32
    requires b != 0
  {
    Wrap(CeilDivU32(size, b) * b)
  }

  /** Without wrap-around the erase size covers the image and is less than one block more. */
  lemma WriteSizeCovers(size: u32, b: u32)
    requires b != 0
    requires size + b - 1 < 0x1_0000_0000 && Blocks(size, b) * b < 0x1_0000_0000
    ensures size <= WriteSize(size, b) < size + b
  {
    var n := Blocks(size, b);
    if n > 0 {
      assert n * b == (n - 1) * b + b;
    }
  }

  /**
   * The timeout FlashDeflBeginAsync gives its command: any non-negative
   * timeout becomes 30, a negative one is kept.  The erase time computed
   * from write_size is not used.
   */
  function BeginTimeout(timeout: int): (t: int)
    ensures timeout >= 0 ==> t == ERASE_REGION_TIMEOUT_PER_MB
    ensures timeout < 0 ==> t == timeout
  {
    if timeout > -1 then ERASE_REGION_TIMEOUT_PER_MB else timeout
  }

  /**
   * The timeout FlashDeflBeginAsync evidently means to give its command:
   * the erase time of ERASE_REGION_TIMEOUT_PER_MB seconds per 10^6 bytes
   * of write_size, in whole milliseconds, or the caller's timeout when that
   * is longer; a negative timeout (wait forever) stays.
   */
  function EraseTimeout(timeout: int, writeSize: u32): (t: int)
    ensures timeout < 0 ==> t == timeout
    ensures timeout >= 0 ==> t >= timeout && t >= writeSize * ERASE_REGION_TIMEOUT_PER_MB / 1000
    ensures timeout >= 0 ==> t == timeout || t == writeSize * ERASE_REGION_TIMEOUT_PER_MB / 1000
  {
    var tm := writeSize * ERASE_REGION_TIMEOUT_PER_MB / 1000;
    if timeout > -1 then (if tm < timeout then timeout else tm) else timeout
  }

  /**
   * As written, a command that may take longer than 30 ms gets 30 ms: any
   * caller's timeout above 30, or an erase of 2000 bytes or more, is cut
   * short.  A 4 MB image with the usual 5 s timeout shows it.
   */
  lemma BeginTimeoutCutsShort(timeout: int, writeSize: u32)
    requires timeout >= 0 && (timeout > 30 || writeSize >= 2000)
    ensures BeginTimeout(timeout) < EraseTimeout(timeout, writeSize)
    ensures BeginTimeout(5000) == 30 && EraseTimeout(5000, 0x40_0000) == 125829
  {
    if writeSize >= 2000 {
      assert writeSize * 30 >= 2000 * 30;
      DivMono(2000 * 30, writeSize * 30, 1000);
    }
  }

  /**
   * The FLASH_DEFL_BEGIN payload {write_size, num_blocks, block size,
   * offset}, the same for ROM and stub; 4 more zero bytes when talking to a
   * ROM that supports encrypted flash, which neither supported chip does.
   */
  function BeginPayload(size: u32, compsize: u32, offset: bv32, b: u32, isStub: bool): (p: seq<byte>)
    requires b != 0
    ensures |p| == 16
    ensures Word32(p[0..4]) == U32(WriteSize(size, b)) && Word32(p[4..8]) == U32(CeilDivU32(compsize, b))
    ensures Word32(p[8..12]) == U32(b) && Word32(p[12..16]) == offset
  {
    var r := Record(U32(WriteSize(size, b)), U32(CeilDivU32(compsize, b)), U32(b), offset);
    RecordDecodes(U32(WriteSize(size, b)), U32(CeilDivU32(compsize, b)), U32(b), offset);
    var p := r + (if !isStub && SUPPORTS_ENCRYPTED_FLASH then [0, 0, 0, 0] else []);
    assert p[0..4] == r[0..4] && p[4..8] == r[4..8] && p[8..12] == r[8..12] && p[12..16] == r[12..16];
    p
  }

  /** FlashDeflBeginAsync on the wire: the number of blocks, or the error. */
  function DeflBeginOn(w: Wire, present: bool, device: Option<Descriptor>, isStub: bool, inBootloader: bool,
                       size: u32, compsize: u32, offset: bv32, blockSize: u32, timeout: int): (s: Step<u32>)
    ensures CheckReady(device, inBootloader, true).Err? ==> s == Step(Err(CheckReady(device, inBootloader, true).fault), w)
    ensures s.result.Ok? ==> device.Some? && s.result.value == CeilDivU32(compsize, FlashBlockSize(device.value, isStub, blockSize))
  {
    var ready := CheckReady(device, inBootloader, true);
    if ready.Err? then Step(Err(ready.fault), w)
    else BeginCommandOn(w, present, device, isStub, size, compsize, offset, FlashBlockSize(device.value, isStub, blockSize), timeout)
  }

  /** The FLASH_DEFL_BEGIN exchange once the block size is known. */
  function BeginCommandOn(w: Wire, present: bool, device: Option<Descriptor>, isStub: bool,
                          size: u32, compsize: u32, offset: bv32, b: u32, timeout: int): Step<u32>
    requires b != 0
  {
    var c := CheckOn(w, present, device, isStub, ESP_FLASH_DEFL_BEGIN as int, BeginPayload(size, compsize, offset, b, isStub), 0, BeginTimeout(timeout));
    if c.result.Err? then Step(Err(c.result.fault), c.wire) else Step(Ok(CeilDivU32(compsize, b)), c.wire)
  }

  /** The opcodes as C#'s (byte) casts leave them. */
  lemma DeflOpcodeBytes()
    ensures ByteOf(ESP_FLASH_DEFL_BEGIN as int) == ESP_FLASH_DEFL_BEGIN
    ensures ByteOf(ESP_FLASH_DEFL_DATA as int) == ESP_FLASH_DEFL_DATA
    ensures ByteOf(ESP_FLASH_DEFL_END as int) == ESP_FLASH_DEFL_END
  {
    var b, d, e := ByteFor(0x10), ByteFor(0x11), ByteFor(0x12);
    assert (b as int) as byte == b && (d as int) as byte == d && (e as int) as byte == e;
  }

  /**
   * A FLASH_DEFL_BEGIN that succeeded sent one frame with the payload above
   * and returned ceil(compsize / B) blocks, when compsize + B - 1 does not
   * wrap.
   */
  lemma DeflBeginSends(w: Wire, present: bool, device: Option<Descriptor>, isStub: bool, inBootloader: bool,
                       size: u32, compsize: u32, offset: bv32, blockSize: u32, timeout: int)
    requires DeflBeginOn(w, present, device, isStub, inBootloader, size, compsize, offset, blockSize, timeout).result.Ok?
    ensures device.Some? && inBootloader
    ensures var b := FlashBlockSize(device.value, isStub, blockSize);
      var s := DeflBeginOn(w, present, device, isStub, inBootloader, size, compsize, offset, blockSize, timeout);
      s.wire.sent == w.sent + [Frame(PacketBytes(ESP_FLASH_DEFL_BEGIN, BeginPayload(size, compsize, offset, b, isStub), 0))] &&
      s.wire.open &&
      (compsize + b - 1 < 0x1_0000_0000 ==> s.result.value == Blocks(compsize, b))
  {
    var b := FlashBlockSize(device.value, isStub, blockSize);
    DeflOpcodeBytes();
    CheckOnOkSends(w, present, device, isStub, ESP_FLASH_DEFL_BEGIN as int, BeginPayload(size, compsize, offset, b, isStub), 0, BeginTimeout(timeout));
  }

  /** The payload buffer of FlashDeflBeginAsync: 16 or 20 zero bytes, the first 16 packed. */
  method PackBegin(size: u32, compsize: u32, offset: bv32, b: u32, isStub: bool) returns (data: seq<byte>)
    requires b != 0
    ensures data == BeginPayload(size, compsize, offset, b, isStub)
  {
    var numBlocks := CeilDivU32(compsize, b);
    var writeSize := WriteSize(size, b);
    var buffer := new byte[if !isStub && SUPPORTS_ENCRYPTED_FLASH then 20 else 16](_ => 0);
    ghost var zeros := buffer[..];
    var _ := PackUInts(buffer, 0, [U32(writeSize), U32(numBlocks), U32(b), offset]);
    LEWords4(U32(writeSize), U32(numBlocks), U32(b), offset);
    assert zeros[16..] == [];
    data := buffer[..];
  }

  /** FlashDeflBeginAsync(size, compsize, offset, blockSize, timeout). */
  method DeflBegin(link: Link, size: u32, compsize: u32, offset: bv32, blockSize: u32, timeout: int) returns (r: Result<u32>)
    requires link.Valid()
    modifies link`port, link.hw, link`incoming, link`waited
    ensures link.Valid()
    ensures Step(r, WireOf(link)) == DeflBeginOn(old(WireOf(link)), link.hw.present, link.device, link.isStub, link.inBootloader, size, compsize, offset, blockSize, timeout)
  {
    var ready := CheckReady(link.device, link.inBootloader, true);
    if ready.Err? {
      return Err(ready.fault);
    }
    var b := blockSize;
    if b == 0 {
      b := FlashWriteSize(link.device.value.chip, link.isStub);
    }
    r := BeginCommand(link, size, compsize, offset, b, timeout);
  }

  /** The command half of FlashDeflBeginAsync. */
  method BeginCommand(link: Link, size: u32, compsize: u32, offset: bv32, b: u32, timeout: int) returns (r: Result<u32>)
    requires link.Valid() && b != 0
    modifies link`port, link.hw, link`incoming, link`waited
    ensures link.Valid()
    ensures Step(r, WireOf(link)) == BeginCommandOn(old(WireOf(link)), link.hw.present, link.device, link.isStub, size, compsize, offset, b, timeout)
  {
    var numBlocks := CeilDivU32(compsize, b);
    var t := if timeout > -1 then ERASE_REGION_TIMEOUT_PER_MB else timeout;
    var data := PackBegin(size, compsize, offset, b, link.isStub);
    var c := CheckCommand(link, ESP_FLASH_DEFL_BEGIN as int, data, 0, t);
    if c.Err? {
      return Err(c.fault);
    }
    r := Ok(numBlocks);
  }

  // FlashDeflBlockAsync.

  /** One try of FlashDeflBlockAsync: FLASH_DEFL_DATA with {len, seq, 0, 0} + data, checksummed over the data. */
  function DeflTryOn(w: Wire, present: bool, device: Option<Descriptor>, isStub: bool, data: seq<byte>, sequence: bv32, timeout: int): Step<()>
  {
    var c := CheckOn(w, present, device, isStub, ESP_FLASH_DEFL_DATA as int, MemBlockPayload(data, sequence), XorFold(data, CHECKSUM_SEED), timeout);
    Step(Unit(c.result), c.wire)
  }

  /** The frame one try sends. */
  function DeflDataFrame(data: seq<byte>, sequence: bv32): seq<byte>
  {
    Frame(PacketBytes(ESP_FLASH_DEFL_DATA, MemBlockPayload(data, sequence), XorFold(data, CHECKSUM_SEED)))
  }

  /**
   * The retry loop: up to n tries, stopping at the first success; after n
   * failures the last error, or "retry count exceeded" when there was none.
   */
  function RetriesOn(w: Wire, try: Wire -> Step<()>, n: nat, last: Option<Fault>): Step<()>
    decreases n
  {
    if n == 0 then Step(Err(if last.Some? then last.value else IOFault(RetryExceeded)), w)
    else
      var t := try(w);
      if t.result.Ok? then t else RetriesOn(t.wire, try, n - 1, Some(t.result.fault))
  }

  /** How many tries the loop makes. */
  function TriesMade(w: Wire, try: Wire -> Step<()>, n: nat): (k: nat)
    ensures k <= n
    decreases n
  {
    if n == 0 then 0
    else
      var t := try(w);
      if t.result.Ok? then 1 else 1 + TriesMade(t.wire, try, n - 1)
  }

  /** attempts < 1 counts as 1. */
  function TryCount(attempts: int): (n: nat)
    ensures n >= 1 && (attempts >= 1 ==> n == attempts)
  {
    if attempts < 1 then 1 else attempts
  }

  /** FlashDeflBlockAsync on the wire. */
  function DeflBlockOn(w: Wire, present: bool, device: Option<Descriptor>, isStub: bool, inBootloader: bool,
                       data: seq<byte>, sequence: bv32, attempts: int, timeout: int): (s: Step<()>)
    ensures CheckReady(device, inBootloader, true).Err? ==> s == Step(Err(CheckReady(device, inBootloader, true).fault), w)
  {
    var ready := CheckReady(device, inBootloader, true);
    if ready.Err? then Step(Err(ready.fault), w)
    else RetriesOn(w, TryWith(present, device, isStub, data, sequence, timeout), TryCount(attempts), None)
  }

  function TryWith(present: bool, device: Option<Descriptor>, isStub: bool, data: seq<byte>, sequence: bv32, timeout: int): Wire -> Step<()>
  {
    w => DeflTryOn(w, present, device, isStub, data, sequence, timeout)
  }

  /** `try` is one FLASH_DEFL_DATA try with these inputs. */
  ghost predicate IsTry(try: Wire -> Step<()>, present: bool, device: Option<Descriptor>, isStub: bool, data: seq<byte>, sequence: bv32, timeout: int)
  {
    forall w {:trigger At(w)} :: try(w) == DeflTryOn(w, present, device, isStub, data, sequence, timeout)
  }

  lemma TryWithIsTry(present: bool, device: Option<Descriptor>, isStub: bool, data: seq<byte>, sequence: bv32, timeout: int)
    ensures IsTry(TryWith(present, device, isStub, data, sequence, timeout), present, device, isStub, data, sequence, timeout)
  {
    forall w ensures TryWith(present, device, isStub, data, sequence, timeout)(w) == DeflTryOn(w, present, device, isStub, data, sequence, timeout) {
    }
  }

  /** Every try, on a port that is open or opens, sends `frame` once and leaves the port open. */
  ghost predicate SendsEach(try: Wire -> Step<()>, present: bool, frame: seq<byte>)
  {
    forall w: Wire {:trigger try(w)} :: (w.open || present) ==> try(w).wire.sent == w.sent + [frame] && try(w).wire.open
  }

  lemma TryWithSends(present: bool, device: Option<Descriptor>, isStub: bool, data: seq<byte>, sequence: bv32, timeout: int)
    ensures SendsEach(TryWith(present, device, isStub, data, sequence, timeout), present, DeflDataFrame(data, sequence))
  {
    var try := TryWith(present, device, isStub, data, sequence, timeout);
    forall w: Wire | w.open || present
      ensures try(w).wire.sent == w.sent + [DeflDataFrame(data, sequence)] && try(w).wire.open
    {
      DeflOpcodeBytes();
      var p := MemBlockPayload(data, sequence);
      var chk := XorFold(data, CHECKSUM_SEED);
      CheckOnSends(w, present, device, isStub, ESP_FLASH_DEFL_DATA as int, p, chk, timeout);
      var snd := SendOn(w, present, ESP_FLASH_DEFL_DATA as int, p, chk);
      assert snd.result.Ok?;
    }
  }

  /** k copies of a frame. */
  function Copies(frame: seq<byte>, k: nat): (fs: seq<seq<byte>>)
    ensures |fs| == k && forall i :: 0 <= i < k ==> fs[i] == frame
  {
    if k == 0 then [] else Copies(frame, k - 1) + [frame]
  }

  /**
   * The retry loop makes at least one and at most n tries, each sending the
   * same frame; it fails only after all n, and then with the last try's
   * error.
   */
  lemma {:induction false} RetriesSend(w: Wire, try: Wire -> Step<()>, present: bool, frame: seq<byte>, n: nat, last: Option<Fault>)
    requires SendsEach(try, present, frame) && (w.open || present) && n >= 1
    ensures var s := RetriesOn(w, try, n, last);
      var k := TriesMade(w, try, n);
      1 <= k && s.wire.sent == w.sent + Copies(frame, k) && s.wire.open && (s.result.Err? ==> k == n)
    decreases n
  {
    var t := try(w);
    if t.result.Err? && n > 1 {
      RetriesSend(t.wire, try, present, frame, n - 1, Some(t.result.fault));
      var k := TriesMade(t.wire, try, n - 1);
      assert [frame] + Copies(frame, k) == Copies(frame, k + 1) by {
        CopiesCons(frame, k);
      }
    } else if t.result.Err? {
      assert Copies(frame, 1) == [frame];
    } else {
      assert Copies(frame, 1) == [frame];
    }
  }

  lemma CopiesCons(frame: seq<byte>, k: nat)
    ensures [frame] + Copies(frame, k) == Copies(frame, k + 1)
  {
  }

  method TryStep(link: Link, ghost try: Wire -> Step<()>, data: seq<byte>, sequence: bv32, timeout: int) returns (r: Result<()>)
    requires link.Valid() && IsTry(try, link.hw.present, link.device, link.isStub, data, sequence, timeout)
    modifies link`port, link.hw, link`incoming, link`waited
    ensures link.Valid() && Step(r, WireOf(link)) == try(old(WireOf(link)))
  {
    assert At(WireOf(link));
    var pck := PackData(data, sequence);
    var c := CheckCommand(link, ESP_FLASH_DEFL_DATA as int, pck, XorFold(data, CHECKSUM_SEED), timeout);
    r := Unit(c);
  }

  /** The FLASH_DEFL_DATA packet buffer: {len, seq, 0, 0} packed, then the data copied in at 16. */
  method PackData(data: seq<byte>, sequence: bv32) returns (pck: seq<byte>)
    ensures pck == MemBlockPayload(data, sequence)
  {
    var buffer := new byte[16 + |data|](_ => 0);
    var _ := PackUInts(buffer, 0, [U32(|data|), sequence, 0, 0]);
    LEWords4(U32(|data|), sequence, 0, 0);
    CopyInto(data, buffer, 16);
    pck := buffer[..];
  }

  lemma RetriesStep(spec: Step<()>, w: Wire, try: Wire -> Step<()>, n: nat, last: Option<Fault>, r: Result<()>, after: Wire)
    requires n > 0
    requires spec == RetriesOn(w, try, n, last)
    requires Step(r, after) == try(w)
    ensures r.Ok? ==> spec == Step(r, after)
    ensures r.Err? ==> spec == RetriesOn(after, try, n - 1, Some(r.fault))
  {
  }

  /** FlashDeflBlockAsync(data, seq, attempts, timeout). */
  method DeflBlock(link: Link, data: seq<byte>, sequence: bv32, attempts: int, timeout: int) returns (r: Result<()>)
    requires link.Valid()
    modifies link`port, link.hw, link`incoming, link`waited
    ensures link.Valid()
    ensures Step(r, WireOf(link)) == DeflBlockOn(old(WireOf(link)), link.hw.present, link.device, link.isStub, link.inBootloader, data, sequence, attempts, timeout)
  {
    var ready := CheckReady(link.device, link.inBootloader, true);
    if ready.Err? {
      return Err(ready.fault);
    }
    r := Retry(link, data, sequence, attempts, timeout);
  }

  /** The retry loop of FlashDeflBlockAsync. */
  method Retry(link: Link, data: seq<byte>, sequence: bv32, attempts: int, timeout: int) returns (r: Result<()>)
    requires link.Valid()
    modifies link`port, link.hw, link`incoming, link`waited
    ensures link.Valid()
    ensures Step(r, WireOf(link)) == RetriesOn(old(WireOf(link)), TryWith(link.hw.present, link.device, link.isStub, data, sequence, timeout), TryCount(attempts), None)
  {
    var left := attempts;
    if left < 1 {
      left := 1;
    }
    ghost var try := TryWith(link.hw.present, link.device, link.isStub, data, sequence, timeout);
    TryWithIsTry(link.hw.present, link.device, link.isStub, data, sequence, timeout);
    ghost var spec := RetriesOn(WireOf(link), try, left, None);
    var lastErr: Option<Fault> := None;
    while left > 0
      invariant link.Valid() && spec == RetriesOn(WireOf(link), try, left, lastErr)
    {
      ghost var cur := WireOf(link);
      var t := TryStep(link, try, data, sequence, timeout);
      RetriesStep(spec, cur, try, left, lastErr, t, WireOf(link));
      if t.Ok? {
        return t;
      }
      lastErr := Some(t.fault);
      left := left - 1;
    }
    r := Err(if lastErr.Some? then lastErr.value else IOFault(RetryExceeded));
  }

  // FlashDeflFinishAsync.

  /** FlashDeflFinishAsync(reboot) on the wire: nothing to send to the ROM unless rebooting; otherwise DEFL_END {reboot ? 0 : 1}. */
  function DeflFinishOn(w: Wire, present: bool, device: Option<Descriptor>, isStub: bool, inBootloader: bool, reboot: bool, timeout: int): (s: Step<()>)
    ensures CheckReady(device, inBootloader, true).Err? ==> s == Step(Err(CheckReady(device, inBootloader, true).fault), w)
    ensures CheckReady(device, inBootloader, true).Ok? && !reboot && !isStub ==> s == Step(Ok(()), w)
  {
    var ready := CheckReady(device, inBootloader, true);
    if ready.Err? then Step(Err(ready.fault), w)
    else if !reboot && !isStub then Step(Ok(()), w)
    else
      var c := CheckOn(w, present, device, isStub, ESP_FLASH_DEFL_END as int, LE32(if !reboot then 1 else 0), 0, timeout);
      Step(Unit(c.result), c.wire)
  }

  /** Whether a finish leaves the bootloader: only a DEFL_END that was sent and succeeded does. */
  function FinishLeaves(s: Step<()>, isStub: bool, reboot: bool): bool
  {
    s.result.Ok? && (reboot || isStub)
  }

  /** A finish that sends DEFL_END sends exactly that frame: {1} when not rebooting, {0} when rebooting. */
  lemma DeflFinishSends(w: Wire, present: bool, device: Option<Descriptor>, isStub: bool, inBootloader: bool, reboot: bool, timeout: int)
    requires DeflFinishOn(w, present, device, isStub, inBootloader, reboot, timeout).result.Ok? && (reboot || isStub)
    ensures DeflFinishOn(w, present, device, isStub, inBootloader, reboot, timeout).wire.sent ==
      w.sent + [Frame(PacketBytes(ESP_FLASH_DEFL_END, LE32(if reboot then 0 else 1), 0))]
  {
    DeflOpcodeBytes();
    CheckOnOkSends(w, present, device, isStub, ESP_FLASH_DEFL_END as int, LE32(if !reboot then 1 else 0), 0, timeout);
  }

  /** FlashDeflFinishAsync(reboot, timeout). */
  method DeflFinish(link: Link, reboot: bool, timeout: int) returns (r: Result<()>)
    requires link.Valid()
    modifies link`port, link.hw, link`incoming, link`waited, link`inBootloader
    ensures link.Valid()
    ensures var s := DeflFinishOn(old(WireOf(link)), link.hw.present, link.device, link.isStub, old(link.inBootloader), reboot, timeout);
      Step(r, WireOf(link)) == s && link.inBootloader == (old(link.inBootloader) && !FinishLeaves(s, link.isStub, reboot))
  {
    var ready := CheckReady(link.device, link.inBootloader, true);
    if ready.Err? {
      return Err(ready.fault);
    }
    if !reboot && !link.isStub {
      return Ok(());
    }
    var notReboot: bv32 := if !reboot then 1 else 0;
    var c := CheckCommand(link, ESP_FLASH_DEFL_END as int, LE32(notReboot), 0, timeout);
    if c.Err? {
      return Err(c.fault);
    }
    link.inBootloader := false;
    r := Ok(());
  }

  /** A finishing DEFL_DATA block sends its frame once per try, between one and attempts tries, and fails only when every try did. */
  lemma DeflBlockSends(w: Wire, present: bool, device: Option<Descriptor>, isStub: bool, inBootloader: bool,
                       data: seq<byte>, sequence: bv32, attempts: int, timeout: int)
    requires CheckReady(device, inBootloader, true).Ok? && (w.open || present)
    ensures var s := DeflBlockOn(w, present, device, isStub, inBootloader, data, sequence, attempts, timeout);
      var k := TriesMade(w, TryWith(present, device, isStub, data, sequence, timeout), TryCount(attempts));
      1 <= k && s.wire.sent == w.sent + Copies(DeflDataFrame(data, sequence), k) && s.wire.open &&
      (s.result.Err? ==> k == TryCount(attempts))
  {
    TryWithSends(present, device, isStub, data, sequence, timeout);
    RetriesSend(w, TryWith(present, device, isStub, data, sequence, timeout), present, DeflDataFrame(data, sequence), TryCount(attempts), None);
  }

  // FlashAsync: the blocks.

  function Min(x: nat, y: nat): (m: nat)
    ensures m <= x && m <= y && (m == x || m == y)
  {
    if x <= y then x else y
  }

  /** n bytes of 0xFF. */
  function Fill(n: nat): (p: seq<byte>)
    ensures |p| == n && forall i :: 0 <= i < n ==> p[i] == 0xFF
  {
    seq(n, _ => 0xFF)
  }

  /**
   * The buffer FlashAsync sends as block k of the stream z: what a read of
   * b bytes at k*b returns (fewer at the end of the stream, none past it),
   * followed by 0xFF up to b bytes.
   */
  function FlashBlock(z: seq<byte>, b: nat, k: nat): (block: seq<byte>)
    ensures |block| == b
  {
    var lo := Min(k * b, |z|);
    var hi := Min(lo + b, |z|);
    z[lo..hi] + Fill(b - (hi - lo))
  }

  /** (k + 1) * b <= n * b when k < n. */
  lemma {:induction false} BlockEnd(b: nat, k: nat, n: nat)
    requires k < n
    ensures k * b + b <= n * b
    decreases n - k
  {
    assert (k + 1) * b == k * b + b;
    if k + 1 < n {
      BlockEnd(b, k + 1, n);
    }
  }

  /** With n blocks covering the stream, block k is the k-th b-byte slice of the stream padded with 0xFF to n*b bytes. */
  lemma FlashBlockIsSlice(z: seq<byte>, b: nat, n: nat, k: nat)
    requires n * b >= |z| && k < n
    ensures k * b + b <= n * b
    ensures FlashBlock(z, b, k) == (z + Fill(n * b - |z|))[k * b..k * b + b]
  {
    BlockEnd(b, k, n);
    var padded := z + Fill(n * b - |z|);
    var block := FlashBlock(z, b, k);
    var lo := Min(k * b, |z|);
    var hi := Min(lo + b, |z|);
    forall i | 0 <= i < b
      ensures block[i] == padded[k * b + i]
    {
      if k * b + i < |z| {
        assert lo == k * b && i < hi - lo;
      }
    }
  }

  /** FlashDeflBlockAsync of block k, with (uint)k as its sequence number. */
  function WriteOn(w: Wire, present: bool, device: Option<Descriptor>, isStub: bool, inBootloader: bool,
                   z: seq<byte>, b: nat, attempts: int, timeout: int, k: nat): Step<()>
  {
    DeflBlockOn(w, present, device, isStub, inBootloader, FlashBlock(z, b, k), U32(k), attempts, timeout)
  }

  function WriteWith(present: bool, device: Option<Descriptor>, isStub: bool, inBootloader: bool,
                     z: seq<byte>, b: nat, attempts: int, timeout: int): (Wire, nat) -> Step<()>
  {
    (w: Wire, k: nat) => WriteOn(w, present, device, isStub, inBootloader, z, b, attempts, timeout, k)
  }

  /** A trigger term for IsWrite. */
  ghost predicate Writing(w: Wire, k: nat)
  {
    true
  }

  /** `write` writes block k of z. */
  ghost predicate IsWrite(write: (Wire, nat) -> Step<()>, present: bool, device: Option<Descriptor>, isStub: bool, inBootloader: bool,
                          z: seq<byte>, b: nat, attempts: int, timeout: int)
  {
    forall w: Wire, k: nat {:trigger Writing(w, k)} :: write(w, k) == WriteOn(w, present, device, isStub, inBootloader, z, b, attempts, timeout, k)
  }

  lemma WriteWithIsWrite(present: bool, device: Option<Descriptor>, isStub: bool, inBootloader: bool,
                         z: seq<byte>, b: nat, attempts: int, timeout: int)
    ensures IsWrite(WriteWith(present, device, isStub, inBootloader, z, b, attempts, timeout), present, device, isStub, inBootloader, z, b, attempts, timeout)
  {
    forall w: Wire, k: nat
      ensures WriteWith(present, device, isStub, inBootloader, z, b, attempts, timeout)(w, k) == WriteOn(w, present, device, isStub, inBootloader, z, b, attempts, timeout, k)
    {
    }
  }

  /** How many of the blocks k .. n-1 succeed before the first failure. */
  function BlocksDone(w: Wire, block: (Wire, nat) -> Step<()>, n: nat, k: nat): (d: nat)
    ensures k <= n ==> d <= n - k
    decreases n - k
  {
    if k >= n then 0
    else
      var s := block(w, k);
      if s.result.Err? then 0 else 1 + BlocksDone(s.wire, block, n, k + 1)
  }

  /** The block loop succeeds exactly when every block does. */
  lemma {:induction false} BlocksDoneAll(w: Wire, block: (Wire, nat) -> Step<()>, n: nat, k: nat)
    requires k <= n
    ensures BlocksOn(w, block, n, k).result.Ok? <==> BlocksDone(w, block, n, k) == n - k
    decreases n - k
  {
    if k < n {
      var s := block(w, k);
      if s.result.Ok? {
        BlocksDoneAll(s.wire, block, n, k + 1);
      }
    }
  }

  // FlashAsync: progress.

  /** The reports after the first k of n blocks: (i * 100) / n for block i. */
  function Percents(n: nat, k: nat): (p: seq<int>)
    requires k <= n
    ensures |p| == k
    decreases k
  {
    if k == 0 then [] else Percents(n, k - 1) + [(k - 1) * 100 / n]
  }

  lemma {:induction false} PercentsAt(n: nat, k: nat, i: nat)
    requires i < k <= n
    ensures Percents(n, k)[i] == i * 100 / n
    decreases k
  {
    if i < k - 1 {
      PercentsAt(n, k - 1, i);
    }
  }

  /** Whole-number division keeps order. */
  lemma DivMono(x: nat, y: nat, n: nat)
    requires x <= y && n > 0
    ensures x / n <= y / n
  {
    var q := x / n;
    var r := x % n + (y - x);
    assert y == q * n + r;
    DivPlus(q, r, n);
  }

  lemma DivPlus(q: nat, r: nat, n: nat)
    requires n > 0
    ensures (q * n + r) / n == q + r / n
  {
    assert q * n + r == (q + r / n) * n + r % n;
    DivUnique(q * n + r, n, q + r / n, r % n);
  }

  /** The quotient is the only q with a == q * n + r, 0 <= r < n. */
  lemma DivUnique(a: nat, n: nat, q: nat, r: nat)
    requires n > 0 && a == q * n + r && r < n
    ensures a / n == q
  {
    var p, s := a / n, a % n;
    assert a == p * n + s;
    MulSign(q - p, n);
    assert (q - p) * n == q * n - p * n;
  }

  lemma MulSign(d: int, n: nat)
    requires n > 0
    ensures d >= 1 ==> d * n >= n
    ensures d <= -1 ==> d * n + n <= 0
  {
    if d >= 1 {
      MulAtLeast(n, d);
      assert n * d == d * n;
    } else if d <= -1 {
      MulAtLeast(n, -d);
      assert n * (-d) == -(d * n);
    }
  }

  /** i * 100 / n < 100 for i < n. */
  lemma PercentBelow(i: nat, n: nat)
    requires i < n
    ensures i * 100 / n < 100
  {
    assert i * 100 <= (n - 1) * 100;
    DivMono(i * 100, 99 * n + (n - 1), n);
    DivUnique(99 * n + (n - 1), n, 99, n - 1);
  }

  /** Progress values: non-decreasing and within 0 .. 100. */
  predicate Progressing(p: seq<int>)
  {
    (forall i :: 0 <= i < |p| ==> 0 <= p[i] <= 100) &&
    (forall i, j :: 0 <= i < j < |p| ==> p[i] <= p[j])
  }

  /** Each block report lies in 0 .. 99. */
  lemma PercentsBelow(n: nat, k: nat)
    requires k <= n
    ensures forall i :: 0 <= i < k ==> 0 <= Percents(n, k)[i] < 100
  {
    forall i | 0 <= i < k
      ensures 0 <= Percents(n, k)[i] < 100
    {
      PercentsAt(n, k, i);
      PercentBelow(i, n);
    }
  }

  /** The block reports never decrease. */
  lemma PercentsRise(n: nat, k: nat)
    requires k <= n
    ensures forall i, j :: 0 <= i < j < k ==> Percents(n, k)[i] <= Percents(n, k)[j]
  {
    forall i, j | 0 <= i < j < k
      ensures Percents(n, k)[i] <= Percents(n, k)[j]
    {
      PercentsAt(n, k, i);
      PercentsAt(n, k, j);
      DivMono(i * 100, j * 100, n);
    }
  }

  /** The block reports rise from 0 and stay below 100. */
  lemma PercentsProgress(n: nat, k: nat)
    requires k <= n
    ensures Progressing([0] + Percents(n, k) + [100])
    ensures forall i :: 0 <= i < k ==> Percents(n, k)[i] < 100
  {
    var p := Percents(n, k);
    PercentsBelow(n, k);
    PercentsRise(n, k);
    var q := [0] + p + [100];
    assert |q| == k + 2;
    assert forall i :: 0 < i < |q| - 1 ==> q[i] == p[i - 1];
    forall i, j | 0 <= i < j < |q|
      ensures q[i] <= q[j]
    {
      if 0 < i && j < |q| - 1 {
        assert q[i] == p[i - 1] && q[j] == p[j - 1];
      }
    }
  }

  // FlashAsync.

  /**
   * What FlashAsync does: its step on the wire; whether it got past its
   * checks to the first report; the number of blocks the DEFL_BEGIN reply
   * counted and how many of them were written; whether it reads the magic
   * register; whether it leaves the bootloader.
   */
  datatype Flashed = Flashed(step: Step<()>, began: bool, total: nat, written: nat, readsMagic: bool, leaves: bool)

  /** The reports FlashAsync makes: 0, (i * 100) / total after block i, and 100 once it has succeeded. */
  function Progress(f: Flashed): seq<int>
  {
    if !f.began then [] else [0] + Percents(f.total, Min(f.written, f.total)) + (if f.step.result.Ok? then [100] else [])
  }

  /**
   * The reports of a flash that wrote every block before succeeding: they
   * start at 0, never go down, stay within 0 .. 100, end in 100 exactly
   * when the flash succeeds, and number one per block besides.
   */
  lemma ProgressRises(f: Flashed)
    requires f.written <= f.total && (f.step.result.Ok? ==> f.began && f.written == f.total)
    ensures var p := Progress(f);
      Progressing(p) && (f.began ==> |p| >= 1 && p[0] == 0) &&
      (f.step.result.Ok? <==> |p| >= 1 && p[|p| - 1] == 100) &&
      (f.step.result.Ok? ==> |p| == f.total + 2)
  {
    if f.began {
      var k := f.written;
      PercentsProgress(f.total, k);
      var p := [0] + Percents(f.total, k);
      assert p == ([0] + Percents(f.total, k) + [100])[..|p|];
      assert k > 0 ==> p[|p| - 1] == Percents(f.total, k)[k - 1];
      assert Progress(f) == p || Progress(f) == p + [100];
    }
  }

  /**
   * FlashAsync(input, blockSize, offset, writeAttempts, finalize, timeout)
   * given deflated, the DEFLATE form of input: DEFL_BEGIN for the zlib
   * stream, one FLASH_DEFL_DATA per block, the stub's closing READ_REG and
   * the optional finish.  It succeeds only after writing every block it
   * counted; when the compressed size does not wrap, that count is the
   * number of blocks the zlib stream needs.
   */
  function FlashOn(w: Wire, present: bool, device: Option<Descriptor>, isStub: bool, inBootloader: bool,
                   input: seq<byte>, deflated: seq<byte>, blockSize: u32, offset: bv32, attempts: int, finalize: bool, timeout: int): (f: Flashed)
    ensures CheckReady(device, inBootloader, true).Err? ==> f == Flashed(Step(Err(CheckReady(device, inBootloader, true).fault), w), false, 0, 0, false, false)
    ensures CheckReady(device, inBootloader, true).Ok? ==> f.began
    ensures f.written <= f.total && (f.step.result.Ok? ==> f.written == f.total)
    ensures f.leaves ==> f.step.result.Ok? && finalize && isStub
    ensures f.step.result.Ok? && |ZlibStream(input, deflated)| + FlashWriteSizeOr(device, isStub, blockSize) - 1 < 0x1_0000_0000 ==>
      f.total == Blocks(|ZlibStream(input, deflated)|, FlashWriteSizeOr(device, isStub, blockSize))
  {
    var ready := CheckReady(device, inBootloader, true);
    if ready.Err? then Flashed(Step(Err(ready.fault), w), false, 0, 0, false, false)
    else
      var b := FlashBlockSize(device.value, isStub, blockSize);
      var z := ZlibStream(input, deflated);
      var begin := DeflBeginOn(w, present, device, isStub, inBootloader, Wrap(|input|), Wrap(|z|), offset, b, timeout);
      assert begin.result.Ok? && |z| + b - 1 < 0x1_0000_0000 ==> begin.result.value == Blocks(|z|, b) by {
        if begin.result.Ok? && |z| + b - 1 < 0x1_0000_0000 {
          WrapSmall(|z|);
          DeflBeginSends(w, present, device, isStub, inBootloader, Wrap(|input|), Wrap(|z|), offset, b, timeout);
        }
      }
      CompressedOn(w, present, device, isStub, inBootloader, Wrap(|input|), z, b, offset, attempts, finalize, timeout)
  }

  /** The block size FlashAsync uses: blockSize, or the device's FLASH_WRITE_SIZE for 0 (1 without a device, which never gets that far). */
  function FlashWriteSizeOr(device: Option<Descriptor>, isStub: bool, blockSize: u32): (b: u32)
    ensures b != 0 && (device.Some? ==> b == FlashBlockSize(device.value, isStub, blockSize))
  {
    if device.Some? then FlashBlockSize(device.value, isStub, blockSize) else 1
  }

  /**
   * The end of FlashAsync after its blocks: with the stub, a READ_REG of
   * the magic register whose failure ends the flash; then, when finalize
   * is set, FlashDeflFinishAsync(false, timeout).
   */
  function ConcludeOn(w: Wire, t: Target, inBootloader: bool, finalize: bool): (s: Step<()>)
    ensures !t.isStub && !finalize ==> s == Step(Ok(()), w)
  {
    var m := if t.isStub then AccessOn(w, t, RegRead(CHIP_DETECT_MAGIC_REG_ADDR)) else Step(Ok(()), w);
    if m.result.Err? || !finalize then m
    else DeflFinishOn(m.wire, t.present, t.device, t.isStub, inBootloader, false, t.timeout)
  }

  /** FlashAsync once the stream z is ready: DEFL_BEGIN with the (uint) lengths and blocks of b bytes, then FlashAfter. */
  function CompressedOn(w: Wire, present: bool, device: Option<Descriptor>, isStub: bool, inBootloader: bool,
                        uclen: u32, z: seq<byte>, b: u32, offset: bv32, attempts: int, finalize: bool, timeout: int): Flashed
  {
    FlashAfter(DeflBeginOn(w, present, device, isStub, inBootloader, uclen, Wrap(|z|), offset, b, timeout),
               WriteWith(present, device, isStub, inBootloader, z, b, attempts, timeout),
               ConcludeWith(present, device, isStub, inBootloader, finalize, timeout), isStub, finalize)
  }

  /** ConcludeOn as a function of the wire. */
  function ConcludeWith(present: bool, device: Option<Descriptor>, isStub: bool, inBootloader: bool, finalize: bool, timeout: int): Wire -> Step<()>
  {
    w => ConcludeOn(w, Target(present, device, isStub, timeout), inBootloader, finalize)
  }

  lemma ConcludeWithOn(present: bool, device: Option<Descriptor>, isStub: bool, inBootloader: bool, finalize: bool, timeout: int, w: Wire)
    ensures ConcludeWith(present, device, isStub, inBootloader, finalize, timeout)(w) == ConcludeOn(w, Target(present, device, isStub, timeout), inBootloader, finalize)
  {
  }

  /** FlashAsync after its checks, from the DEFL_BEGIN step on: a success wrote every block the reply counted. */
  function FlashAfter(begin: Step<u32>, write: (Wire, nat) -> Step<()>, conclude: Wire -> Step<()>, isStub: bool, finalize: bool): (f: Flashed)
    ensures f.began && f.written <= f.total
    ensures f.step.result.Ok? ==> begin.result.Ok? && f.total == begin.result.value && f.written == f.total
    ensures f.leaves ==> f.step.result.Ok? && finalize && isStub
  {
    if begin.result.Err? then Flashed(Step(Err(begin.result.fault), begin.wire), true, 0, 0, false, false)
    else FlashFrom(begin.wire, begin.result.value as nat, write, conclude, isStub, finalize)
  }

  /** The run after a DEFL_BEGIN that announced n blocks: the blocks from w on, then the end when every block went through. */
  function FlashFrom(w: Wire, n: nat, write: (Wire, nat) -> Step<()>, conclude: Wire -> Step<()>, isStub: bool, finalize: bool): (f: Flashed)
    ensures f.began && f.total == n && f.written <= n
    ensures f.step.result.Ok? ==> f.written == n
    ensures f.leaves ==> f.step.result.Ok? && finalize && isStub
  {
    var s := BlocksOn(w, write, n, 0);
    var done := BlocksDone(w, write, n, 0);
    BlocksDoneAll(w, write, n, 0);
    if s.result.Err? then Flashed(s, true, n, done, false, false)
    else
      var c := conclude(s.wire);
      Flashed(c, true, n, done, isStub, finalize && FinishLeaves(c, isStub, false))
  }

  /** A length below 2^32 survives the cast to uint. */
  lemma WrapSmall(x: nat)
    requires x < 0x1_0000_0000
    ensures Wrap(x) == x
  {
  }

  /** Reads up to block.Length bytes of the stream at pos into the block, then pads the rest of it with 0xFF. */
  method FillBlock(block: array<byte>, z: seq<byte>, pos: nat) returns (read: nat)
    requires pos <= |z|
    modifies block
    ensures read == Min(block.Length, |z| - pos)
    ensures block[..] == z[pos..pos + read] + Fill(block.Length - read)
  {
    read := Min(block.Length, |z| - pos);
    CopyInto(z[pos..pos + read], block, 0);
    var j := read;
    while j < block.Length
      invariant read <= j <= block.Length
      invariant block[..j] == z[pos..pos + read] + Fill(j - read)
    {
      block[j] := 0xFF;
      assert block[..j + 1] == block[..j] + [0xFF];
      j := j + 1;
    }
    assert block[..j] == block[..];
  }

  /** One block of FlashAsync's loop: FlashDeflBlockAsync(block, (uint)k, writeAttempts, timeout). */
  method WriteStep(link: Link, ghost write: (Wire, nat) -> Step<()>, z: seq<byte>, b: nat, data: seq<byte>, k: nat, attempts: int, timeout: int) returns (r: Result<()>)
    requires link.Valid() && IsWrite(write, link.hw.present, link.device, link.isStub, link.inBootloader, z, b, attempts, timeout)
    requires data == FlashBlock(z, b, k)
    modifies link`port, link.hw, link`incoming, link`waited
    ensures link.Valid() && Step(r, WireOf(link)) == write(old(WireOf(link)), k)
  {
    assert Writing(WireOf(link), k);
    r := DeflBlock(link, data, U32(k), attempts, timeout);
  }

  /** Block k of the loop: the next b bytes of the stream read into the buffer, padded, and sent. */
  method WriteNext(link: Link, ghost write: (Wire, nat) -> Step<()>, block: array<byte>, z: seq<byte>, b: u32, k: nat, pos: nat, attempts: int, timeout: int)
      returns (r: Result<()>, read: nat)
    requires link.Valid() && IsWrite(write, link.hw.present, link.device, link.isStub, link.inBootloader, z, b as nat, attempts, timeout)
    requires block.Length == b as nat && pos == Min(k * b as nat, |z|)
    modifies link`port, link.hw, link`incoming, link`waited, block
    ensures link.Valid() && Step(r, WireOf(link)) == write(old(WireOf(link)), k)
    ensures pos + read == Min((k + 1) * b as nat, |z|)
  {
    read := FillBlock(block, z, pos);
    assert (k + 1) * b as nat == k * b as nat + b as nat;
    r := WriteStep(link, write, z, b as nat, block[..], k, attempts, timeout);
  }

  /** One more block of the loop, as BlocksOn and BlocksDone count it. */
  lemma BlocksStep(w: Wire, block: (Wire, nat) -> Step<()>, n: nat, k: nat)
    requires k < n
    ensures var s := block(w, k);
      (s.result.Err? ==> BlocksOn(w, block, n, k) == s && BlocksDone(w, block, n, k) == 0) &&
      (s.result.Ok? ==> BlocksOn(w, block, n, k) == BlocksOn(s.wire, block, n, k + 1) &&
                        BlocksDone(w, block, n, k) == 1 + BlocksDone(s.wire, block, n, k + 1))
  {
  }

  /** The block loop of FlashAsync: n blocks of b bytes read from the stream into one reused buffer, each sent, then reported. */
  method WriteImage(link: Link, ghost write: (Wire, nat) -> Step<()>, z: seq<byte>, b: u32, n: u32, attempts: int, timeout: int) returns (r: Result<()>, reports: seq<int>)
    requires link.Valid() && IsWrite(write, link.hw.present, link.device, link.isStub, link.inBootloader, z, b as nat, attempts, timeout)
    modifies link`port, link.hw, link`incoming, link`waited
    ensures link.Valid() && Step(r, WireOf(link)) == BlocksOn(old(WireOf(link)), write, n as nat, 0)
    ensures reports == Percents(n as nat, BlocksDone(old(WireOf(link)), write, n as nat, 0))
  {
    ghost var spec := BlocksOn(WireOf(link), write, n as nat, 0);
    ghost var done := BlocksDone(WireOf(link), write, n as nat, 0);
    var block := new byte[b](_ => 0);
    var pos := 0;
    reports := [];
    var i := 0;
    while i < n as nat
      invariant link.Valid() && i <= n as nat && pos == Min(i * b as nat, |z|)
      invariant spec == BlocksOn(WireOf(link), write, n as nat, i)
      invariant done == i + BlocksDone(WireOf(link), write, n as nat, i)
      invariant reports == Percents(n as nat, i)
    {
      ghost var w := WireOf(link);
      BlocksStep(w, write, n as nat, i);
      var s, read := WriteNext(link, write, block, z, b, i, pos, attempts, timeout);
      if s.Err? {
        return s, reports;
      }
      reports := reports + [(i * 100) / n as nat];
      pos := pos + read;
      i := i + 1;
    }
    r := Ok(());
  }

  /**
   * What a FlashAsync call leaves behind, given the run f it follows: the
   * result and the wire after it, the percentages reported, and whether
   * the chip is still in its bootloader.
   */
  ghost predicate Reported(f: Flashed, r: Result<()>, reports: seq<int>, wire: Wire, inBootloader0: bool, inBootloader: bool)
  {
    Step(r, wire) == f.step && reports == Progress(f) && inBootloader == (inBootloader0 && !f.leaves)
  }

  /** FlashAsync(cancellationToken, uncompressedInput, blockSize, offset, writeAttempts, finalize, timeout, progress), with deflated the DEFLATE form of the input and the reports returned. */
  method FlashAsync(link: Link, input: seq<byte>, deflated: seq<byte>, blockSize: u32, offset: bv32, attempts: int, finalize: bool, timeout: int)
      returns (r: Result<()>, reports: seq<int>)
    requires link.Valid()
    modifies link`port, link.hw, link`incoming, link`waited, link`inBootloader
    ensures link.Valid()
    ensures Reported(FlashOn(old(WireOf(link)), link.hw.present, old(link.device), old(link.isStub), old(link.inBootloader), input, deflated, blockSize, offset, attempts, finalize, timeout),
                     r, reports, WireOf(link), old(link.inBootloader), link.inBootloader)
  {
    var ready := CheckReady(link.device, link.inBootloader, true);
    if ready.Err? {
      return Err(ready.fault), [];
    }
    r, reports := FlashReady(link, input, deflated, blockSize, offset, attempts, finalize, timeout);
  }

  /** FlashAsync past its check that a device is connected and in its bootloader. */
  method FlashReady(link: Link, input: seq<byte>, deflated: seq<byte>, blockSize: u32, offset: bv32, attempts: int, finalize: bool, timeout: int)
      returns (r: Result<()>, reports: seq<int>)
    requires link.Valid() && CheckReady(link.device, link.inBootloader, true).Ok?
    modifies link`port, link.hw, link`incoming, link`waited, link`inBootloader
    ensures link.Valid()
    ensures Reported(FlashOn(old(WireOf(link)), link.hw.present, old(link.device), old(link.isStub), old(link.inBootloader), input, deflated, blockSize, offset, attempts, finalize, timeout),
                     r, reports, WireOf(link), old(link.inBootloader), link.inBootloader)
  {
    var b := FlashBlockSize(link.device.value, link.isStub, blockSize);
    var z := CompressToZlib(input, deflated);
    var later;
    r, later := FlashCompressed(link, Wrap(|input|), z, b, offset, attempts, finalize, timeout);
    reports := [0] + later;
    assert link.device == old(link.device) && link.isStub == old(link.isStub);
    FlashOnReported(old(WireOf(link)), link.hw.present, old(link.device), old(link.isStub), old(link.inBootloader), input, deflated, blockSize, offset, attempts, finalize, timeout,
                    r, reports, WireOf(link), link.inBootloader);
  }

  /** FlashAsync once the stream is compressed: FlashDeflBeginAsync with the (uint) lengths, then the blocks and the end. */
  method FlashCompressed(link: Link, uclen: u32, z: seq<byte>, b: u32, offset: bv32, attempts: int, finalize: bool, timeout: int)
      returns (r: Result<()>, later: seq<int>)
    requires link.Valid() && b != 0
    modifies link`port, link.hw, link`incoming, link`waited, link`inBootloader
    ensures link.Valid()
    ensures Reported(CompressedOn(old(WireOf(link)), link.hw.present, link.device, link.isStub, old(link.inBootloader), uclen, z, b, offset, attempts, finalize, timeout),
                     r, [0] + later, WireOf(link), old(link.inBootloader), link.inBootloader)
  {
    var cln := Wrap(|z|);
    ghost var beginStep := DeflBeginOn(WireOf(link), link.hw.present, link.device, link.isStub, link.inBootloader, uclen, cln, offset, b, timeout);
    var begin := DeflBegin(link, uclen, cln, offset, b, timeout);
    ghost var write := WriteWith(link.hw.present, link.device, link.isStub, link.inBootloader, z, b, attempts, timeout);
    ghost var conclude := ConcludeWith(link.hw.present, link.device, link.isStub, link.inBootloader, finalize, timeout);
    WriteWithIsWrite(link.hw.present, link.device, link.isStub, link.inBootloader, z, b as nat, attempts, timeout);
    r, later := FlashBlocks(link, beginStep, write, conclude, begin, z, b, attempts, finalize, timeout);
    assert link.device == old(link.device) && link.isStub == old(link.isStub);
  }

  /** FlashAsync from the DEFL_BEGIN reply on: the block loop, the stub's READ_REG of the magic register, the optional finish, the report of 100. */
  method FlashBlocks(link: Link, ghost beginStep: Step<u32>, ghost write: (Wire, nat) -> Step<()>, ghost conclude: Wire -> Step<()>,
                     begin: Result<u32>, z: seq<byte>, b: u32, attempts: int, finalize: bool, timeout: int)
      returns (r: Result<()>, later: seq<int>)
    requires link.Valid() && beginStep == Step(begin, WireOf(link))
    requires IsWrite(write, link.hw.present, link.device, link.isStub, link.inBootloader, z, b as nat, attempts, timeout)
    requires conclude == ConcludeWith(link.hw.present, link.device, link.isStub, link.inBootloader, finalize, timeout)
    modifies link`port, link.hw, link`incoming, link`waited, link`inBootloader
    ensures link.Valid()
    ensures Reported(FlashAfter(beginStep, write, conclude, link.isStub, finalize),
                     r, [0] + later, WireOf(link), old(link.inBootloader), link.inBootloader)
  {
    if begin.Err? {
      return Err(begin.fault), [];
    }
    r, later := WriteAndConclude(link, write, conclude, z, b, begin.value, attempts, finalize, timeout);
  }

  /** The blocks FlashAsync sends after a DEFL_BEGIN that announced n of them, then its end and the report of 100. */
  method WriteAndConclude(link: Link, ghost write: (Wire, nat) -> Step<()>, ghost conclude: Wire -> Step<()>,
                          z: seq<byte>, b: u32, n: u32, attempts: int, finalize: bool, timeout: int)
      returns (r: Result<()>, later: seq<int>)
    requires link.Valid()
    requires IsWrite(write, link.hw.present, link.device, link.isStub, link.inBootloader, z, b as nat, attempts, timeout)
    requires conclude == ConcludeWith(link.hw.present, link.device, link.isStub, link.inBootloader, finalize, timeout)
    modifies link`port, link.hw, link`incoming, link`waited, link`inBootloader
    ensures link.Valid()
    ensures Reported(FlashFrom(old(WireOf(link)), n as nat, write, conclude, link.isStub, finalize),
                     r, [0] + later, WireOf(link), old(link.inBootloader), link.inBootloader)
  {
    ghost var w, inBootloader := WireOf(link), link.inBootloader;
    BlocksDoneAll(w, write, n as nat, 0);
    r, later := WriteImage(link, write, z, b, n, attempts, timeout);
    if r.Err? {
      ReportedFrom(w, n as nat, write, conclude, link.isStub, finalize, r, later, WireOf(link), inBootloader, link.inBootloader);
      return;
    }
    ConcludeWithOn(link.hw.present, link.device, link.isStub, link.inBootloader, finalize, timeout, WireOf(link));
    r := Conclude(link, finalize, timeout);
    if r.Ok? {
      later := later + [100];
    }
    ReportedFrom(w, n as nat, write, conclude, link.isStub, finalize, r, later, WireOf(link), inBootloader, link.inBootloader);
  }

  /** The outcome, the reports and the bootloader flag that the blocks and the end leave are what FlashFrom and Reported say. */
  lemma ReportedFrom(w: Wire, n: nat, write: (Wire, nat) -> Step<()>, conclude: Wire -> Step<()>, isStub: bool, finalize: bool,
                     r: Result<()>, later: seq<int>, wire: Wire, inBootloader0: bool, inBootloader: bool)
    requires var s := BlocksOn(w, write, n, 0);
      if s.result.Err? then Step(r, wire) == s && later == Percents(n, BlocksDone(w, write, n, 0)) && inBootloader == inBootloader0
      else
        BlocksDone(w, write, n, 0) == n && Step(r, wire) == conclude(s.wire) && later == Percents(n, n) + (if r.Ok? then [100] else []) &&
        inBootloader == (inBootloader0 && !(finalize && FinishLeaves(conclude(s.wire), isStub, false)))
    ensures Reported(FlashFrom(w, n, write, conclude, isStub, finalize), r, [0] + later, wire, inBootloader0, inBootloader)
  {
    BlocksDoneAll(w, write, n, 0);
  }

  /** The end of FlashAsync after its blocks: the stub's READ_REG of the magic register, then FlashDeflFinishAsync(false) when finalize is set. */
  method Conclude(link: Link, finalize: bool, timeout: int) returns (r: Result<()>)
    requires link.Valid()
    modifies link`port, link.hw, link`incoming, link`waited, link`inBootloader
    ensures link.Valid()
    ensures var s := ConcludeOn(old(WireOf(link)), TargetOf(link, timeout), old(link.inBootloader), finalize);
      Step(r, WireOf(link)) == s && link.inBootloader == (old(link.inBootloader) && !(finalize && FinishLeaves(s, link.isStub, false)))
  {
    r := ReadMagic(link, timeout);
    if r.Err? {
      return;
    }
    if finalize {
      r := DeflFinish(link, false, timeout);
    }
  }

  /** The stub's READ_REG of CHIP_DETECT_MAGIC_REG_ADDR at the end of FlashAsync, its value dropped; nothing for the ROM loader. */
  method ReadMagic(link: Link, timeout: int) returns (r: Result<()>)
    requires link.Valid()
    modifies link`port, link.hw, link`incoming, link`waited
    ensures link.Valid()
    ensures Step(r, WireOf(link)) ==
      if link.isStub then AccessOn(old(WireOf(link)), TargetOf(link, timeout), RegRead(CHIP_DETECT_MAGIC_REG_ADDR)) else Step(Ok(()), old(WireOf(link)))
  {
    r := Ok(());
    if link.isStub {
      var m := ReadReg(link, CHIP_DETECT_MAGIC_REG_ADDR, timeout);
      r := Unit(m);
    }
  }

  /** Past its checks, FlashAsync is DEFL_BEGIN for the zlib stream in blocks of FlashBlockSize, then FlashAfter. */
  lemma FlashOnReported(w: Wire, present: bool, device: Option<Descriptor>, isStub: bool, inBootloader: bool,
                        input: seq<byte>, deflated: seq<byte>, blockSize: u32, offset: bv32, attempts: int, finalize: bool, timeout: int,
                        r: Result<()>, reports: seq<int>, wire: Wire, inBootloader1: bool)
    requires CheckReady(device, inBootloader, true).Ok?
    requires Reported(CompressedOn(w, present, device, isStub, inBootloader, Wrap(|input|), ZlibStream(input, deflated), FlashBlockSize(device.value, isStub, blockSize),
                                   offset, attempts, finalize, timeout),
                      r, reports, wire, inBootloader, inBootloader1)
    ensures Reported(FlashOn(w, present, device, isStub, inBootloader, input, deflated, blockSize, offset, attempts, finalize, timeout),
                     r, reports, wire, inBootloader, inBootloader1)
  {
  }
}
