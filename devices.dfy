/*
 * Device descriptors (EspDevice.cs, Devices/Esp32Device.cs,
 * Devices/Esp32S3Device.cs): the per-chip constant tables the link
 * consults once a chip has been identified.  Every registered chip keeps
 * the base class's opcodes, so those are plain constants here; the
 * properties a chip overrides are functions of the chip.  The only
 * mutable part of a descriptor is ESP_RAM_BLOCK, which the S3 hook may
 * lower after connecting.
 */
module Devices {
  import opened Results
  import opened Bytes

  /** The chips the link can create descriptors for. */
  datatype Chip = Esp32 | Esp32S3

  /** A descriptor: its chip and the current RAM download block size. */
  datatype Descriptor = Descriptor(chip: Chip, ramBlock: nat)

  // Opcodes of the ROM and stub loaders (base class defaults, never overridden).
  const ESP_FLASH_BEGIN: byte := 0x02
  const ESP_FLASH_DATA: byte := 0x03
  const ESP_FLASH_END: byte := 0x04
  const ESP_MEM_BEGIN: byte := 0x05
  const ESP_MEM_END: byte := 0x06
  const ESP_MEM_DATA: byte := 0x07
  const ESP_SYNC: byte := 0x08
  const ESP_WRITE_REG: byte := 0x09
  const ESP_READ_REG: byte := 0x0A
  const ESP_SPI_SET_PARAMS: byte := 0x0B
  const ESP_SPI_ATTACH: byte := 0x0D
  const ESP_READ_FLASH_SLOW: byte := 0x0E
  const ESP_CHANGE_BAUDRATE: byte := 0x0F
  const ESP_FLASH_DEFL_BEGIN: byte := 0x10
  const ESP_FLASH_DEFL_DATA: byte := 0x11
  const ESP_FLASH_DEFL_END: byte := 0x12
  const ESP_SPI_FLASH_MD5: byte := 0x13
  const ESP_GET_SECURITY_INFO: byte := 0x14
  const ESP_ERASE_FLASH: byte := 0xD0
  const ESP_ERASE_REGION: byte := 0xD1
  const ESP_READ_FLASH: byte := 0xD2
  const ESP_RUN_USER_CODE: byte := 0xD3

  /** The status byte the ROM puts in a reply to a message it does not understand. */
  const ROM_INVALID_RECV_MSG: byte := 0x05

  /** Base-class defaults that no registered chip overrides. */
  const DEFAULT_RAM_BLOCK: nat := 0x1800
  const DEFAULT_FLASH_WRITE_SIZE: nat := 0x400
  const CHIP_DETECT_MAGIC_REG_ADDR: bv32 := 0x4000_1000
  const SUPPORTS_ENCRYPTED_FLASH: bool := false
  const ESP_ROM_BAUD: nat := 115200

  /** The base class's STATUS_BYTES_LENGTH; both registered chips override it. */
  const DEFAULT_STATUS_BYTES_LENGTH: nat := 2

  /** The base class's SPI length-register offsets: -1 selects the old packed encoding. */
  const DEFAULT_DLEN_OFFS: int := -1

  /** The name and magic value of each chip's EspDevice attribute; the id is left at 0. */
  function ChipName(c: Chip): string
  {
    match c
    case Esp32 => "ESP32"
    case Esp32S3 => "ESP32-S3"
  }

  function Magic(c: Chip): bv32
  {
    match c
    case Esp32 => 0x00F0_1D83
    case Esp32S3 => 0x09
  }

  function Id(c: Chip): bv32 { 0 }

  /** The descriptor types in the order the type scan meets them. */
  const REGISTRY: seq<Chip> := [Esp32, Esp32S3]

  /** A new descriptor of a chip, as its constructor leaves it. */
  function NewDescriptor(c: Chip): (d: Descriptor)
    ensures d.chip == c && d.ramBlock == DEFAULT_RAM_BLOCK
  {
    Descriptor(c, DEFAULT_RAM_BLOCK)
  }

  /** STATUS_BYTES_LENGTH: both chips use 4 status bytes under the ROM and 2 under the stub. */
  function StatusBytesLength(c: Chip, isStub: bool): (n: nat)
    ensures n == 2 || n == 4
    ensures n == 2 <==> isStub
  {
    if isStub then 2 else 4
  }

  /** FLASH_WRITE_SIZE: the S3 raises it to 0x4000 under the stub. */
  function FlashWriteSize(c: Chip, isStub: bool): (n: nat)
    ensures n == DEFAULT_FLASH_WRITE_SIZE || n == 0x4000
    ensures n == 0x4000 <==> c == Esp32S3 && isStub
  {
    if c == Esp32S3 && isStub then 0x4000 else DEFAULT_FLASH_WRITE_SIZE
  }

  /** The SPI controller's register layout: a base address and offsets from it. */
  datatype SpiLayout = SpiLayout(base: bv32, usr: bv32, usr1: bv32, usr2: bv32, mosiDlen: int, misoDlen: int, w0: bv32)

  function Spi(c: Chip): (l: SpiLayout)
    ensures l.mosiDlen != DEFAULT_DLEN_OFFS && l.misoDlen != DEFAULT_DLEN_OFFS
  {
    match c
    case Esp32 => SpiLayout(0x3FF4_2000, 0x1C, 0x20, 0x24, 0x28, 0x2C, 0x80)
    case Esp32S3 => SpiLayout(0x6000_2000, 0x18, 0x1C, 0x20, 0x24, 0x28, 0x58)
  }

  /** EFUSE_RD_REG_BASE; the RDATA3/RDATA5 properties are absolute addresses above it. */
  function EfuseBase(c: Chip): bv32
  {
    match c
    case Esp32 => 0x3FF5_A000
    case Esp32S3 => 0x6000_7000 + 0x44
  }

  function EfuseRData3(c: Chip): bv32 { EfuseBase(c) + 0x00C }
  function EfuseRData5(c: Chip): bv32 { EfuseBase(c) + 0x014 }

  /**
   * FLASH_SIZES, the same table on both chips, keyed by the size-id byte
   * (held here as its numeric value): size id 0x10*k means 1024 * 2^k.
   */
  const FLASH_SIZES: map<int, int> := map[
    0x00 := 1 * 1024, 0x10 := 2 * 1024, 0x20 := 4 * 1024, 0x30 := 8 * 1024,
    0x40 := 16 * 1024, 0x50 := 32 * 1024, 0x60 := 64 * 1024, 0x70 := 128 * 1024]

  function Pow2(k: nat): (p: nat)
    ensures p >= 1
  {
    if k == 0 then 1 else 2 * Pow2(k - 1)
  }

  /** FLASH_SIZES holds exactly the keys 0x00, 0x10, ..., 0x70, and key 0x10*k maps to 1024 * 2^k. */
  lemma FlashSizesTable()
    ensures forall id :: id in FLASH_SIZES <==> 0 <= id <= 0x70 && id % 0x10 == 0
    ensures forall k: nat :: k < 8 ==> FLASH_SIZES[0x10 * k] == 1024 * Pow2(k)
  {
    assert Pow2(1) == 2 && Pow2(2) == 4 && Pow2(3) == 8 && Pow2(4) == 16;
    assert Pow2(5) == 32 && Pow2(6) == 64 && Pow2(7) == 128;
  }

  /** The FlashSize property's lookup: the size id is byte 2 of the flash id; -1 when unknown. */
  function FlashSizeOf(flashId: bv32): (size: int)
    ensures size == -1 || 1024 <= size <= 128 * 1024
    ensures size == -1 <==> (((flashId >> 16) & 0xFF) as byte) as int !in FLASH_SIZES
  {
    var sizeId := (((flashId >> 16) & 0xFF) as byte) as int;
    if sizeId in FLASH_SIZES then FLASH_SIZES[sizeId] else -1
  }

  // ESP32-S3 registers used by the post-connect hook.
  const UARTDEV_BUF_NO: bv32 := 0x3FCE_F14C
  const UARTDEV_BUF_NO_USB_OTG: bv32 := 3
  const UARTDEV_BUF_NO_USB_JTAG_SERIAL: bv32 := 4
  const USB_RAM_BLOCK: nat := 0x800
  const RTCCNTL_BASE_REG: bv32 := 0x6000_8000
  const RTC_CNTL_SWD_CONF_REG: bv32 := RTCCNTL_BASE_REG + 0x00B4
  const RTC_CNTL_SWD_AUTO_FEED_EN: bv32 := 1 << 31
  const RTC_CNTL_SWD_WPROTECT_REG: bv32 := RTCCNTL_BASE_REG + 0x00B8
  const RTC_CNTL_SWD_WKEY: bv32 := 0x8F1D_312A
  const RTC_CNTL_WDTCONFIG0_REG: bv32 := RTCCNTL_BASE_REG + 0x0098
  const RTC_CNTL_WDTWPROTECT_REG: bv32 := RTCCNTL_BASE_REG + 0x00B0
  const RTC_CNTL_WDT_WKEY: bv32 := 0x50D8_3AA1

  /**
   * The registry scan of CreateDevice: the first registered chip whose
   * magic (or, in id mode, whose id) equals the value.
   */
  function FindChip(registry: seq<Chip>, value: bv32, isId: bool): (r: Option<Chip>)
    ensures r.Some? ==> r.value in registry && (if isId then Id(r.value) else Magic(r.value)) == value
    ensures r.None? ==> forall c :: c in registry ==> (if isId then Id(c) else Magic(c)) != value
  {
    if registry == [] then None
    else if (if isId then Id(registry[0]) else Magic(registry[0])) == value then Some(registry[0])
    else FindChip(registry[1..], value, isId)
  }

  /** The magic values select the two descriptors; in id mode only 0 matches, and it picks the first. */
  lemma RegistrySelects()
    ensures FindChip(REGISTRY, 0x00F0_1D83, false) == Some(Esp32)
    ensures FindChip(REGISTRY, 0x09, false) == Some(Esp32S3)
    ensures FindChip(REGISTRY, 0, true) == Some(Esp32)
    ensures forall v: bv32 :: v != 0x00F0_1D83 && v != 0x09 ==> FindChip(REGISTRY, v, false) == None
    ensures forall v: bv32 :: v != 0 ==> FindChip(REGISTRY, v, true) == None
  {
  }
}
