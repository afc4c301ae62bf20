/*
 * Command packets of the serial bootloader protocol (EspLink.Command.cs):
 * an 8-byte header [direction][op][length u16 LE][value/checksum u32 LE]
 * followed by the payload.  Requests carry direction 0x00; replies carry
 * 0x01, which the unpacker does not look at.
 */
module Packet {
  import opened Results
  import opened Bytes

  /** A request as the link sends it: opcode, payload and checksum word. */
  datatype Request = Request(op: byte, data: seq<byte>, chk: bv32)

  /** A packet as UnpackOpPacket returns it. */
  datatype Reply = Reply(op: byte, length: nat, chk: bv32, data: seq<byte>)

  /** The u16 length field, little-endian: (ushort)n, low byte first. */
  function LengthBytes(n: nat): seq<byte>
  {
    [(n % 0x100) as byte, ((n / 0x100) % 0x100) as byte]
  }

  /** BitConverter.ToUInt16 of the two length bytes, little-endian. */
  function LengthOf(lo: byte, hi: byte): (n: nat)
    ensures n < 0x1_0000
  {
    lo as int + 0x100 * hi as int
  }

  /** The byte whose value is x, counted up from 0. */
  function ByteFor(x: nat): (b: byte)
    requires x < 0x100
    ensures b as int == x
  {
    if x == 0 then 0 else ByteFor(x - 1) + 1
  }

  /** A cast to byte of a value below 256 keeps the value. */
  lemma ByteOfSmall(x: int)
    requires 0 <= x < 0x100
    ensures (x as byte) as int == x
  {
    var b := ByteFor(x);
    assert (b as int) as byte == b;
  }

  /** The two byte digits of n put back together give n modulo 65536. */
  lemma ByteDigits(n: nat)
    ensures n % 0x100 + 0x100 * ((n / 0x100) % 0x100) == n % 0x1_0000
  {
    var q, r := n / 0x100, n % 0x100;
    var t, u := q / 0x100, q % 0x100;
    assert n == 0x100 * q + r;
    assert q == 0x100 * t + u;
    var v := 0x100 * u + r;
    assert 0 <= v < 0x1_0000;
    assert n == 0x1_0000 * t + v;
    ModOfSum(n, t, v);
  }

  lemma ModOfSum(n: int, t: int, v: int)
    requires n == 0x1_0000 * t + v && 0 <= v < 0x1_0000
    ensures n % 0x1_0000 == v
  {
  }

  /** Reading the length field back gives the length modulo 65536. */
  lemma LengthRoundTrip(n: nat)
    ensures LengthOf(LengthBytes(n)[0], LengthBytes(n)[1]) == n % 0x1_0000
  {
    var lo, hi := n % 0x100, (n / 0x100) % 0x100;
    ByteOfSmall(lo);
    ByteOfSmall(hi);
    ByteDigits(n);
  }

  /** The bytes PackOpPacket writes; the length field is the payload length cast to ushort. */
  function PacketBytes(op: byte, data: seq<byte>, chk: bv32): (r: seq<byte>)
    ensures |r| == 8 + |data|
    ensures r[0] == 0x00 && r[1] == op && r[8..] == data
  {
    [0x00, op] + LengthBytes(|data|) + LE32(chk) + data
  }

  function RequestBytes(q: Request): (r: seq<byte>)
    ensures |r| == 8 + |q.data|
  {
    PacketBytes(q.op, q.data, q.chk)
  }

  /**
   * PackOpPacket: writes the header and the payload into destination from
   * index on.  Every caller passes a buffer of exactly 8 + |data| bytes.
   */
  method PackOpPacket(op: byte, data: seq<byte>, chk: bv32, destination: array<byte>, index: nat)
    requires index + 8 + |data| <= destination.Length
    modifies destination
    ensures destination[..] == old(destination[..index]) + PacketBytes(op, data, chk) + old(destination[index + 8 + |data|..])
  {
    ghost var before := destination[..];
    PackHeader(op, |data|, chk, destination, index);
    ghost var header := [0x00, op] + LengthBytes(|data|) + LE32(chk);
    SpliceNext(before, index, header, data);
    CopyInto(data, destination, index + 8);
  }

  /** The eight header bytes of PackOpPacket: direction 0, the opcode, the length field, the checksum word. */
  method PackHeader(op: byte, n: nat, chk: bv32, destination: array<byte>, index: nat)
    requires index + 8 <= destination.Length
    modifies destination
    ensures destination[..] == old(destination[..index]) + ([0x00, op] + LengthBytes(n) + LE32(chk)) + old(destination[index + 8..])
  {
    ghost var before := destination[..];
    destination[index] := 0x00;
    destination[index + 1] := op;
    ghost var done: seq<byte> := [0x00, op];
    assert destination[..] == before[..index] + done + before[index + 2..];
    SpliceNext(before, index, done, LengthBytes(n));
    CopyInto(LengthBytes(n), destination, index + 2);
    done := done + LengthBytes(n);
    SpliceNext(before, index, done, LE32(chk));
    CopyInto(LE32(chk), destination, index + 4);
  }

  /**
   * UnpackOpPacket(data, index): fewer than index + 8 bytes is an
   * ArgumentException; so is a length field that promises more payload
   * than the bytes hold (Array.Copy's check).  Bytes after the payload
   * are ignored.
   */
  function Unpack(frame: seq<byte>, index: nat): (r: Result<Reply>)
    ensures r.Err? ==> r.fault == ArgumentFault
    ensures r.Ok? <==> index + 8 <= |frame| && index + 8 + LengthOf(frame[index + 2], frame[index + 3]) <= |frame|
    ensures r.Ok? ==> r.value.length == LengthOf(frame[index + 2], frame[index + 3]) == |r.value.data| && r.value.op == frame[index + 1] && r.value.data == frame[index + 8..index + 8 + r.value.length]
  {
    if |frame| < 8 + index then Err(ArgumentFault)
    else
      var len := LengthOf(frame[index + 2], frame[index + 3]);
      var chk := Word32(frame[index + 4..index + 8]);
      if index + 8 + len > |frame| then Err(ArgumentFault)
      else Ok(Reply(frame[index + 1], len, chk, frame[index + 8..index + 8 + len]))
  }

  /** Unpacking a packed request gives back its opcode, length, checksum and payload. */
  lemma UnpackOfPack(op: byte, data: seq<byte>, chk: bv32)
    requires |data| < 0x1_0000
    ensures Unpack(PacketBytes(op, data, chk), 0) == Ok(Reply(op, |data|, chk, data))
  {
    var p := PacketBytes(op, data, chk);
    assert p[2] == LengthBytes(|data|)[0] && p[3] == LengthBytes(|data|)[1];
    assert p[4..8] == LE32(chk);
    LengthRoundTrip(|data|);
    ModOfSum(|data|, 0, |data|);
    Word32OfLE32(chk);
    assert p[8..8 + |data|] == data;
  }

  /** The direction byte is never looked at. */
  lemma UnpackIgnoresDirection(frame: seq<byte>, d: byte)
    requires |frame| >= 1
    ensures Unpack([d] + frame[1..], 0) == Unpack(frame, 0)
  {
    var g := [d] + frame[1..];
    assert |g| == |frame|;
    if |frame| >= 8 {
      assert g[1] == frame[1] && g[2] == frame[2] && g[3] == frame[3];
      assert g[4..8] == frame[4..8];
      var len := LengthOf(frame[2], frame[3]);
      if 8 + len <= |frame| {
        assert g[8..8 + len] == frame[8..8 + len];
      }
    }
  }

  /**
   * A payload of 65536 bytes or more has its length field wrapped: the
   * unpacked payload is only the first |data| mod 65536 bytes.
   */
  lemma UnpackOfLongPack(op: byte, data: seq<byte>, chk: bv32)
    requires |data| >= 0x1_0000
    ensures Unpack(PacketBytes(op, data, chk), 0) == Ok(Reply(op, |data| % 0x1_0000, chk, data[..|data| % 0x1_0000]))
  {
    var p := PacketBytes(op, data, chk);
    var len := |data| % 0x1_0000;
    assert 0 <= len < 0x1_0000 <= |data|;
    LengthRoundTrip(|data|);
    assert p[2] == LengthBytes(|data|)[0] && p[3] == LengthBytes(|data|)[1];
    assert LengthOf(p[2], p[3]) == len;
    assert p[4..8] == LE32(chk);
    Word32OfLE32(chk);
    SliceOfSuffix(p, 8, len);
  }

  lemma SliceOfSuffix(p: seq<byte>, k: nat, len: nat)
    requires k + len <= |p|
    ensures p[k..k + len] == p[k..][..len]
  {
  }
}
