/*
 * The zlib container FlashAsync wraps a compressed image in
 * (EspLink.Flash.cs, CompressToZlibStreamAsync and Adler32Checksum): the
 * two header bytes 0x78 0x9C, the raw DEFLATE stream, and the Adler-32 of
 * the uncompressed input, most significant byte first (RFC 1950 sections
 * 2.2 and 8.2).  The DEFLATE stream is an input here.
 */
module Zlib {
  import opened Bytes

  /** The Adler-32 modulus, the largest prime below 2^16. */
  const MOD_ADLER: nat := 65521

  /** CMF 0x78 (deflate, 32K window) and FLG 0x9C (default compression, no dictionary). */
  const ZLIB_HEADER: seq<byte> := [0x78, 0x9C]

  /** The two running sums of Adler-32. */
  datatype Adler = Adler(a: nat, b: nat)

  /** The sums after reading s one byte at a time: a := (a + byte) % 65521, then b := (b + a) % 65521, from a = 1, b = 0. */
  function AdlerOf(s: seq<byte>): (r: Adler)
    ensures r.a < MOD_ADLER && r.b < MOD_ADLER
    decreases |s|
  {
    if s == [] then Adler(1, 0)
    else
      var p := AdlerOf(s[..|s| - 1]);
      var a := (p.a + s[|s| - 1] as nat) % MOD_ADLER;
      Adler(a, (p.b + a) % MOD_ADLER)
  }

  // The definition of RFC 1950 section 8.2, as a reference.

  /** The sum of the bytes. */
  function Sum(s: seq<byte>): nat
    decreases |s|
  {
    if s == [] then 0 else Sum(s[..|s| - 1]) + s[|s| - 1] as nat
  }

  /** The sum, over every non-empty prefix p of s, of 1 + Sum(p): the values A takes, added up. */
  function PrefixSums(s: seq<byte>): nat
    decreases |s|
  {
    if s == [] then 0 else PrefixSums(s[..|s| - 1]) + 1 + Sum(s)
  }

  /** Reducing modulo 65521 at every step gives the sums of the definition reduced once. */
  lemma {:induction false} AdlerClosedForm(s: seq<byte>)
    ensures AdlerOf(s) == Adler((1 + Sum(s)) % MOD_ADLER, PrefixSums(s) % MOD_ADLER)
    decreases |s|
  {
    if s != [] {
      var init := s[..|s| - 1];
      var x := s[|s| - 1] as nat;
      AdlerClosedForm(init);
      assert s[..|s| - 1] == init;
      ASum(1 + Sum(init), x);
      ModSum(PrefixSums(init), 1 + Sum(s));
    }
  }

  /** Adding a byte to a residue and reducing is reducing the sum. */
  lemma ASum(x: nat, y: nat)
    requires y < 256
    ensures (x % MOD_ADLER + y) % MOD_ADLER == (x + y) % MOD_ADLER
  {
    ModSum(x, y);
  }

  /** Adding residues and reducing is reducing the sum. */
  lemma ModSum(x: nat, y: nat)
    ensures (x % MOD_ADLER + y % MOD_ADLER) % MOD_ADLER == (x + y) % MOD_ADLER
  {
    var qx, qy := x / MOD_ADLER, y / MOD_ADLER;
    assert x == qx * MOD_ADLER + x % MOD_ADLER;
    assert y == qy * MOD_ADLER + y % MOD_ADLER;
    assert x + y == (qx + qy) * MOD_ADLER + (x % MOD_ADLER + y % MOD_ADLER);
  }

  // The trailer.

  /** The checksum word b << 16 | a. */
  function Word(s: Adler): bv32
    requires s.a < MOD_ADLER && s.b < MOD_ADLER
  {
    ((s.b as bv32) << 16) | (s.a as bv32)
  }

  /** The high half of the word is b and the low half a. */
  lemma WordHalves(s: Adler)
    requires s.a < MOD_ADLER && s.b < MOD_ADLER
    ensures Word(s) >> 16 == s.b as bv32 && Word(s) & 0xFFFF == s.a as bv32
  {
    var x, y := s.a as bv32, s.b as bv32;
    assert x < 0x1_0000 && y < 0x1_0000;
  }

  /** A word most significant byte first. */
  function BigEndian(c: bv32): (r: seq<byte>)
    ensures |r| == 4
  {
    [((c >> 24) & 0xFF) as byte, ((c >> 16) & 0xFF) as byte, ((c >> 8) & 0xFF) as byte, (c & 0xFF) as byte]
  }

  /** Four bytes read most significant first. */
  function ReadBigEndian(d: seq<byte>): bv32
    requires |d| == 4
  {
    (d[0] as bv32 << 24) | (d[1] as bv32 << 16) | (d[2] as bv32 << 8) | d[3] as bv32
  }

  lemma BigEndianReads(c: bv32)
    ensures ReadBigEndian(BigEndian(c)) == c
  {
  }

  /** The four trailer bytes Adler32Checksum returns for s. */
  function Adler32Bytes(s: seq<byte>): (r: seq<byte>)
    ensures |r| == 4
  {
    BigEndian(Word(AdlerOf(s)))
  }

  /** The checksum of nothing is 1: a = 1, b = 0. */
  lemma Adler32OfEmpty()
    ensures Adler32Bytes([]) == [0, 0, 0, 1]
  {
  }

  /** Adler32Checksum: reads the whole stream from its start, then packs b << 16 | a most significant byte first. */
  method Adler32Checksum(stream: seq<byte>) returns (r: seq<byte>)
    ensures r == Adler32Bytes(stream)
  {
    var a, b := AdlerSums(stream);
    var checksum: bv32 := ((b as bv32) << 16) | (a as bv32);
    r := [((checksum >> 24) & 0xFF) as byte, ((checksum >> 16) & 0xFF) as byte, ((checksum >> 8) & 0xFF) as byte, (checksum & 0xFF) as byte];
  }

  /** The byte loop of Adler32Checksum. */
  method AdlerSums(stream: seq<byte>) returns (a: nat, b: nat)
    ensures Adler(a, b) == AdlerOf(stream)
  {
    a, b := 1, 0;
    var i := 0;
    while i < |stream|
      invariant i <= |stream| && Adler(a, b) == AdlerOf(stream[..i])
    {
      assert stream[..i + 1][..i] == stream[..i];
      a := (a + stream[i] as nat) % MOD_ADLER;
      b := (b + a) % MOD_ADLER;
      i := i + 1;
    }
    assert stream[..i] == stream;
  }

  // The container.

  /** The zlib stream: header, the DEFLATE bytes, the Adler-32 of the uncompressed input. */
  function ZlibStream(input: seq<byte>, deflated: seq<byte>): (z: seq<byte>)
    ensures |z| == |deflated| + 6
  {
    ZLIB_HEADER + deflated + Adler32Bytes(input)
  }

  /** A zlib stream splits back into its parts: the DEFLATE bytes between the header and the trailer, and the checksum word. */
  lemma ZlibUnwraps(input: seq<byte>, deflated: seq<byte>)
    ensures var z := ZlibStream(input, deflated);
      z[..2] == ZLIB_HEADER && z[2..|z| - 4] == deflated &&
      ReadBigEndian(z[|z| - 4..]) == Word(AdlerOf(input))
  {
    var z := ZlibStream(input, deflated);
    assert z[|z| - 4..] == Adler32Bytes(input);
    BigEndianReads(Word(AdlerOf(input)));
  }

  /**
   * The header checks of RFC 1950 section 2.2: compression method 8
   * (deflate), a window of at most 32K (CINFO <= 7), CMF*256 + FLG a
   * multiple of 31, and no preset dictionary.
   */
  predicate HeaderValid(z: seq<byte>)
  {
    |z| >= 2 && z[0] & 0x0F == 8 && z[0] >> 4 <= 7 &&
    (z[0] as int * 256 + z[1] as int) % 31 == 0 && z[1] & 0x20 == 0
  }

  lemma ZlibHeaderValid(input: seq<byte>, deflated: seq<byte>)
    ensures HeaderValid(ZlibStream(input, deflated))
  {
    var z := ZlibStream(input, deflated);
    assert z[0] == 0x78 && z[1] == 0x9C;
  }

  /** CompressToZlibStreamAsync: writes the header, the DEFLATE bytes, then the checksum of the input to an empty stream. */
  method CompressToZlib(input: seq<byte>, deflated: seq<byte>) returns (compressed: seq<byte>)
    ensures compressed == ZlibStream(input, deflated)
  {
    compressed := [];
    compressed := compressed + [0x78];
    compressed := compressed + [0x9C];
    compressed := compressed + deflated;
    var trailer := Adler32Checksum(input);
    compressed := compressed + trailer;
  }
}
