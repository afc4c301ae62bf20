/*
 * Byte helpers of the link (EspLink.Pack.cs): little-endian packing of
 * 32-bit words, the XOR checksum, byte swapping and padding.  The host is
 * taken to be little-endian, so the byte-reversal branches of the C# code
 * are not modelled.
 */
module Bytes {
  import opened Results

  type byte = bv8

  /** Truncating casts: C#'s (uint) and (ushort) conversions of an int. */
  function U32(n: int): bv32 { (n % 0x1_0000_0000) as bv32 }
  function U16(n: int): bv16 { (n % 0x1_0000) as bv16 }

  /** BitConverter.GetBytes on a little-endian host. */
  function LE16(v: bv16): (r: seq<byte>)
    ensures |r| == 2
  {
    [(v & 0xFF) as byte, (v >> 8) as byte]
  }

  function LE32(v: bv32): (r: seq<byte>)
    ensures |r| == 4
  {
    [(v & 0xFF) as byte, ((v >> 8) & 0xFF) as byte, ((v >> 16) & 0xFF) as byte, (v >> 24) as byte]
  }

  /** BitConverter.ToUInt16 / ToUInt32 on a little-endian host. */
  function Word16(b: seq<byte>): bv16
    requires |b| == 2
  {
    (b[0] as bv16) | ((b[1] as bv16) << 8)
  }

  function Word32(b: seq<byte>): bv32
    requires |b| == 4
  {
    (b[0] as bv32) | ((b[1] as bv32) << 8) | ((b[2] as bv32) << 16) | ((b[3] as bv32) << 24)
  }

  lemma Word32OfLE32(v: bv32)
    ensures Word32(LE32(v)) == v
  {}

  lemma LE32OfWord32(b: seq<byte>)
    requires |b| == 4
    ensures LE32(Word32(b)) == b
  {}

  lemma Word16OfLE16(v: bv16)
    ensures Word16(LE16(v)) == v
  {}

  /** The bytes PackUInts writes: every value in turn, little-endian. */
  function LEWords(values: seq<bv32>): (r: seq<byte>)
    ensures |r| == 4 * |values|
  {
    if values == [] then [] else LEWords(values[..|values| - 1]) + LE32(values[|values| - 1])
  }

  /** Value k occupies bytes 4k .. 4k+3 of the packing. */
  lemma {:induction false} LEWordsAt(values: seq<bv32>, k: nat)
    requires k < |values|
    ensures LEWords(values)[4 * k .. 4 * k + 4] == LE32(values[k])
  {
    var n := |values|;
    if k < n - 1 {
      LEWordsAt(values[..n - 1], k);
      assert values[..n - 1][k] == values[k];
      assert LEWords(values)[..4 * (n - 1)] == LEWords(values[..n - 1]);
    }
  }

  lemma {:induction false} LEWordsAppend(a: seq<bv32>, b: seq<bv32>)
    ensures LEWords(a + b) == LEWords(a) + LEWords(b)
  {
    if b != [] {
      var n := |b|;
      assert (a + b)[..|a + b| - 1] == a + b[..n - 1];
      LEWordsAppend(a, b[..n - 1]);
    } else {
      assert a + b == a;
    }
  }

  /** Reading the words back out of a packing gives the values packed. */
  lemma WordsOfLEWords(values: seq<bv32>, k: nat)
    requires k < |values|
    ensures Word32(LEWords(values)[4 * k .. 4 * k + 4]) == values[k]
  {
    LEWordsAt(values, k);
    Word32OfLE32(values[k]);
  }

  /** A record of four words, as PackUInts writes it. */
  function Record(a: bv32, b: bv32, c: bv32, d: bv32): (r: seq<byte>)
    ensures |r| == 16
  {
    LE32(a) + LE32(b) + LE32(c) + LE32(d)
  }

  /** PackUInts of four values writes exactly their record. */
  lemma LEWords4(a: bv32, b: bv32, c: bv32, d: bv32)
    ensures LEWords([a, b, c, d]) == Record(a, b, c, d)
  {
    assert [a, b, c, d][..3] == [a, b, c];
    assert [a, b, c][..2] == [a, b];
    assert [a, b][..1] == [a];
    assert [a][..0] == [];
    assert LEWords([a]) == LE32(a);
    assert LEWords([a, b]) == LE32(a) + LE32(b);
    assert LEWords([a, b, c]) == LE32(a) + LE32(b) + LE32(c);
  }

  /** Reading a record back word by word gives its four values. */
  lemma RecordDecodes(a: bv32, b: bv32, c: bv32, d: bv32)
    ensures var r := Record(a, b, c, d);
      Word32(r[0..4]) == a && Word32(r[4..8]) == b && Word32(r[8..12]) == c && Word32(r[12..16]) == d
  {
    var r := Record(a, b, c, d);
    assert r[0..4] == LE32(a) && r[4..8] == LE32(b) && r[8..12] == LE32(c) && r[12..16] == LE32(d);
    Word32OfLE32(a);
    Word32OfLE32(b);
    Word32OfLE32(c);
    Word32OfLE32(d);
  }

  /**
   * PackUInts: stores the values little-endian into data from index on.
   * When fewer than 4 * |values| bytes remain it raises ArgumentException
   * before writing anything.
   */
  method PackUInts(data: array<byte>, index: nat, values: seq<bv32>) returns (r: Result<()>)
    modifies data
    ensures r.Ok? <==> data.Length - index >= 4 * |values|
    ensures r.Err? ==> r.fault == ArgumentFault && data[..] == old(data[..])
    ensures r.Ok? ==> data[..] == old(data[..index]) + LEWords(values) + old(data[index + 4 * |values|..])
  {
    if data.Length - index < |values| * 4 {
      return Err(ArgumentFault);
    }
    ghost var before := data[..];
    var i := 0;
    var at := index;
    while i < |values|
      invariant 0 <= i <= |values|
      invariant at == index + 4 * i
      invariant data[..] == before[..index] + LEWords(values[..i]) + before[at..]
    {
      ghost var cur := data[..];
      CopyInto(LE32(values[i]), data, at);
      PackStep(before, index, values, i, cur, data[..]);
      at := at + 4;
      i := i + 1;
    }
    assert values[..i] == values;
    return Ok(());
  }

  /** One round of PackUInts' loop: the next value's bytes follow the ones already packed. */
  lemma PackStep(before: seq<byte>, index: nat, values: seq<bv32>, i: nat, cur: seq<byte>, next: seq<byte>)
    requires i < |values| && index + 4 * |values| <= |before|
    requires cur == before[..index] + LEWords(values[..i]) + before[index + 4 * i..]
    requires next == cur[..index + 4 * i] + LE32(values[i]) + cur[index + 4 * i + 4..]
    ensures next == before[..index] + LEWords(values[..i + 1]) + before[index + 4 * (i + 1)..]
  {
    SpliceNext(before, index, LEWords(values[..i]), LE32(values[i]));
    assert values[..i + 1] == values[..i] + [values[i]];
    assert values[..i + 1][..i] == values[..i];
  }

  /** Array.Copy(src, 0, dst, at, |src|): overwrites exactly dst[at .. at+|src|). */
  method CopyInto(src: seq<byte>, dst: array<byte>, at: nat)
    requires at + |src| <= dst.Length
    modifies dst
    ensures dst[..] == old(dst[..at]) + src + old(dst[at + |src|..])
  {
    var k := 0;
    while k < |src|
      invariant 0 <= k <= |src|
      invariant dst[..] == old(dst[..at]) + src[..k] + old(dst[at + k..])
    {
      dst[at + k] := src[k];
      assert src[..k + 1] == src[..k] + [src[k]];
      k := k + 1;
    }
    assert src[..k] == src;
  }

  /** Copying the next piece after the bytes already written extends what has been written. */
  lemma SpliceNext(before: seq<byte>, index: nat, done: seq<byte>, piece: seq<byte>)
    requires index + |done| + |piece| <= |before|
    ensures var a := before[..index] + done + before[index + |done|..];
      a[..index + |done|] + piece + a[index + |done| + |piece|..] == before[..index] + (done + piece) + before[index + |done| + |piece|..]
  {
    var a := before[..index] + done + before[index + |done|..];
    assert a[..index + |done|] == before[..index] + done;
    assert a[index + |done| + |piece|..] == before[index + |done| + |piece|..];
  }

  /** The checksum's meaning: the seed XOR every byte, left to right. */
  function XorFold(s: seq<byte>, seed: bv32): bv32
  {
    if s == [] then seed else XorFold(s[..|s| - 1], seed) ^ (s[|s| - 1] as bv32)
  }

  const CHECKSUM_SEED: bv32 := 0xEF

  /** Checksum over data[index .. index+length), folding from the seed. */
  method Checksum(data: array<byte>, index: nat, length: nat, seed: bv32) returns (r: bv32)
    requires index + length <= data.Length
    ensures r == XorFold(data[index..index + length], seed)
    ensures length == 0 ==> r == seed
  {
    r := seed;
    var i := index;
    while i < index + length
      invariant index <= i <= index + length
      invariant r == XorFold(data[index..i], seed)
    {
      assert data[index..i + 1][..i - index] == data[index..i];
      r := r ^ (data[i] as bv32);
      i := i + 1;
    }
  }

  /** Checksumming a concatenation continues from the first part's checksum. */
  lemma {:induction false} XorFoldAppend(a: seq<byte>, b: seq<byte>, seed: bv32)
    ensures XorFold(a + b, seed) == XorFold(b, XorFold(a, seed))
  {
    if b == [] {
      assert a + b == a;
    } else {
      assert (a + b)[..|a + b| - 1] == a + b[..|b| - 1];
      XorFoldAppend(a, b[..|b| - 1], seed);
    }
  }

  /** Every byte enters the checksum as a flip of its own bits: a doubled block cancels. */
  lemma {:induction false} XorFoldTwice(s: seq<byte>, seed: bv32)
    ensures XorFold(s + s, seed) == seed
  {
    XorFoldAppend(s, s, seed);
    XorFoldUndo(s, seed, XorFold(s, seed));
  }

  /** Folding the same bytes into the checksum undoes them. */
  lemma XorFoldUndo(s: seq<byte>, seed: bv32, once: bv32)
    requires XorFold(s, seed) == once
    ensures XorFold(s, once) == seed
  {
    var delta := once ^ seed;
    assert seed ^ delta == once;
    XorFoldShift(s, seed, delta);
  }

  /** Changing the seed changes the checksum by exactly the same bits. */
  lemma {:induction false} XorFoldShift(s: seq<byte>, seed: bv32, delta: bv32)
    ensures XorFold(s, seed ^ delta) == XorFold(s, seed) ^ delta
  {
    if s != [] {
      XorFoldShift(s[..|s| - 1], seed, delta);
    }
  }

  /** SwapBytes(uint): reverses the four bytes of a word. */
  function SwapBytes32(x: bv32): (r: bv32)
  {
    var y := (x >> 16) | (x << 16);
    ((y & 0xFF00FF00) >> 8) | ((y & 0x00FF00FF) << 8)
  }

  /** The swapped word's little-endian bytes are the word's bytes in reverse order. */
  lemma SwapBytes32Reverses(x: bv32)
    ensures LE32(SwapBytes32(x)) == [LE32(x)[3], LE32(x)[2], LE32(x)[1], LE32(x)[0]]
  {
    SwapBytes32Fields(x);
  }

  lemma SwapBytes32Fields(x: bv32)
    ensures var r := SwapBytes32(x);
      r & 0xFF == x >> 24 && (r >> 8) & 0xFF == (x >> 16) & 0xFF && (r >> 16) & 0xFF == (x >> 8) & 0xFF && r >> 24 == x & 0xFF
  {
  }

  lemma SwapBytes32Involution(x: bv32)
    ensures SwapBytes32(SwapBytes32(x)) == x
  {}

  /** SwapBytes(ushort): exchanges the two bytes of a half-word. */
  function SwapBytes16(x: bv16): (r: bv16)
    ensures LE16(r) == [LE16(x)[1], LE16(x)[0]]
  {
    ((x & 0xFF) << 8) | ((x >> 8) & 0xFF)
  }

  lemma SwapBytes16Involution(x: bv16)
    ensures SwapBytes16(SwapBytes16(x)) == x
  {}

  /**
   * PadTo: an array whose length is already a multiple of alignment is
   * returned itself; otherwise a new array holds the data followed by pad
   * bytes up to the next multiple.
   */
  method PadTo(data: array<byte>, alignment: int, pad: byte) returns (r: array<byte>)
    requires alignment > 0
    ensures data.Length % alignment == 0 ==> r == data
    ensures data.Length % alignment != 0 ==>
      fresh(r) && r.Length == data.Length + (alignment - data.Length % alignment)
    ensures data.Length <= r.Length < data.Length + alignment
    ensures r.Length == alignment * (data.Length / alignment + if data.Length % alignment == 0 then 0 else 1)
    ensures r[..data.Length] == data[..]
    ensures forall i :: data.Length <= i < r.Length ==> r[i] == pad
  {
    var padMod := data.Length % alignment;
    if padMod != 0 {
      r := new byte[data.Length + (alignment - padMod)];
      forall k | 0 <= k < data.Length {
        r[k] := data[k];
      }
      var i := data.Length;
      while i < r.Length
        invariant data.Length <= i <= r.Length
        invariant r[..data.Length] == data[..]
        invariant forall k :: data.Length <= k < i ==> r[k] == pad
      {
        r[i] := pad;
        i := i + 1;
      }
      return r;
    }
    return data;
  }
}
