/*
 * SLIP-style framing of the link (EspLink.Frame.cs), after RFC 1055:
 * a frame is END, the escaped body, END; inside the body END becomes
 * ESC ESC_END and ESC becomes ESC ESC_ESC.
 *
 * The encoder and the unescaping half of ReadFrame are modelled here as
 * they are written, including two places where they do not do what
 * RFC 1055 framing would: the encoder reads data[i + index], and the
 * decoder's loop is bounded by the length of its output.
 */
module Framing {
  import opened Results
  import opened Bytes

  const END: byte := 0xC0
  const ESC: byte := 0xDB
  const ESC_END: byte := 0xDC
  const ESC_ESC: byte := 0xDD

  predicate Special(b: byte) { b == END || b == ESC }

  function EscapeByte(b: byte): seq<byte>
  {
    if b == ESC then [ESC, ESC_ESC] else if b == END then [ESC, ESC_END] else [b]
  }

  /** The body of a frame as RFC 1055 escapes it. */
  function Escape(s: seq<byte>): seq<byte>
  {
    if s == [] then [] else Escape(s[..|s| - 1]) + EscapeByte(s[|s| - 1])
  }

  /** Number of bytes that need an escape. */
  function Specials(s: seq<byte>): nat
  {
    if s == [] then 0 else Specials(s[..|s| - 1]) + if Special(s[|s| - 1]) then 1 else 0
  }

  /** The frame that carries body on the wire. */
  function Frame(body: seq<byte>): seq<byte>
  {
    [END] + Escape(body) + [END]
  }

  lemma {:induction false} EscapeAppend(a: seq<byte>, b: seq<byte>)
    ensures Escape(a + b) == Escape(a) + Escape(b)
  {
    if b == [] {
      assert a + b == a;
    } else {
      assert (a + b)[..|a + b| - 1] == a + b[..|b| - 1];
      EscapeAppend(a, b[..|b| - 1]);
    }
  }

  /** Escaping adds one byte per END or ESC and leaves no END behind. */
  lemma {:induction false} EscapeShape(s: seq<byte>)
    ensures |Escape(s)| == |s| + Specials(s)
    ensures END !in Escape(s)
    ensures Escape(s) != [] ==> Escape(s)[|Escape(s)| - 1] != ESC
  {
    if s != [] {
      EscapeShape(s[..|s| - 1]);
    }
  }

  /** A body without END or ESC travels unchanged. */
  lemma {:induction false} EscapePlain(s: seq<byte>)
    requires forall k :: 0 <= k < |s| ==> !Special(s[k])
    ensures Escape(s) == s
    ensures Specials(s) == 0
  {
    if s != [] {
      EscapePlain(s[..|s| - 1]);
    }
  }

  /** Encoded length is length + 2 + the number of END/ESC bytes, and END appears only at both ends. */
  lemma FrameShape(body: seq<byte>)
    ensures |Frame(body)| == |body| + 2 + Specials(body)
    ensures Frame(body)[0] == END && Frame(body)[|Frame(body)| - 1] == END
    ensures forall k :: 0 < k < |Frame(body)| - 1 ==> Frame(body)[k] != END
  {
    EscapeShape(body);
    var f := Frame(body);
    forall k | 0 < k < |f| - 1
      ensures f[k] != END
    {
      assert f[k] == Escape(body)[k - 1];
    }
  }

  function Zeros(n: nat): (r: seq<byte>)
    ensures |r| == n
  {
    seq(n, _ => 0)
  }

  /**
   * What WriteFrameAsync(data, index, length) puts on the wire.  The size
   * of the output buffer is computed from data[index .. index+length), but
   * the bytes copied are data[2*index .. 2*index+length); a read past the
   * end of data or a write past the end of the buffer is an
   * IndexOutOfRangeException, and a shorter copy leaves zero bytes after
   * the closing END.
   */
  function EncodeAsWritten(data: seq<byte>, index: nat, length: nat): Result<seq<byte>>
    requires index + length <= |data|
  {
    var count := |Escape(data[index..index + length])|;
    if length > 0 && 2 * index + length > |data| then Err(IndexOutOfRange)
    else
      var body := if length == 0 then [] else Escape(data[2 * index..2 * index + length]);
      if |body| > count then Err(IndexOutOfRange)
      else Ok([END] + body + [END] + Zeros(count - |body|))
  }

  /** With index 0, as every caller passes, the encoder produces the RFC 1055 frame. */
  lemma EncodeAtZero(data: seq<byte>, length: nat)
    requires length <= |data|
    ensures EncodeAsWritten(data, 0, length) == Ok(Frame(data[..length]))
  {
    var body := data[..length];
    assert data[0..length] == body;
    assert Zeros(0) == [];
    if length == 0 {
      assert body == [] && Escape(body) == [];
      assert EncodeAsWritten(data, 0, length) == Ok([END] + [] + [END] + Zeros(0));
      assert [END] + [] + [END] + Zeros(0) == Frame(body);
    } else {
      assert data[2 * 0..2 * 0 + length] == body;
      assert EncodeAsWritten(data, 0, length) == Ok([END] + Escape(body) + [END] + Zeros(0));
      assert [END] + Escape(body) + [END] + Zeros(0) == Frame(body);
    }
  }

  /** With index 1 the encoder frames the wrong bytes, and pads with a zero. */
  lemma EncodeAtOneMisreads()
    ensures EncodeAsWritten([0x00, END, 0x41], 1, 1) == Ok([END, 0x41, END, 0x00])
  {
    var d: seq<byte> := [0x00, END, 0x41];
    var sized: seq<byte> := [END];
    var copied: seq<byte> := [0x41];
    assert d[1..2] == sized && d[2 * 1..2 * 1 + 1] == copied;
    assert sized[..0] == [] && copied[..0] == [];
    assert Escape(sized) == [] + EscapeByte(END) == [ESC, ESC_END];
    assert Escape(copied) == [] + EscapeByte(0x41) == [0x41];
    assert Zeros(1) == [0x00];
    assert EncodeAsWritten(d, 1, 1) == Ok([END] + [0x41] + [END] + Zeros(1));
    assert [END] + [0x41] + [END] + Zeros(1) == [END, 0x41, END, 0x00];
  }

  /**
   * WriteFrameAsync's encoding step: the counting loop sizes the buffer,
   * the copying loop fills it.  The bytes returned are the ones written to
   * the port.
   */
  method EncodeFrame(data: array<byte>, index: nat, length: nat) returns (r: Result<seq<byte>>)
    requires index + length <= data.Length
    ensures r == EncodeAsWritten(data[..], index, length)
  {
    var count := EscapedSize(data, index, length);
    ghost var d := data[..];
    assert data[index..index + length] == d[index..index + length];
    var toWrite := new byte[count + 2](_ => 0);
    toWrite[0] := END;
    var j := 1;
    assert toWrite[..] == [END] + Zeros(count + 1);
    ghost var body: seq<byte> := [];
    if length > 0 {
      var copied;
      copied, j := CopyEscaped(data[..], index, length, toWrite);
      if 2 * index + length <= data.Length {
        body := EscapeRange(d, 2 * index, 2 * index + length);
      }
      if !copied {
        EncodeOverflow(d, index, length, count);
        return Err(IndexOutOfRange);
      }
    } else {
      assert toWrite[..] == [END] + body + Zeros(count + 2 - j);
    }
    ghost var open := toWrite[..];
    toWrite[j] := END;
    CloseFrame(open, body, j, toWrite[..]);
    EncodedWhole(d, index, length, count, body);
    return Ok(toWrite[..]);
  }

  /** Writing the closing END right after the escaped body leaves only the unused zero bytes after it. */
  lemma CloseFrame(open: seq<byte>, body: seq<byte>, j: nat, closed: seq<byte>)
    requires j == 1 + |body| < |open| && open == [END] + body + Zeros(|open| - j)
    requires closed == open[j := END]
    ensures closed == [END] + body + [END] + Zeros(|open| - j - 1)
  {
    assert closed[..j] == [END] + body;
    assert closed[j + 1..] == Zeros(|open| - j - 1);
    assert closed == closed[..j] + [END] + closed[j + 1..];
  }

  /** Escape of d[lo .. hi), built up one index at a time as the copying loop does. */
  function EscapeRange(d: seq<byte>, lo: nat, hi: nat): (r: seq<byte>)
    requires lo <= hi <= |d|
    ensures |r| >= hi - lo
    decreases hi - lo
  {
    if lo == hi then [] else EscapeRange(d, lo, hi - 1) + EscapeByte(d[hi - 1])
  }

  lemma {:induction false} EscapeRangeSlice(d: seq<byte>, lo: nat, hi: nat)
    requires lo <= hi <= |d|
    ensures EscapeRange(d, lo, hi) == Escape(d[lo..hi])
    decreases hi - lo
  {
    if lo == hi {
      assert d[lo..hi] == [];
    } else {
      EscapeRangeSlice(d, lo, hi - 1);
      EscapeRangeStep(d, lo, hi, EscapeRange(d, lo, hi - 1));
    }
  }

  /** One more byte of the range: its escape goes after the escape of the bytes before it. */
  lemma EscapeRangeStep(d: seq<byte>, lo: nat, hi: nat, prev: seq<byte>)
    requires lo < hi <= |d| && prev == Escape(d[lo..hi - 1])
    ensures prev + EscapeByte(d[hi - 1]) == Escape(d[lo..hi])
  {
    EscapeSliceStep(d, lo, hi);
  }

  /** The escape of a slice is the escape of the slice without its last byte, then that byte escaped. */
  lemma EscapeSliceStep(d: seq<byte>, lo: nat, hi: nat)
    requires lo < hi <= |d|
    ensures Escape(d[lo..hi]) == Escape(d[lo..hi - 1]) + EscapeByte(d[hi - 1])
  {
    var s := d[lo..hi];
    assert s[..|s| - 1] == d[lo..hi - 1];
  }

  /** Escaping a longer stretch never gives a shorter result. */
  lemma {:induction false} EscapeRangeGrows(d: seq<byte>, lo: nat, mid: nat, hi: nat)
    requires lo <= mid <= hi <= |d|
    ensures |EscapeRange(d, lo, mid)| <= |EscapeRange(d, lo, hi)|
    decreases hi - mid
  {
    if mid < hi {
      EscapeRangeGrows(d, lo, mid, hi - 1);
      assert |EscapeRange(d, lo, hi - 1)| <= |EscapeRange(d, lo, hi)|;
    }
  }

  /** Once the escaped prefix leaves no room for the closing END, the whole escaped range does not fit either. */
  lemma CopyOverflow(d: seq<byte>, lo: nat, mid: nat, hi: nat, esc: seq<byte>, size: nat)
    requires lo <= mid <= hi && mid <= |d| && esc == EscapeRange(d, lo, mid) && 1 + |esc| >= size
    ensures hi > |d| || |EscapeRange(d, lo, hi)| > size - 2
  {
    if hi <= |d| {
      EscapeRangeGrows(d, lo, mid, hi);
    }
  }

  lemma ZerosSplit(n: nat, m: nat)
    requires m <= n
    ensures Zeros(n) == Zeros(m) + Zeros(n - m)
  {}

  /**
   * The copying loop of WriteFrameAsync: escapes data[i + index] for i in
   * index .. index+length into toWrite from position 1.  It stops with
   * copied = false where C# would raise IndexOutOfRangeException: a read
   * past the end of data, or an escaped copy that leaves no room in the
   * buffer for the closing END.
   */
  method CopyEscaped(data: seq<byte>, index: nat, length: nat, toWrite: array<byte>) returns (copied: bool, j: nat)
    requires 0 < length && index + length <= |data|
    requires toWrite.Length >= 2 && toWrite[..] == [END] + Zeros(toWrite.Length - 1)
    modifies toWrite
    ensures !copied ==> (2 * index + length > |data| ||
      |EscapeRange(data, 2 * index, 2 * index + length)| > toWrite.Length - 2)
    ensures copied ==> 2 * index + length <= |data| && 1 <= j < toWrite.Length
    ensures copied ==> toWrite[..] == [END] + EscapeRange(data, 2 * index, 2 * index + length) + Zeros(toWrite.Length - j)
  {
    j := 1;
    if 2 * index >= |data| {
      assert 2 * index + length > |data|;
      return false, j;
    }
    var i, k := index, 2 * index;
    assert Filled(toWrite[..], data, 2 * index, k, j);
    while i < index + length
      invariant index <= i <= index + length && k == i + index <= |data|
      invariant Filled(toWrite[..], data, 2 * index, k, j)
    {
      var ok;
      ok, j := CopyStep(data, 2 * index, 2 * index + length, k, toWrite, j);
      if !ok {
        return false, j;
      }
      i, k := i + 1, k + 1;
    }
    return true, j;
  }

  /** buf holds END, then the escape of d[lo .. k), then zeros; j is the next free position, and a closing END still fits. */
  ghost predicate Filled(buf: seq<byte>, d: seq<byte>, lo: nat, k: nat, j: nat)
  {
    lo <= k <= |d| && j == 1 + |EscapeRange(d, lo, k)| < |buf| && buf == [END] + EscapeRange(d, lo, k) + Zeros(|buf| - j)
  }

  /**
   * The body of the copying loop for the byte at k: it either copies it and
   * keeps the buffer's shape, or finds that the copy of d[lo .. hi) must fail.
   */
  method CopyStep(data: seq<byte>, lo: nat, hi: nat, k: nat, toWrite: array<byte>, j: nat) returns (ok: bool, next: nat)
    requires lo <= k < hi && k <= |data| && Filled(toWrite[..], data, lo, k, j)
    modifies toWrite
    ensures ok ==> k < |data| && Filled(toWrite[..], data, lo, k + 1, next)
    ensures !ok ==> hi > |data| || |EscapeRange(data, lo, hi)| > toWrite.Length - 2
  {
    if k >= |data| {
      return false, j;
    }
    var fits;
    ghost var esc;
    fits, next, esc := CopyByte(data, lo, k, toWrite, j, EscapeRange(data, lo, k));
    if !fits {
      CopyOverflow(data, lo, k + 1, hi, esc, toWrite.Length);
      return false, next;
    }
    return true, next;
  }

  /** One byte of the copying loop: data[k], escaped, goes after the bytes already copied. */
  method CopyByte(data: seq<byte>, lo: nat, k: nat, toWrite: array<byte>, j: nat, ghost esc: seq<byte>)
      returns (fits: bool, next: nat, ghost esc': seq<byte>)
    requires lo <= k < |data| && esc == EscapeRange(data, lo, k)
    requires j == 1 + |esc| && j < toWrite.Length && toWrite[..] == [END] + esc + Zeros(toWrite.Length - j)
    modifies toWrite
    ensures esc' == EscapeRange(data, lo, k + 1) && next == 1 + |esc'|
    ensures fits <==> next < toWrite.Length
    ensures fits ==> toWrite[..] == [END] + esc' + Zeros(toWrite.Length - next)
  {
    var src := data[k];
    ghost var cur := toWrite[..];
    SplitAtBody(cur, esc, j);
    fits, next := PutEscaped(toWrite, j, src);
    if fits {
      ExtendBody(cur, esc, src, toWrite[..]);
    }
    esc' := esc + EscapeByte(src);
  }

  lemma SplitAtBody(cur: seq<byte>, esc: seq<byte>, j: nat)
    requires j == 1 + |esc| <= |cur| && cur == [END] + esc + Zeros(|cur| - j)
    ensures cur[..j] == [END] + esc && cur[j..] == Zeros(|cur| - j)
  {
  }

  lemma ExtendBody(cur: seq<byte>, esc: seq<byte>, src: byte, next: seq<byte>)
    requires 1 + |esc| + |EscapeByte(src)| <= |cur| && cur[..1 + |esc|] == [END] + esc
    requires next == cur[..1 + |esc|] + EscapeByte(src) + Zeros(|cur| - 1 - |esc| - |EscapeByte(src)|)
    ensures next == [END] + (esc + EscapeByte(src)) + Zeros(|cur| - 1 - |esc + EscapeByte(src)|)
  {
  }

  /**
   * One step of the copying loop: src, escaped, goes to toWrite[j ..].
   * It fits when the position after it still lies inside the buffer.
   */
  method PutEscaped(toWrite: array<byte>, j: nat, src: byte) returns (fits: bool, next: nat)
    requires 1 <= j < toWrite.Length && toWrite[j..] == Zeros(toWrite.Length - j)
    modifies toWrite
    ensures fits <==> j + |EscapeByte(src)| < toWrite.Length
    ensures next == j + |EscapeByte(src)|
    ensures fits ==> toWrite[..] == old(toWrite[..j]) + EscapeByte(src) + Zeros(toWrite.Length - next)
  {
    next := j + |EscapeByte(src)|;
    if next >= toWrite.Length {
      return false, next;
    }
    ZerosSplit(toWrite.Length - j, next - j);
    if src == ESC || src == END {
      toWrite[j] := ESC;
      toWrite[j + 1] := if src == ESC then ESC_ESC else ESC_END;
    } else {
      toWrite[j] := src;
    }
    assert toWrite[..] == old(toWrite[..j]) + EscapeByte(src) + Zeros(toWrite.Length - next);
    return true, next;
  }

  /** A failed copy is a failed encoding. */
  lemma EncodeOverflow(data: seq<byte>, index: nat, length: nat, count: nat)
    requires 0 < length && index + length <= |data| && count == |Escape(data[index..index + length])|
    requires 2 * index + length > |data| || |EscapeRange(data, 2 * index, 2 * index + length)| > count
    ensures EncodeAsWritten(data, index, length) == Err(IndexOutOfRange)
  {
    if 2 * index + length <= |data| {
      EscapeRangeSlice(data, 2 * index, 2 * index + length);
    }
  }

  /** Once every byte is copied, the buffer holds what EncodeAsWritten describes. */
  lemma EncodedWhole(data: seq<byte>, index: nat, length: nat, count: nat, body: seq<byte>)
    requires index + length <= |data| && count == |Escape(data[index..index + length])|
    requires length == 0 ==> body == []
    requires length > 0 ==> 2 * index + length <= |data| && body == EscapeRange(data, 2 * index, 2 * index + length)
    requires |body| <= count
    ensures EncodeAsWritten(data, index, length) == Ok([END] + body + [END] + Zeros(count - |body|))
  {
    if length > 0 {
      EscapeRangeSlice(data, 2 * index, 2 * index + length);
    }
  }

  /** The counting loop of WriteFrameAsync: one byte per plain byte, two per END or ESC. */
  method EscapedSize(data: array<byte>, index: nat, length: nat) returns (count: nat)
    requires index + length <= data.Length
    ensures count == |Escape(data[index..index + length])| == length + Specials(data[index..index + length])
  {
    count := 0;
    var i := index;
    while i < index + length
      invariant index <= i <= index + length
      invariant count == |Escape(data[index..i])|
    {
      assert data[index..i + 1][..i - index] == data[index..i];
      if data[i] == ESC || data[i] == END {
        count := count + 2;
      } else {
        count := count + 1;
      }
      i := i + 1;
    }
    EscapeShape(data[index..index + length]);
  }

  // ---------------------------------------------------------------------
  // Unescaping, as ReadFrame does it after collecting the body bytes.

  /** Escape bytes that are not the body's last byte: each shortens the output by one. */
  function EscCount(b: seq<byte>): nat
  {
    if |b| <= 1 then 0 else EscCount(b[..|b| - 1]) + if b[|b| - 2] == ESC then 1 else 0
  }

  lemma {:induction false} EscCountBound(b: seq<byte>)
    ensures EscCount(b) <= |b|
    ensures |b| > 0 ==> EscCount(b) < |b|
  {
    if |b| > 1 {
      EscCountBound(b[..|b| - 1]);
    }
  }

  /** The size of ReadFrame's result array for a body b. */
  function OutLength(b: seq<byte>): (m: nat)
    ensures m <= |b|
  {
    EscCountBound(b);
    |b| - EscCount(b)
  }

  /**
   * The decoding loop from body position i, having produced out so far.
   * m is the result length, which also bounds i: this is the loop as
   * written, with `count` being |out|.
   */
  function Unescape(b: seq<byte>, m: nat, i: nat, out: seq<byte>): (r: Result<seq<byte>>)
    requires m <= |b| && |out| <= i && |out| <= m
    ensures r.Ok? ==> |r.value| <= m
    ensures r.Err? ==> r.fault == IOFault(InvalidEscape)
    decreases m - i
  {
    if i >= m then Ok(out)
    else if b[i] == ESC then
      if |out| >= m - 1 then Unescape(b, m, i + 1, out + [ESC])
      else if i < |b| - 1 then
        if b[i + 1] == ESC_ESC then Unescape(b, m, i + 2, out + [ESC])
        else if b[i + 1] == ESC_END then Unescape(b, m, i + 2, out + [END])
        else Err(IOFault(InvalidEscape))
      else Unescape(b, m, i + 1, out + [ESC])
    else Unescape(b, m, i + 1, out + [b[i]])
  }

  /** ReadFrame's result for a collected body: the decoded bytes, zero-filled to OutLength. */
  function DecodeBody(b: seq<byte>): (r: Result<seq<byte>>)
    ensures r.Ok? ==> |r.value| == OutLength(b)
    ensures r.Err? ==> r.fault == IOFault(InvalidEscape)
  {
    match Unescape(b, OutLength(b), 0, [])
    case Ok(out) => Ok(out + Zeros(OutLength(b) - |out|))
    case Err(e) => Err(e)
  }

  /** ReadFrame's counting loop: one byte less per ESC that is not the last byte. */
  method DecodedSize(bytes: seq<byte>) returns (count: nat)
    ensures count == OutLength(bytes)
  {
    var n := |bytes|;
    var i := 0;
    while i < |bytes|
      invariant 0 <= i <= |bytes|
      invariant n == |bytes| - EscCount(bytes[..i]) - (if 0 < i < |bytes| && bytes[i - 1] == ESC then 1 else 0)
    {
      assert bytes[..i + 1][..i] == bytes[..i];
      if bytes[i] == ESC && i < |bytes| - 1 {
        n := n - 1;
      }
      i := i + 1;
    }
    assert bytes[..|bytes|] == bytes;
    if |bytes| > 0 {
      assert bytes[..|bytes|][..|bytes| - 1] == bytes[..|bytes| - 1];
    }
    assert n == OutLength(bytes);
    return n;
  }

  /**
   * ReadFrame's counting and decoding loops over the collected body bytes.
   * The result array is created zeroed and positions never written stay 0.
   */
  method Decode(bytes: seq<byte>) returns (r: Result<seq<byte>>)
    ensures r == DecodeBody(bytes)
  {
    var count := DecodedSize(bytes);
    var result := new byte[count](_ => 0);
    count := 0;
    var i := 0;
    while i < result.Length
      invariant count <= i && count <= result.Length
      invariant Unescape(bytes, result.Length, i, result[..count]) == Unescape(bytes, result.Length, 0, [])
      invariant forall k :: count <= k < result.Length ==> result[k] == 0
      decreases result.Length - i
    {
      ghost var out := result[..count];
      ghost var m := result.Length;
      var b := bytes[i];
      if b == ESC {
        if count >= result.Length - 1 {
          result[count] := ESC;
          count := count + 1;
          assert result[..count] == out + [ESC];
        } else if i < |bytes| - 1 {
          i := i + 1;
          b := bytes[i];
          if b == ESC_ESC {
            result[count] := ESC;
            count := count + 1;
            assert result[..count] == out + [ESC];
          } else if b == ESC_END {
            result[count] := END;
            count := count + 1;
            assert result[..count] == out + [END];
          } else {
            assert Unescape(bytes, m, i - 1, out) == Err(IOFault(InvalidEscape));
            return Err(IOFault(InvalidEscape));
          }
        } else {
          result[count] := b;
          count := count + 1;
          assert result[..count] == out + [ESC];
        }
      } else {
        result[count] := b;
        count := count + 1;
        assert result[..count] == out + [b];
      }
      i := i + 1;
    }
    assert result[..] == result[..count] + Zeros(result.Length - count);
    return Ok(result[..]);
  }

  /** A body with no ESC byte is returned as it is. */
  lemma DecodePlain(b: seq<byte>)
    requires forall k :: 0 <= k < |b| ==> b[k] != ESC
    ensures DecodeBody(b) == Ok(b)
  {
    EscCountNone(b);
    UnescapePlain(b, 0);
    assert b[..0] == [];
    assert b + Zeros(0) == b;
  }

  lemma {:induction false} EscCountNone(b: seq<byte>)
    requires forall k :: 0 <= k < |b| ==> b[k] != ESC
    ensures EscCount(b) == 0
  {
    if |b| > 1 {
      EscCountNone(b[..|b| - 1]);
    }
  }

  lemma {:induction false} UnescapePlain(b: seq<byte>, i: nat)
    requires forall k :: 0 <= k < |b| ==> b[k] != ESC
    requires i <= |b|
    ensures Unescape(b, |b|, i, b[..i]) == Ok(b)
    decreases |b| - i
  {
    if i < |b| {
      assert b[..i] + [b[i]] == b[..i + 1];
      UnescapePlain(b, i + 1);
    } else {
      assert b[..i] == b;
    }
  }

  /** An escaped END in a two-byte body decodes to ESC, not END: the loop stops before the escape is read. */
  lemma DecodeEscapedEndAlone()
    ensures DecodeBody([ESC, ESC_END]) == Ok([ESC])
  {
    var b: seq<byte> := [ESC, ESC_END];
    assert b[..1] == [ESC];
    assert EscCount(b) == 1;
    assert [] + [ESC] == [ESC];
    assert Unescape(b, 1, 0, []) == Unescape(b, 1, 1, [ESC]) == Ok([ESC]);
    assert [ESC] + Zeros(0) == [ESC];
  }

  /** With a byte after it, the escaped END decodes, but the trailing byte is lost to a zero. */
  lemma DecodeEscapedEndThenByte()
    ensures DecodeBody([ESC, ESC_END, 0x41]) == Ok([END, 0x00])
  {
    var b: seq<byte> := [ESC, ESC_END, 0x41];
    assert b[..2] == [ESC, ESC_END];
    assert b[..2][..1] == [ESC];
    assert EscCount(b[..2]) == 1;
    assert EscCount(b[..1]) == 0;
    assert EscCount(b) == 1;
    assert [] + [END] == [END];
    assert Unescape(b, 2, 0, []) == Unescape(b, 2, 2, [END]) == Ok([END]);
    assert [END] + Zeros(1) == [END, 0x00];
  }

  /** An escape followed by a byte other than ESC_END/ESC_ESC fails, when the output has room for two more bytes. */
  lemma DecodeBadEscape(b: seq<byte>)
    requires |b| >= 2 && b[0] == ESC && b[1] != ESC_END && b[1] != ESC_ESC
    requires OutLength(b) >= 2
    ensures DecodeBody(b) == Err(IOFault(InvalidEscape))
  {}

  /**
   * The decoding loop never reads a body byte past position m, its result
   * length: an escape is completed from position i + 1 only when i < m.
   * Bodies of the same length that agree up to position m decode alike.
   */
  lemma {:induction false} UnescapeReadsPrefix(b: seq<byte>, c: seq<byte>, m: nat, i: nat, out: seq<byte>)
    requires m < |b| == |c| && b[..m + 1] == c[..m + 1]
    requires |out| <= i && |out| <= m
    ensures Unescape(b, m, i, out) == Unescape(c, m, i, out)
    decreases m - i
  {
    if i < m {
      assert b[i] == b[..m + 1][i] && c[i] == c[..m + 1][i];
      assert b[i + 1] == b[..m + 1][i + 1] && c[i + 1] == c[..m + 1][i + 1];
      if b[i] == ESC && |out| < m - 1 && i < |b| - 1 {
        if b[i + 1] == ESC_ESC {
          UnescapeReadsPrefix(b, c, m, i + 2, out + [ESC]);
        } else if b[i + 1] == ESC_END {
          UnescapeReadsPrefix(b, c, m, i + 2, out + [END]);
        }
      } else {
        UnescapeReadsPrefix(b, c, m, i + 1, out + [b[i]]);
      }
    }
  }

  /**
   * The loop bound is the result length |b| - k for a body with k escape
   * bytes, so the decoder stops short of the body's end: bodies with the
   * same length and escape count that agree up to position |b| - k decode
   * alike, whatever their last k - 1 bytes are.
   */
  lemma DecodeReadsPrefix(b: seq<byte>, c: seq<byte>)
    requires |b| == |c| && EscCount(b) == EscCount(c) > 0
    requires b[..OutLength(b) + 1] == c[..OutLength(b) + 1]
    ensures DecodeBody(b) == DecodeBody(c)
  {
    UnescapeReadsPrefix(b, c, OutLength(b), 0, []);
  }

  /** Appending a byte counts the old last byte as an escape when it is ESC. */
  lemma EscCountSnoc(a: seq<byte>, y: byte)
    ensures EscCount(a + [y]) == EscCount(a) + if |a| >= 1 && a[|a| - 1] == ESC then 1 else 0
  {
    var b := a + [y];
    if |b| > 1 {
      assert b[..|b| - 1] == a;
    }
  }

  /** Every escape byte of an escaped body opens a pair, so there are as many as special bytes. */
  lemma {:induction false} EscCountOfEscape(p: seq<byte>)
    ensures EscCount(Escape(p)) == Specials(p)
  {
    if p != [] {
      var q, x := p[..|p| - 1], p[|p| - 1];
      var e := Escape(q);
      EscCountOfEscape(q);
      EscapeShape(q);
      if Special(x) {
        assert Escape(p) == (e + [ESC]) + [EscapeByte(x)[1]];
        EscCountSnoc(e, ESC);
        EscCountSnoc(e + [ESC], EscapeByte(x)[1]);
      } else {
        assert Escape(p) == e + [x];
        EscCountSnoc(e, x);
      }
    }
  }

  /**
   * For the escaped body of a payload p, the loop runs over |p| of its
   * |p| + Specials(p) bytes: with two or more END/ESC bytes in p, the
   * last Specials(p) - 1 bytes of the frame body are never read.
   */
  lemma EscapedBodyBound(p: seq<byte>)
    ensures |Escape(p)| == |p| + Specials(p)
    ensures OutLength(Escape(p)) == |p|
  {
    EscapeShape(p);
    EscCountOfEscape(p);
  }

  // ---------------------------------------------------------------------
  // Collecting a body from the incoming byte stream.

  /**
   * The collecting loop of ReadFrame over the bytes q still to be read:
   * before the opening END every byte is discarded, after it every byte
   * but END is kept, and the next END ends the body.  None means the
   * bytes ran out first.  The second component is what remains unread.
   */
  function Collect(q: seq<byte>, started: bool, acc: seq<byte>): Option<(seq<byte>, seq<byte>)>
    decreases |q|
  {
    if q == [] then None
    else if !started then Collect(q[1..], q[0] == END, acc)
    else if q[0] == END then Some((acc, q[1..]))
    else Collect(q[1..], true, acc + [q[0]])
  }

  /** A collected body never holds END, and the unread rest is a suffix of the input. */
  lemma {:induction false} CollectShape(q: seq<byte>, started: bool, acc: seq<byte>)
    requires Collect(q, started, acc).Some?
    ensures var (body, rest) := Collect(q, started, acc).value;
      |rest| < |q| && rest == q[|q| - |rest|..] &&
      (END !in acc ==> END !in body)
    decreases |q|
  {
    if started && q[0] != END {
      CollectShape(q[1..], true, acc + [q[0]]);
    } else if !started {
      CollectShape(q[1..], q[0] == END, acc);
    }
  }

  /** Garbage before a frame is skipped and the frame's body comes back with the rest untouched. */
  lemma {:induction false} CollectFrame(junk: seq<byte>, body: seq<byte>, rest: seq<byte>)
    requires END !in junk && END !in body
    ensures Collect(junk + [END] + body + [END] + rest, false, []) == Some((body, rest))
  {
    if junk == [] {
      var q := junk + [END] + body + [END] + rest;
      assert q[0] == END;
      assert q[1..] == body + [END] + rest;
      CollectBody(body, [], rest);
      assert [] + body == body;
    } else {
      assert (junk + [END] + body + [END] + rest)[1..] == junk[1..] + [END] + body + [END] + rest;
      CollectFrame(junk[1..], body, rest);
    }
  }

  lemma {:induction false} CollectBody(body: seq<byte>, acc: seq<byte>, rest: seq<byte>)
    requires END !in body
    ensures Collect(body + [END] + rest, true, acc) == Some((acc + body, rest))
  {
    if body == [] {
      var q := body + [END] + rest;
      assert q[0] == END && q[1..] == rest;
      assert acc + body == acc;
    } else {
      assert (body + [END] + rest)[1..] == body[1..] + [END] + rest;
      assert acc + body == acc + [body[0]] + body[1..];
      CollectBody(body[1..], acc + [body[0]], rest);
    }
  }

  /**
   * The round trip the framing achieves: a payload with no END or ESC,
   * framed and followed by anything, is read back exactly.
   */
  lemma FrameRoundTrip(payload: seq<byte>, rest: seq<byte>)
    requires forall k :: 0 <= k < |payload| ==> !Special(payload[k])
    ensures Collect(Frame(payload) + rest, false, []) == Some((payload, rest))
    ensures DecodeBody(payload) == Ok(payload)
  {
    EscapePlain(payload);
    assert Frame(payload) + rest == [] + [END] + payload + [END] + rest;
    CollectFrame([], payload, rest);
    DecodePlain(payload);
  }

  /** The round trip fails for a payload holding END: the frame comes back as a single ESC. */
  lemma FrameRoundTripFailsOnEnd()
    ensures Collect(Frame([END]), false, []) == Some(([ESC, ESC_END], []))
    ensures DecodeBody([ESC, ESC_END]) == Ok([ESC])
  {
    assert Escape([END]) == Escape([]) + EscapeByte(END);
    assert Frame([END]) == [] + [END] + [ESC, ESC_END] + [END] + [];
    CollectFrame([], [ESC, ESC_END], []);
    DecodeEscapedEndAlone();
  }

  // ---------------------------------------------------------------------
  // The decoding the framing evidently intends: the loop runs over every
  // collected body byte, not over the result length.

  /**
   * RFC 1055 unescaping of a whole body: ESC ESC_ESC is ESC, ESC ESC_END is
   * END, any other byte after ESC is an IOException, and a lone ESC at the
   * very end is kept, as ReadFrame keeps it.
   */
  function Unslip(b: seq<byte>): (r: Result<seq<byte>>)
    ensures r.Ok? ==> |r.value| <= |b|
    ensures r.Err? ==> r.fault == IOFault(InvalidEscape)
    decreases |b|
  {
    if b == [] then Ok([])
    else if b[0] == ESC && |b| > 1 then
      if b[1] == ESC_ESC || b[1] == ESC_END then
        match Unslip(b[2..])
        case Ok(t) => Ok([if b[1] == ESC_ESC then ESC else END] + t)
        case Err(e) => Err(e)
      else Err(IOFault(InvalidEscape))
    else
      match Unslip(b[1..])
      case Ok(t) => Ok([b[0]] + t)
      case Err(e) => Err(e)
  }

  /** Escaping one more byte in front puts its escape in front. */
  lemma EscapeCons(x: byte, p: seq<byte>)
    ensures Escape([x] + p) == EscapeByte(x) + Escape(p)
  {
    EscapeAppend([x], p);
    EscapeSingle(x);
  }

  lemma EscapeSingle(x: byte)
    ensures Escape([x]) == EscapeByte(x)
  {
    assert [x][..0] == [];
  }

  /** Unescaping undoes escaping, for every payload. */
  lemma {:induction false} UnslipEscape(p: seq<byte>)
    ensures Unslip(Escape(p)) == Ok(p)
    decreases |p|
  {
    if p != [] {
      var x, t := p[0], p[1..];
      assert p == [x] + t;
      EscapeCons(x, t);
      UnslipEscape(t);
      var e := Escape(p);
      if Special(x) {
        assert e[2..] == Escape(t);
      } else {
        assert e[1..] == Escape(t);
      }
    }
  }

  /**
   * The intended round trip: any payload, framed and followed by anything,
   * is collected as its escaped body and unescaped back exactly; the
   * decoder as written gets [END] wrong.
   */
  lemma FrameRoundTripIntended(payload: seq<byte>, rest: seq<byte>)
    ensures Collect(Frame(payload) + rest, false, []) == Some((Escape(payload), rest))
    ensures Unslip(Escape(payload)) == Ok(payload)
    ensures DecodeBody(Escape([END])) != Ok([END])
  {
    EscapeShape(payload);
    assert Frame(payload) + rest == [] + [END] + Escape(payload) + [END] + rest;
    CollectFrame([], Escape(payload), rest);
    UnslipEscape(payload);
    FrameRoundTripFailsOnEnd();
    assert Escape([END]) == Escape([]) + EscapeByte(END) == [ESC, ESC_END];
  }
}
