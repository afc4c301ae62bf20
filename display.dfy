/*
 * The monitor's side of the display protocol (EspMon/Screen.cs): the
 * 74-byte screen record and the 8-byte data record that the firmware reads
 * as response_screen_t and response_data_t (include/serial.hpp), and the
 * "#RRGGBB[AA]" colour notation of the screen configuration.  Text fields
 * are held as their UTF-8 bytes; a sensor reading is held as what the
 * rounding conversion to ushort makes of it.
 */
module Display {
  import opened Results
  import opened Bytes

  /** A System.Drawing.Color, reduced to its four channels. */
  datatype Color = Color(r: byte, g: byte, b: byte, a: byte)

  /** One value of a line: its unit suffix, bar style, scale, colour and the sensor it follows (None: a null Match). */
  datatype SubEntry = SubEntry(suffix: seq<byte>, isGradient: bool, max: bv16, color: Color, pattern: Option<string>)

  /** One line of a screen: a label in a colour and two values. */
  datatype Entry = Entry(caption: seq<byte>, color: Color, value1: SubEntry, value2: SubEntry)

  datatype Screen = Screen(top: Entry, bottom: Entry)

  /** A cached sensor reading: NaN, or the ushort that Math.Round and the cast make of the float. */
  datatype Sample = NaN | Number(rounded: bv16)

  /** C#'s (byte) conversion of an int. */
  function U8(n: int): byte { (n % 0x100) as byte }

  function Min(a: nat, b: nat): nat { if a < b then a else b }

  // ---------------------------------------------------------------------
  // The record layout the firmware reads (include/serial.hpp)
  // ---------------------------------------------------------------------

  /** The fields of one line of response_screen_t, top_* or bottom_*. */
  datatype LineField = Label | LabelColor | Color1 | Suffix1 | Max1 | Color2 | Suffix2 | Max2

  /** Declaration order of a line's fields. */
  const LINE_LAYOUT: seq<LineField> := [Label, LabelColor, Color1, Suffix1, Max1, Color2, Suffix2, Max2]

  /** Declared size of each field: char[12], uint8_t[4], char[4], uint16_t. */
  function FieldSize(f: LineField): nat
  {
    match f
    case Label => 12
    case LabelColor => 4
    case Color1 => 4
    case Suffix1 => 4
    case Max1 => 2
    case Color2 => 4
    case Suffix2 => 4
    case Max2 => 2
  }

  /** Bytes taken by a run of fields laid out one after another. */
  function Span(fields: seq<LineField>): nat
  {
    if fields == [] then 0 else Span(fields[..|fields| - 1]) + FieldSize(fields[|fields| - 1])
  }

  /** Place of a field in the declaration order. */
  function Position(f: LineField): (k: nat)
    ensures k < |LINE_LAYOUT| && LINE_LAYOUT[k] == f
  {
    match f
    case Label => 0
    case LabelColor => 1
    case Color1 => 2
    case Suffix1 => 3
    case Max1 => 4
    case Color2 => 5
    case Suffix2 => 6
    case Max2 => 7
  }

  /** Where a field starts within its line: the size of the fields declared before it. */
  function FieldOffset(f: LineField): (r: nat)
  {
    Span(LINE_LAYOUT[..Position(f)])
  }

  const LINE_SIZE: nat := 36
  const SCREEN_SIZE: nat := 74
  const DATA_SIZE: nat := 8

  /** The declared fields fill a line of 36 bytes, and a screen record (index, flags, two lines) is 74 bytes. */
  lemma LineLayout()
    ensures Span(LINE_LAYOUT) == LINE_SIZE && 2 + 2 * LINE_SIZE == SCREEN_SIZE
    ensures FieldOffset(Label) == 0 && FieldOffset(LabelColor) == 12 && FieldOffset(Color1) == 16
    ensures FieldOffset(Suffix1) == 20 && FieldOffset(Max1) == 24 && FieldOffset(Color2) == 26
    ensures FieldOffset(Suffix2) == 30 && FieldOffset(Max2) == 34
  {
    var s := LINE_LAYOUT;
    assert Span(s[..1]) == 12 by { assert s[..1][..0] == []; }
    assert Span(s[..2]) == 16 by { assert s[..2][..1] == s[..1]; }
    assert Span(s[..3]) == 20 by { assert s[..3][..2] == s[..2]; }
    assert Span(s[..4]) == 24 by { assert s[..4][..3] == s[..3]; }
    assert Span(s[..5]) == 26 by { assert s[..5][..4] == s[..4]; }
    assert Span(s[..6]) == 30 by { assert s[..6][..5] == s[..5]; }
    assert Span(s[..7]) == 34 by { assert s[..7][..6] == s[..6]; }
    assert Span(s) == 36 by { assert s[..7] == s[..|s| - 1]; }
    assert s[..0] == [];
  }

  /** The bytes of field f within a line. */
  function FieldOf(line: seq<byte>, f: LineField): (r: seq<byte>)
    requires |line| == LINE_SIZE
    ensures |r| == FieldSize(f)
  {
    LineLayout();
    line[FieldOffset(f)..FieldOffset(f) + FieldSize(f)]
  }

  /** The firmware's reading of a uint8_t[4] colour. */
  function ColorOf(b: seq<byte>): Color
    requires |b| == 4
  {
    Color(b[0], b[1], b[2], b[3])
  }

  /** One line of response_screen_t as the firmware sees it. */
  datatype LineRecord = LineRecord(caption: seq<byte>, labelColor: Color, color1: Color, suffix1: seq<byte>,
                                   max1: bv16, color2: Color, suffix2: seq<byte>, max2: bv16)

  function ReadLine(line: seq<byte>): LineRecord
    requires |line| == LINE_SIZE
  {
    LineRecord(FieldOf(line, Label), ColorOf(FieldOf(line, LabelColor)), ColorOf(FieldOf(line, Color1)),
               FieldOf(line, Suffix1), Word16(FieldOf(line, Max1)), ColorOf(FieldOf(line, Color2)),
               FieldOf(line, Suffix2), Word16(FieldOf(line, Max2)))
  }

  /** response_screen_t: index, flags, then the top line's fields and the bottom line's. */
  datatype ScreenRecord = ScreenRecord(index: byte, flags: byte, top: LineRecord, bottom: LineRecord)

  function ReadScreen(rec: seq<byte>): ScreenRecord
    requires |rec| == SCREEN_SIZE
  {
    ScreenRecord(rec[0], rec[1], ReadLine(rec[2..2 + LINE_SIZE]), ReadLine(rec[2 + LINE_SIZE..]))
  }

  /** response_data_t: four uint16_t values, top first. */
  datatype DataRecord = DataRecord(top1: bv16, top2: bv16, bottom1: bv16, bottom2: bv16)

  function ReadData(rec: seq<byte>): DataRecord
    requires |rec| == DATA_SIZE
  {
    DataRecord(Word16(rec[0..2]), Word16(rec[2..4]), Word16(rec[4..6]), Word16(rec[6..8]))
  }

  /** The text of a char[] slot as C reads it: the bytes before the first NUL. */
  function CString(b: seq<byte>): (r: seq<byte>)
    ensures |r| <= |b| && r == b[..|r|]
    ensures forall k :: 0 <= k < |r| ==> r[k] != 0
    ensures |r| < |b| ==> b[|r|] == 0
  {
    if b == [] || b[0] == 0 then [] else [b[0]] + CString(b[1..])
  }

  // ---------------------------------------------------------------------
  // What the serialiser writes (EspMon/Screen.cs)
  // ---------------------------------------------------------------------

  /** The four bytes ColorToBytes writes: R, G, B, then A. */
  function ColorBytes(c: Color): (r: seq<byte>)
    ensures |r| == 4 && ColorOf(r) == c
  {
    [c.r, c.g, c.b, c.a]
  }

  /** The firmware's colour reading and ColorToBytes are inverse on every four bytes. */
  lemma ColorBytesOf(b: seq<byte>)
    requires |b| == 4
    ensures ColorBytes(ColorOf(b)) == b
  {
    assert ColorBytes(ColorOf(b))[..] == [b[0], b[1], b[2], b[3]];
  }

  /** A text slot after copying at most limit bytes of text into it: the rest keeps its prior bytes. */
  function Slot(text: seq<byte>, limit: nat, prior: seq<byte>): (r: seq<byte>)
    requires limit < |prior|
    ensures |r| == |prior|
  {
    text[..Min(|text|, limit)] + prior[Min(|text|, limit)..]
  }

  /** The flags byte: bit 0..3 for top value 1, top value 2, bottom value 1, bottom value 2 drawn as gradients. */
  function Flags(s: Screen): byte
  {
    (if s.top.value1.isGradient then 1 else 0) | (if s.top.value2.isGradient then 2 else 0)
      | (if s.bottom.value1.isGradient then 4 else 0) | (if s.bottom.value2.isGradient then 8 else 0)
  }

  /** The 10 bytes of one value: colour, suffix slot, max little-endian; prior is what the slot held. */
  function ValueImage(v: SubEntry, prior: seq<byte>): (r: seq<byte>)
    requires |prior| == 10
    ensures |r| == 10
  {
    ColorBytes(v.color) + Slot(v.suffix, 3, prior[4..8]) + LE16(v.max)
  }

  /** The 36 bytes of one line: label slot, label colour, then both values. */
  function LineImage(e: Entry, prior: seq<byte>): (r: seq<byte>)
    requires |prior| == LINE_SIZE
    ensures |r| == LINE_SIZE
  {
    Slot(e.caption, 11, prior[0..12]) + ColorBytes(e.color) + ValueImage(e.value1, prior[16..26]) + ValueImage(e.value2, prior[26..36])
  }

  /** The 74 bytes ToScreenPacket leaves where prior was. */
  function ScreenImage(s: Screen, screenIndex: int, prior: seq<byte>): (r: seq<byte>)
    requires |prior| == SCREEN_SIZE
    ensures |r| == SCREEN_SIZE
  {
    [U8(screenIndex), Flags(s)] + LineImage(s.top, prior[2..2 + LINE_SIZE]) + LineImage(s.bottom, prior[2 + LINE_SIZE..])
  }

  /** ToUint16: NaN becomes 0. */
  function ToUint16(v: Sample): (r: bv16)
    ensures v.NaN? ==> r == 0
  {
    match v
    case NaN => 0
    case Number(n) => n
  }

  /** The reading a value shows: NaN unless its match string is non-empty and in the cache. */
  function ValueOf(v: SubEntry, matchCache: map<string, Sample>): Sample
  {
    if v.pattern.None? || v.pattern.value == "" || v.pattern.value !in matchCache then NaN else matchCache[v.pattern.value]
  }

  /** The 8 bytes ToDataPacket writes: the four readings as u16 little-endian. */
  function DataImage(s: Screen, matchCache: map<string, Sample>): (r: seq<byte>)
    ensures |r| == DATA_SIZE
  {
    LE16(ToUint16(ValueOf(s.top.value1, matchCache))) + LE16(ToUint16(ValueOf(s.top.value2, matchCache)))
      + LE16(ToUint16(ValueOf(s.bottom.value1, matchCache))) + LE16(ToUint16(ValueOf(s.bottom.value2, matchCache)))
  }

  /** A write of a piece at pos, right after what has been written so far, extends it; the piece replaced o[pos..end]. */
  lemma Extend(o: seq<byte>, at: nat, done: seq<byte>, piece: seq<byte>, pos: nat, end: nat, cur: seq<byte>, next: seq<byte>)
    requires pos == at + |done| && end == pos + |piece| <= |o|
    requires cur == o[..at] + done + o[pos..]
    requires next == cur[..pos] + piece + cur[end..]
    ensures cur[pos..end] == o[pos..end]
    ensures next == o[..at] + (done + piece) + o[end..]
  {
    assert cur[..pos] == o[..at] + done;
    assert cur[pos..] == o[pos..];
  }

  lemma SubSlice(o: seq<byte>, from: nat, to: nat, lo: nat, hi: nat)
    requires from <= to <= |o| && lo <= hi <= to - from
    ensures o[from..to][lo..hi] == o[from + lo..from + hi]
  {
    assert forall k :: 0 <= k < hi - lo ==> o[from..to][lo..hi][k] == o[from + lo..from + hi][k];
  }

  /** The slots of a line read inside the whole buffer. */
  lemma LineWindows(o: seq<byte>, index: nat, p: seq<byte>)
    requires index + LINE_SIZE <= |o| && p == o[index..index + LINE_SIZE]
    ensures p[0..12] == o[index..index + 12] && p[16..26] == o[index + 16..index + 26] && p[26..36] == o[index + 26..index + 36]
  {
    SubSlice(o, index, index + LINE_SIZE, 0, 12);
    SubSlice(o, index, index + LINE_SIZE, 16, 26);
    SubSlice(o, index, index + LINE_SIZE, 26, 36);
  }

  /** ColorToBytes: R, G, B, A at startIndex. */
  method ColorToBytes(color: Color, buffer: array<byte>, startIndex: nat)
    requires startIndex + 4 <= buffer.Length
    modifies buffer
    ensures buffer[..] == old(buffer[..startIndex]) + ColorBytes(color) + old(buffer[startIndex + 4..])
  {
    buffer[startIndex] := color.r;
    buffer[startIndex + 1] := color.g;
    buffer[startIndex + 2] := color.b;
    buffer[startIndex + 3] := color.a;
    assert buffer[..] == old(buffer[..startIndex]) + ColorBytes(color) + old(buffer[startIndex + 4..]);
  }

  /** Copies min(|text|, limit) bytes of text to index, leaving the rest of the slot alone. */
  method CopyText(text: seq<byte>, limit: nat, destination: array<byte>, index: nat)
    requires index + limit < destination.Length
    modifies destination
    ensures destination[..] == old(destination[..index]) + Slot(text, limit, old(destination[index..index + limit + 1]))
                                 + old(destination[index + limit + 1..])
  {
    var size := Min(|text|, limit);
    ghost var o := destination[..];
    CopyInto(text[..size], destination, index);
    assert o[index..index + limit + 1][size..] == o[index + size..index + limit + 1];
    assert o[index + size..] == o[index + size..index + limit + 1] + o[index + limit + 1..];
  }

  /** One value's colour, suffix and max, from index. */
  method PutValue(v: SubEntry, destination: array<byte>, index: nat)
    requires index + 10 <= destination.Length
    modifies destination
    ensures destination[..] == old(destination[..index]) + ValueImage(v, old(destination[index..index + 10]))
                                 + old(destination[index + 10..])
  {
    ghost var o := destination[..];
    ColorToBytes(v.color, destination, index);
    ghost var cur := destination[..];
    assert o == o[..index] + [] + o[index..];
    Extend(o, index, [], ColorBytes(v.color), index, index + 4, o, cur);
    CopyText(v.suffix, 3, destination, index + 4);
    ghost var piece := Slot(v.suffix, 3, cur[index + 4..index + 8]);
    Extend(o, index, ColorBytes(v.color), piece, index + 4, index + 8, cur, destination[..]);
    cur := destination[..];
    CopyInto(LE16(v.max), destination, index + 8);
    Extend(o, index, ColorBytes(v.color) + piece, LE16(v.max), index + 8, index + 10, cur, destination[..]);
    SubSlice(o, index, index + 10, 4, 8);
    assert piece == Slot(v.suffix, 3, o[index..index + 10][4..8]);
  }

  /** One line: label slot, label colour, both values, from index. */
  method PutLine(e: Entry, destination: array<byte>, index: nat)
    requires index + LINE_SIZE <= destination.Length
    modifies destination
    ensures destination[..] == old(destination[..index]) + LineImage(e, old(destination[index..index + LINE_SIZE]))
                                 + old(destination[index + LINE_SIZE..])
  {
    ghost var o := destination[..];
    ghost var p := o[index..index + LINE_SIZE];
    CopyText(e.caption, 11, destination, index);
    ghost var slot := Slot(e.caption, 11, o[index..index + 12]);
    assert o == o[..index] + [] + o[index..];
    Extend(o, index, [], slot, index, index + 12, o, destination[..]);
    ghost var cur := destination[..];
    ColorToBytes(e.color, destination, index + 12);
    Extend(o, index, slot, ColorBytes(e.color), index + 12, index + 16, cur, destination[..]);
    cur := destination[..];
    ghost var done := slot + ColorBytes(e.color);
    PutValue(e.value1, destination, index + 16);
    ghost var first := ValueImage(e.value1, cur[index + 16..index + 26]);
    Extend(o, index, done, first, index + 16, index + 26, cur, destination[..]);
    cur := destination[..];
    PutValue(e.value2, destination, index + 26);
    ghost var second := ValueImage(e.value2, cur[index + 26..index + 36]);
    Extend(o, index, done + first, second, index + 26, index + 36, cur, destination[..]);
    LineWindows(o, index, p);
    assert slot == Slot(e.caption, 11, p[0..12]);
    assert first == ValueImage(e.value1, p[16..26]);
    assert second == ValueImage(e.value2, p[26..36]);
  }

  /** The flags byte, one bit set per gradient value. */
  method GradientFlags(s: Screen) returns (flags: byte)
    ensures flags == Flags(s)
  {
    flags := 0;
    if s.top.value1.isGradient { flags := flags | 1; }
    if s.top.value2.isGradient { flags := flags | 2; }
    if s.bottom.value1.isGradient { flags := flags | 4; }
    if s.bottom.value2.isGradient { flags := flags | 8; }
  }

  /**
   * ToScreenPacket: writes the screen record from destinationIndex; bytes
   * outside the 74 and the unused tail of each text slot are left as they were.
   */
  method ToScreenPacket(s: Screen, destination: array<byte>, destinationIndex: nat, screenIndex: int)
    requires destinationIndex + SCREEN_SIZE <= destination.Length
    modifies destination
    ensures destination[..] == old(destination[..destinationIndex])
                                 + ScreenImage(s, screenIndex, old(destination[destinationIndex..destinationIndex + SCREEN_SIZE]))
                                 + old(destination[destinationIndex + SCREEN_SIZE..])
  {
    ghost var o := destination[..];
    var i := destinationIndex;
    destination[i] := U8(screenIndex);
    i := i + 1;
    var flags := GradientFlags(s);
    destination[i] := flags;
    i := i + 1;
    ghost var head := [U8(screenIndex), Flags(s)];
    ghost var cur := destination[..];
    assert cur == o[..destinationIndex] + head + o[destinationIndex + 2..];
    PutLine(s.top, destination, i);
    ghost var top := LineImage(s.top, cur[i..i + LINE_SIZE]);
    Extend(o, destinationIndex, head, top, i, i + LINE_SIZE, cur, destination[..]);
    i := i + LINE_SIZE;
    cur := destination[..];
    PutLine(s.bottom, destination, i);
    ghost var bottom := LineImage(s.bottom, cur[i..i + LINE_SIZE]);
    Extend(o, destinationIndex, head + top, bottom, i, i + LINE_SIZE, cur, destination[..]);
    SubSlice(o, destinationIndex, destinationIndex + SCREEN_SIZE, 2, 2 + LINE_SIZE);
    SubSlice(o, destinationIndex, destinationIndex + SCREEN_SIZE, 2 + LINE_SIZE, SCREEN_SIZE);
  }

  /** ToDataPacket: the four readings from destinationIndex; nothing else changes. */
  method ToDataPacket(s: Screen, destination: array<byte>, destinationIndex: nat, matchCache: map<string, Sample>)
    requires destinationIndex + DATA_SIZE <= destination.Length
    modifies destination
    ensures destination[..] == old(destination[..destinationIndex]) + DataImage(s, matchCache)
                                 + old(destination[destinationIndex + DATA_SIZE..])
  {
    var top1 := ValueOf(s.top.value1, matchCache);
    var top2 := ValueOf(s.top.value2, matchCache);
    var bottom1 := ValueOf(s.bottom.value1, matchCache);
    var bottom2 := ValueOf(s.bottom.value2, matchCache);
    ghost var o := destination[..];
    var i := destinationIndex;
    var tmp := LE16(ToUint16(top1));
    CopyInto(tmp, destination, i);
    assert o == o[..i] + [] + o[i..];
    Extend(o, destinationIndex, [], tmp, i, i + 2, o, destination[..]);
    ghost var done := tmp;
    ghost var cur := destination[..];
    i := i + 2;
    tmp := LE16(ToUint16(top2));
    CopyInto(tmp, destination, i);
    Extend(o, destinationIndex, done, tmp, i, i + 2, cur, destination[..]);
    done, cur := done + tmp, destination[..];
    i := i + 2;
    tmp := LE16(ToUint16(bottom1));
    CopyInto(tmp, destination, i);
    Extend(o, destinationIndex, done, tmp, i, i + 2, cur, destination[..]);
    done, cur := done + tmp, destination[..];
    i := i + 2;
    tmp := LE16(ToUint16(bottom2));
    CopyInto(tmp, destination, i);
    Extend(o, destinationIndex, done, tmp, i, i + 2, cur, destination[..]);
  }

  // ---------------------------------------------------------------------
  // What the firmware reads back
  // ---------------------------------------------------------------------

  /** A line as the firmware reads it after PutLine, field by field of the declared layout. */
  function LineSeen(e: Entry, prior: seq<byte>): LineRecord
    requires |prior| == LINE_SIZE
  {
    LineRecord(Slot(e.caption, 11, FieldOf(prior, Label)), e.color, e.value1.color,
               Slot(e.value1.suffix, 3, FieldOf(prior, Suffix1)), e.value1.max,
               e.value2.color, Slot(e.value2.suffix, 3, FieldOf(prior, Suffix2)), e.value2.max)
  }

  /** Every field of a written line lands where response_screen_t declares it. */
  lemma LineRoundTrip(e: Entry, prior: seq<byte>)
    requires |prior| == LINE_SIZE
    ensures ReadLine(LineImage(e, prior)) == LineSeen(e, prior)
  {
    LineFirstFields(e, prior);
    LineLastFields(e, prior);
    Word16OfLE16(e.value1.max);
    Word16OfLE16(e.value2.max);
  }

  /** The label, its colour and the first value's colour and suffix of a written line. */
  lemma LineFirstFields(e: Entry, prior: seq<byte>)
    requires |prior| == LINE_SIZE
    ensures FieldOf(LineImage(e, prior), Label) == Slot(e.caption, 11, FieldOf(prior, Label))
    ensures FieldOf(LineImage(e, prior), LabelColor) == ColorBytes(e.color)
    ensures FieldOf(LineImage(e, prior), Color1) == ColorBytes(e.value1.color)
    ensures FieldOf(LineImage(e, prior), Suffix1) == Slot(e.value1.suffix, 3, FieldOf(prior, Suffix1))
  {
    LineLayout();
    var r := LineImage(e, prior);
    var v1 := ValueImage(e.value1, prior[16..26]);
    assert r == Slot(e.caption, 11, prior[0..12]) + ColorBytes(e.color) + v1 + ValueImage(e.value2, prior[26..36]);
    SubSlice(prior, 16, 26, 4, 8);
    assert r[16..26] == v1;
  }

  /** The first value's max and the second value's colour, suffix and max of a written line. */
  lemma LineLastFields(e: Entry, prior: seq<byte>)
    requires |prior| == LINE_SIZE
    ensures FieldOf(LineImage(e, prior), Max1) == LE16(e.value1.max)
    ensures FieldOf(LineImage(e, prior), Color2) == ColorBytes(e.value2.color)
    ensures FieldOf(LineImage(e, prior), Suffix2) == Slot(e.value2.suffix, 3, FieldOf(prior, Suffix2))
    ensures FieldOf(LineImage(e, prior), Max2) == LE16(e.value2.max)
  {
    LineLayout();
    var r := LineImage(e, prior);
    var v1, v2 := ValueImage(e.value1, prior[16..26]), ValueImage(e.value2, prior[26..36]);
    assert r == Slot(e.caption, 11, prior[0..12]) + ColorBytes(e.color) + v1 + v2;
    SubSlice(prior, 26, 36, 4, 8);
    assert r[16..26] == v1 && r[26..36] == v2;
  }

  /** The firmware reads back the index (the low byte of screenIndex), the flags and both lines. */
  lemma ScreenRoundTrip(s: Screen, screenIndex: int, prior: seq<byte>)
    requires |prior| == SCREEN_SIZE
    ensures ReadScreen(ScreenImage(s, screenIndex, prior))
            == ScreenRecord(U8(screenIndex), Flags(s), LineSeen(s.top, prior[2..2 + LINE_SIZE]), LineSeen(s.bottom, prior[2 + LINE_SIZE..]))
  {
    var r := ScreenImage(s, screenIndex, prior);
    assert r[2..2 + LINE_SIZE] == LineImage(s.top, prior[2..2 + LINE_SIZE]);
    assert r[2 + LINE_SIZE..] == LineImage(s.bottom, prior[2 + LINE_SIZE..]);
    LineRoundTrip(s.top, prior[2..2 + LINE_SIZE]);
    LineRoundTrip(s.bottom, prior[2 + LINE_SIZE..]);
  }

  /** Flag bit k is set exactly when value k is a gradient, and the high four bits are clear. */
  lemma FlagBits(s: Screen)
    ensures Flags(s) & 1 != 0 <==> s.top.value1.isGradient
    ensures Flags(s) & 2 != 0 <==> s.top.value2.isGradient
    ensures Flags(s) & 4 != 0 <==> s.bottom.value1.isGradient
    ensures Flags(s) & 8 != 0 <==> s.bottom.value2.isGradient
    ensures Flags(s) & 0xF0 == 0
  {
  }

  /** A slot keeps its last byte, and its first bytes are the text cut to limit. */
  lemma SlotFields(text: seq<byte>, limit: nat, prior: seq<byte>)
    requires limit < |prior|
    ensures Slot(text, limit, prior)[..Min(|text|, limit)] == text[..Min(|text|, limit)]
    ensures Slot(text, limit, prior)[Min(|text|, limit)..] == prior[Min(|text|, limit)..]
    ensures Slot(text, limit, prior)[|prior| - 1] == prior[|prior| - 1]
  {
  }

  /** A text without NUL bytes followed by a NUL reads as itself. */
  lemma {:induction false} CStringOf(text: seq<byte>, rest: seq<byte>)
    requires forall k :: 0 <= k < |text| ==> text[k] != 0
    requires rest != [] && rest[0] == 0
    ensures CString(text + rest) == text
  {
    if text != [] {
      assert (text + rest)[1..] == text[1..] + rest;
      CStringOf(text[1..], rest);
    }
  }

  /**
   * In a zero-filled buffer, as both callers in the monitor allocate, a
   * slot reads back as its text cut to limit bytes: the slot's last byte
   * stays NUL and terminates it.
   */
  lemma SlotReadsAsText(text: seq<byte>, limit: nat)
    requires forall k :: 0 <= k < |text| ==> text[k] != 0
    ensures CString(Slot(text, limit, seq(limit + 1, _ => 0))) == text[..Min(|text|, limit)]
  {
    var n := Min(|text|, limit);
    var z: seq<byte> := seq(limit + 1, _ => 0);
    assert z[n..][0] == 0;
    CStringOf(text[..n], z[n..]);
  }

  /** The firmware reads back the four readings, top value 1 first. */
  lemma DataRoundTrip(s: Screen, matchCache: map<string, Sample>)
    ensures ReadData(DataImage(s, matchCache))
            == DataRecord(ToUint16(ValueOf(s.top.value1, matchCache)), ToUint16(ValueOf(s.top.value2, matchCache)),
                          ToUint16(ValueOf(s.bottom.value1, matchCache)), ToUint16(ValueOf(s.bottom.value2, matchCache)))
  {
    var r := DataImage(s, matchCache);
    assert r[0..2] == LE16(ToUint16(ValueOf(s.top.value1, matchCache)));
    assert r[2..4] == LE16(ToUint16(ValueOf(s.top.value2, matchCache)));
    assert r[4..6] == LE16(ToUint16(ValueOf(s.bottom.value1, matchCache)));
    assert r[6..8] == LE16(ToUint16(ValueOf(s.bottom.value2, matchCache)));
    Word16OfLE16(ToUint16(ValueOf(s.top.value1, matchCache)));
    Word16OfLE16(ToUint16(ValueOf(s.top.value2, matchCache)));
    Word16OfLE16(ToUint16(ValueOf(s.bottom.value1, matchCache)));
    Word16OfLE16(ToUint16(ValueOf(s.bottom.value2, matchCache)));
  }

  /** A value with a null, empty or uncached match string is sent as 0. */
  lemma UnmatchedIsZero(v: SubEntry, matchCache: map<string, Sample>)
    requires v.pattern.None? || v.pattern.value == "" || v.pattern.value !in matchCache
    ensures ToUint16(ValueOf(v, matchCache)) == 0
  {
  }

  // ---------------------------------------------------------------------
  // The "#RRGGBB[AA]" colour notation (ParseColor's hexadecimal branch)
  // ---------------------------------------------------------------------

  /** The outcome of ParseColor: a colour, an exception from the hex branch, or a name left to the named-colour lookup. */
  datatype ColorParse = Parsed(color: Color) | BadHex | ByName

  /** Value of a hexadecimal digit, either case. */
  function HexDigit(c: char): (r: Option<nat>)
    ensures r.Some? ==> r.value < 16
  {
    if '0' <= c <= '9' then Some(c as int - '0' as int)
    else if 'a' <= c <= 'f' then Some(c as int - 'a' as int + 10)
    else if 'A' <= c <= 'F' then Some(c as int - 'A' as int + 10)
    else None
  }

  /** The white space .NET's number parser skips: U+0009 to U+000D and the space. */
  predicate IsWhite(c: char) { c == ' ' || '\t' <= c <= '\r' }

  /**
   * byte.Parse(s, NumberStyles.HexNumber) of a two-character string:
   * two digits, or one digit with white space before or after it, or one
   * digit followed by a NUL, which .NET's number parser skips at the end.
   */
  function ParseHexByte(s: string): (r: Option<byte>)
    requires |s| == 2
  {
    match (HexDigit(s[0]), HexDigit(s[1]))
    case (Some(h), Some(l)) => Some((16 * h + l) as byte)
    case (Some(h), None) => if IsWhite(s[1]) || s[1] == '\0' then Some(h as byte) else None
    case (None, Some(l)) => if IsWhite(s[0]) then Some(l as byte) else None
    case (None, None) => None
  }

  /**
   * ParseColor, hexadecimal branch: "#" then red, green and blue pairs, and
   * an alpha pair when the text is longer than 7 characters (0xFF
   * otherwise).  A Substring past the end or a pair that is not a hex byte
   * throws, which is BadHex here.
   */
  function ParseColor(color: string): (r: ColorParse)
    ensures r.ByName? <==> (|color| == 0 || color[0] != '#')
    ensures r.Parsed? && |color| == 7 ==> r.color.a == 0xFF
    ensures color != [] && color[0] == '#' && (|color| < 7 || |color| == 8) ==> r == BadHex
  {
    if |color| == 0 || color[0] != '#' then ByName
    else if |color| < 7 then BadHex
    else
      var r, g, b := ParseHexByte(color[1..3]), ParseHexByte(color[3..5]), ParseHexByte(color[5..7]);
      if r.None? || g.None? || b.None? then BadHex
      else if |color| <= 7 then Parsed(Color(r.value, g.value, b.value, 0xFF))
      else if |color| < 9 then BadHex
      else
        var a := ParseHexByte(color[7..9]);
        if a.None? then BadHex else Parsed(Color(r.value, g.value, b.value, a.value))
  }

  /** A pair of one digit and a trailing NUL reads as that digit: "#A\0B0C0" is 0A B0 C0, opaque. */
  lemma ParseColorTrailingNul()
    ensures ParseColor("#A\0B0C0") == Parsed(Color(0x0A, 0xB0, 0xC0, 0xFF))
  {
    var c := "#A\0B0C0";
    assert c[1..3] == ['A', '\0'] && c[3..5] == ['B', '0'] && c[5..7] == ['C', '0'];
  }

  /** Characters after the alpha pair are ignored. */
  lemma ParseIgnoresTail(color: string)
    requires |color| >= 9
    ensures ParseColor(color) == ParseColor(color[..9])
  {
    var c := color[..9];
    assert c[1..3] == color[1..3] && c[3..5] == color[3..5] && c[5..7] == color[5..7] && c[7..9] == color[7..9];
  }

  /** Upper-case digit for a nibble. */
  function HexChar(n: nat): (c: char)
    requires n < 16
    ensures HexDigit(c) == Some(n)
  {
    if n < 10 then ('0' as int + n) as char else ('A' as int + n - 10) as char
  }

  /** Two upper-case hex digits for a byte, high nibble first. */
  function HexByte(b: byte): (r: string)
    ensures |r| == 2 && ParseHexByte(r) == Some(b)
  {
    var hi, lo := b as int / 16, b as int % 16;
    var r := [HexChar(hi), HexChar(lo)];
    assert HexDigit(r[0]) == Some(hi) && HexDigit(r[1]) == Some(lo);
    ByteOfValue(b, hi, lo);
    r
  }

  lemma ByteOfValue(b: byte, hi: nat, lo: nat)
    requires hi == b as int / 16 && lo == b as int % 16
    ensures (16 * hi + lo) as byte == b
  {
    assert 16 * hi + lo == b as int;
  }

  /** The "#RRGGBBAA" notation of a colour. */
  function FormatColor(c: Color): (r: string)
    ensures |r| == 9 && r[0] == '#'
  {
    "#" + HexByte(c.r) + HexByte(c.g) + HexByte(c.b) + HexByte(c.a)
  }

  /** A "#" followed by four hex pairs parses to the colour of those pairs. */
  lemma ParsePairs(color: string, c: Color)
    requires |color| == 9 && color[0] == '#'
    requires ParseHexByte(color[1..3]) == Some(c.r) && ParseHexByte(color[3..5]) == Some(c.g)
    requires ParseHexByte(color[5..7]) == Some(c.b) && ParseHexByte(color[7..9]) == Some(c.a)
    ensures ParseColor(color) == Parsed(c)
    ensures ParseColor(color[..7]) == Parsed(Color(c.r, c.g, c.b, 0xFF))
  {
    var s := color[..7];
    assert s[1..3] == color[1..3] && s[3..5] == color[3..5] && s[5..7] == color[5..7];
  }

  /** Where the pairs of "#" + four pairs sit. */
  lemma PairsAt(h: string, r: string, g: string, b: string, a: string)
    requires |h| == 1 && |r| == 2 && |g| == 2 && |b| == 2 && |a| == 2
    ensures (h + r + g + b + a)[1..3] == r && (h + r + g + b + a)[3..5] == g
    ensures (h + r + g + b + a)[5..7] == b && (h + r + g + b + a)[7..9] == a
  {
  }

  /** "#RRGGBBAA" parses back to the colour, and "#RRGGBB" to the colour made opaque. */
  lemma ParseFormatted(c: Color)
    ensures ParseColor(FormatColor(c)) == Parsed(c)
    ensures ParseColor(FormatColor(c)[..7]) == Parsed(Color(c.r, c.g, c.b, 0xFF))
  {
    PairsAt("#", HexByte(c.r), HexByte(c.g), HexByte(c.b), HexByte(c.a));
    ParsePairs(FormatColor(c), c);
  }
}
