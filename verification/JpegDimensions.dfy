/** Reading the dimensions of a JPEG file by walking its marker segments (ITU-T T.81, annex B). */
module JpegDimensions {

  newtype Byte = x: int | 0 <= x < 0x100

  datatype Dimensions = Dimensions(width: nat, height: nat)
  datatype Found = Nothing | Just(dims: Dimensions)

  predicate IsJpeg(buffer: seq<Byte>) {
    |buffer| >= 4 && buffer[0] == 0xff && buffer[1] == 0xd8
  }

  /** Buffer.readUInt16BE. */
  function ReadUInt16BE(buffer: seq<Byte>, offset: nat): (r: nat)
    requires offset + 2 <= |buffer|
    ensures r < 0x1_0000
  {
    buffer[offset] as nat * 0x100 + buffer[offset + 1] as nat
  }

  predicate IsFrameMarker(marker: Byte) {
    || 0xc0 <= marker <= 0xc3
    || 0xc5 <= marker <= 0xc7
    || 0xc9 <= marker <= 0xcb
    || 0xcd <= marker <= 0xcf
  }

  /** Markers without a length field: SOI, EOI, TEM and the restart markers. */
  predicate IsStandalone(marker: Byte) {
    marker == 0xd8 || marker == 0xd9 || marker == 0x01 || 0xd0 <= marker <= 0xd7
  }

  // ----- the file format -----

  /** Table B.1: the start-of-frame markers, without the markers for tables (DHT, DAC) and the reserved one (JPG). */
  ghost predicate StartsFrame(marker: Byte) {
    0xc0 <= marker <= 0xcf && marker != 0xc4 && marker != 0xc8 && marker != 0xcc
  }

  /** Table B.1: TEM, the restart markers, SOI and EOI stand alone. */
  ghost predicate StandsAlone(marker: Byte) {
    marker == 0x01 || 0xd0 <= marker <= 0xd9
  }

  /** One item before the frame header: a marker segment with its payload, a marker alone, or a byte of other data. */
  datatype Item = Segment(marker: Byte, payload: seq<Byte>) | Standalone(marker: Byte) | Data(byte: Byte)

  ghost predicate WellFormedItem(item: Item) {
    match item
    case Segment(m, payload) =>
      m != 0x00 && m != 0xff && !StandsAlone(m) && !StartsFrame(m) && |payload| + 2 < 0x1_0000
    case Standalone(m) => StandsAlone(m)
    case Data(b) => b != 0xff
  }

  datatype FrameHeader = FrameHeader(marker: Byte, precision: Byte, height: nat, width: nat, components: seq<seq<Byte>>)

  /** Section B.2.2: one to 255 components of three bytes each, and 16-bit dimensions. */
  ghost predicate WellFormedHeader(h: FrameHeader) {
    && StartsFrame(h.marker)
    && h.height < 0x1_0000 && h.width < 0x1_0000
    && 1 <= |h.components| <= 255
    && forall i :: 0 <= i < |h.components| ==> |h.components[i]| == 3
  }

  function UInt16BE(n: nat): (r: seq<Byte>)
    requires n < 0x1_0000
    ensures |r| == 2 && ReadUInt16BE(r, 0) == n
  {
    [(n / 0x100) as Byte, (n % 0x100) as Byte]
  }

  ghost function EncodeItem(item: Item): seq<Byte>
    requires WellFormedItem(item)
  {
    match item
    case Segment(m, payload) => [0xff, m] + UInt16BE(|payload| + 2) + payload
    case Standalone(m) => [0xff, m]
    case Data(b) => [b]
  }

  ghost function EncodeItems(items: seq<Item>): seq<Byte>
    requires forall i :: 0 <= i < |items| ==> WellFormedItem(items[i])
  {
    if items == [] then [] else EncodeItem(items[0]) + EncodeItems(items[1..])
  }

  ghost function Flatten(parts: seq<seq<Byte>>): seq<Byte> {
    if parts == [] then [] else parts[0] + Flatten(parts[1..])
  }

  ghost function EncodeHeader(h: FrameHeader): seq<Byte>
    requires WellFormedHeader(h)
  {
    [0xff, h.marker] + UInt16BE(8 + 3 * |h.components|) + [h.precision]
    + UInt16BE(h.height) + UInt16BE(h.width) + [|h.components| as Byte] + Flatten(h.components)
  }

  // ----- the walk -----

  /** What the walk finds from `offset` on. */
  function WalkFrom(buffer: seq<Byte>, offset: nat): Found
    decreases |buffer| - offset
  {
    if offset + 9 >= |buffer| then Nothing
    else if buffer[offset] != 0xff then WalkFrom(buffer, offset + 1)
    else if IsStandalone(buffer[offset + 1]) then WalkFrom(buffer, offset + 2)
    else
      var length := ReadUInt16BE(buffer, offset + 2);
      if length < 2 || offset + 2 + length > |buffer| then Nothing
      else if IsFrameMarker(buffer[offset + 1]) then
        if length < 7 then Nothing
        else Just(Dimensions(ReadUInt16BE(buffer, offset + 7), ReadUInt16BE(buffer, offset + 5)))
      else WalkFrom(buffer, offset + 2 + length)
  }

  method ReadJpegDimensions(buffer: seq<Byte>) returns (r: Found)
    ensures r == WalkFrom(buffer, 2)
  {
    var offset: nat := 2;
    while offset + 9 < |buffer|
      invariant WalkFrom(buffer, offset) == WalkFrom(buffer, 2)
      decreases |buffer| - offset
    {
      if buffer[offset] != 0xff {
        offset := offset + 1;
        continue;
      }
      var marker := buffer[offset + 1];
      offset := offset + 2;
      if marker == 0xd8 || marker == 0xd9 {
        continue;
      }
      if marker == 0x01 || (marker >= 0xd0 && marker <= 0xd7) {
        continue;
      }
      if offset + 2 > |buffer| {
        return Nothing;
      }
      var length := ReadUInt16BE(buffer, offset);
      if length < 2 || offset + length > |buffer| {
        return Nothing;
      }
      if IsFrameMarker(marker) {
        if length < 7 {
          return Nothing;
        }
        return Just(Dimensions(ReadUInt16BE(buffer, offset + 5), ReadUInt16BE(buffer, offset + 3)));
      }
      offset := offset + length;
    }
    return Nothing;
  }

  // ----- what it promises -----

  /** A slice of the buffer holds `part` at `at`. */
  ghost predicate Holds(buffer: seq<Byte>, at: nat, part: seq<Byte>) {
    at + |part| <= |buffer| && buffer[at..at + |part|] == part
  }

  lemma HoldsParts(buffer: seq<Byte>, at: nat, a: seq<Byte>, b: seq<Byte>)
    requires Holds(buffer, at, a + b)
    ensures Holds(buffer, at, a) && Holds(buffer, at + |a|, b)
  {
    assert buffer[at..at + |a|] == (a + b)[..|a|] == a;
    assert buffer[at + |a|..at + |a| + |b|] == (a + b)[|a|..] == b;
  }

  lemma HoldsByte(buffer: seq<Byte>, at: nat, part: seq<Byte>, k: nat)
    requires Holds(buffer, at, part) && k < |part|
    ensures buffer[at + k] == part[k]
  {
  }

  lemma HoldsUInt16(buffer: seq<Byte>, at: nat, n: nat)
    requires n < 0x1_0000 && Holds(buffer, at, UInt16BE(n))
    ensures ReadUInt16BE(buffer, at) == n
  {
  }

  lemma FlattenLength(parts: seq<seq<Byte>>)
    requires forall i :: 0 <= i < |parts| ==> |parts[i]| == 3
    ensures |Flatten(parts)| == 3 * |parts|
  {
  }

  lemma HeaderLength(h: FrameHeader)
    requires WellFormedHeader(h)
    ensures |EncodeHeader(h)| == 10 + 3 * |h.components| <= 775
  {
    FlattenLength(h.components);
  }

  /** The walk steps over one well-formed item that is not a frame header. */
  lemma WalkItem(buffer: seq<Byte>, at: nat, item: Item)
    requires WellFormedItem(item) && Holds(buffer, at, EncodeItem(item))
    requires at + |EncodeItem(item)| + 9 < |buffer|
    ensures WalkFrom(buffer, at) == WalkFrom(buffer, at + |EncodeItem(item)|)
  {
    var code := EncodeItem(item);
    HoldsByte(buffer, at, code, 0);
    if !item.Data? {
      HoldsByte(buffer, at, code, 1);
    }
    if item.Segment? {
      var length := UInt16BE(|item.payload| + 2);
      assert code == [0xff, item.marker] + (length + item.payload);
      HoldsParts(buffer, at, [0xff, item.marker], length + item.payload);
      HoldsParts(buffer, at + 2, length, item.payload);
      HoldsUInt16(buffer, at + 2, |item.payload| + 2);
    }
  }

  lemma WalkHeader(buffer: seq<Byte>, at: nat, h: FrameHeader)
    requires WellFormedHeader(h) && Holds(buffer, at, EncodeHeader(h))
    ensures at + 9 < |buffer|
    ensures WalkFrom(buffer, at) == Just(Dimensions(h.width, h.height))
  {
    FlattenLength(h.components);
    var length := 8 + 3 * |h.components|;
    var tail := [|h.components| as Byte] + Flatten(h.components);
    var a, b, c, d := [0xff, h.marker], UInt16BE(length), [h.precision], UInt16BE(h.height);
    var e := UInt16BE(h.width);
    assert EncodeHeader(h) == a + (b + (c + (d + (e + tail))));
    HoldsParts(buffer, at, a, b + (c + (d + (e + tail))));
    HoldsParts(buffer, at + 2, b, c + (d + (e + tail)));
    HoldsParts(buffer, at + 4, c, d + (e + tail));
    HoldsParts(buffer, at + 5, d, e + tail);
    HoldsParts(buffer, at + 7, e, tail);
    HoldsByte(buffer, at, a, 0);
    HoldsByte(buffer, at, a, 1);
    HoldsUInt16(buffer, at + 2, length);
    HoldsUInt16(buffer, at + 5, h.height);
    HoldsUInt16(buffer, at + 7, h.width);
  }

  /** The walk steps over well-formed items as long as enough bytes follow. */
  lemma {:induction false} WalkItems(buffer: seq<Byte>, at: nat, items: seq<Item>)
    requires forall i :: 0 <= i < |items| ==> WellFormedItem(items[i])
    requires Holds(buffer, at, EncodeItems(items)) && at + |EncodeItems(items)| + 9 < |buffer|
    ensures WalkFrom(buffer, at) == WalkFrom(buffer, at + |EncodeItems(items)|)
    decreases |items|
  {
    hide WalkFrom;
    hide EncodeItem;
    if items != [] {
      var first, rest := EncodeItem(items[0]), EncodeItems(items[1..]);
      HoldsParts(buffer, at, first, rest);
      WalkItem(buffer, at, items[0]);
      WalkItems(buffer, at + |first|, items[1..]);
    }
  }

  /** A start marker, well-formed items and a frame header: the walk returns that header's dimensions. */
  lemma ReadsFrameHeader(items: seq<Item>, h: FrameHeader, rest: seq<Byte>)
    requires forall i :: 0 <= i < |items| ==> WellFormedItem(items[i])
    requires WellFormedHeader(h)
    ensures var buffer := [0xff, 0xd8] + EncodeItems(items) + EncodeHeader(h) + rest;
            IsJpeg(buffer) && WalkFrom(buffer, 2) == Just(Dimensions(h.width, h.height))
  {
    hide EncodeHeader, EncodeItems, WalkFrom, WellFormedItem, WellFormedHeader, IsJpeg, Holds;
    HeaderLength(h);
    var buffer, at := [0xff, 0xd8] + EncodeItems(items) + EncodeHeader(h) + rest, 2 + |EncodeItems(items)|;
    BufferParts([0xff, 0xd8], EncodeItems(items), EncodeHeader(h), rest);
    StartMarkerIff(buffer);
    WalkItems(buffer, 2, items);
    WalkHeader(buffer, at, h);
  }

  /** A file is taken for a JPEG file exactly when it starts with the SOI marker and has room for another. */
  lemma StartMarkerIff(buffer: seq<Byte>)
    ensures IsJpeg(buffer) <==> |buffer| >= 4 && Holds(buffer, 0, [0xff, 0xd8])
  {
    if |buffer| >= 4 && Holds(buffer, 0, [0xff, 0xd8]) {
      HoldsByte(buffer, 0, [0xff, 0xd8], 0);
      HoldsByte(buffer, 0, [0xff, 0xd8], 1);
    }
    if IsJpeg(buffer) {
      assert buffer[0..2] == [buffer[0], buffer[1]];
    }
  }

  lemma BufferParts(a: seq<Byte>, b: seq<Byte>, c: seq<Byte>, rest: seq<Byte>)
    ensures var buffer := a + b + c + rest;
            Holds(buffer, 0, a) && Holds(buffer, |a|, b) && Holds(buffer, |a| + |b|, c)
  {
    var buffer := a + b + c + rest;
    assert buffer[..|a|] == a && buffer[|a|..|a| + |b|] == b && buffer[|a| + |b|..|a| + |b| + |c|] == c;
  }

  /** The offset holds a frame header with room for its declared length and for both dimensions. */
  ghost predicate FrameHeaderAt(buffer: seq<Byte>, o: nat, d: Dimensions) {
    && o + 9 < |buffer| && buffer[o] == 0xff && StartsFrame(buffer[o + 1])
    && 7 <= ReadUInt16BE(buffer, o + 2) <= |buffer| - o - 2
    && d == Dimensions(ReadUInt16BE(buffer, o + 7), ReadUInt16BE(buffer, o + 5))
  }

  /** On any bytes, what the walk returns was read from a frame header at or after the start. */
  lemma {:induction false} FoundInFrameHeader(buffer: seq<Byte>, offset: nat)
    requires WalkFrom(buffer, offset).Just?
    ensures exists o: nat :: offset <= o && FrameHeaderAt(buffer, o, WalkFrom(buffer, offset).dims)
    decreases |buffer| - offset
  {
    if buffer[offset] != 0xff {
      FoundInFrameHeader(buffer, offset + 1);
    } else if IsStandalone(buffer[offset + 1]) {
      FoundInFrameHeader(buffer, offset + 2);
    } else if IsFrameMarker(buffer[offset + 1]) {
      assert FrameHeaderAt(buffer, offset, WalkFrom(buffer, offset).dims);
    } else {
      FoundInFrameHeader(buffer, offset + 2 + ReadUInt16BE(buffer, offset + 2));
    }
  }

  /** At a frame header the walk returns what it says. */
  lemma ReturnsFrameHeader(buffer: seq<Byte>, o: nat, d: Dimensions)
    requires FrameHeaderAt(buffer, o, d)
    ensures WalkFrom(buffer, o) == Just(d)
  {
  }

  function Fill(n: nat): (r: seq<Byte>)
    ensures |r| == n && forall i :: 0 <= i < n ==> r[i] == 0xff
  {
    seq(n, _ => 0xff)
  }

  /** Section B.1.1.2 allows fill bytes before a marker. The walk takes the first one for a segment's marker and the next
      two bytes for its length, at least 0xc000: it ends there or jumps on by that length, past the whole header unless very
      many fill bytes precede it. What it then returns was read from a frame header behind the jump. */
  lemma FillBytesHideHeader(items: seq<Item>, fills: nat, h: FrameHeader, rest: seq<Byte>)
    requires forall i :: 0 <= i < |items| ==> WellFormedItem(items[i])
    requires WellFormedHeader(h) && fills >= 1
    ensures var buffer, at := [0xff, 0xd8] + EncodeItems(items) + (Fill(fills) + EncodeHeader(h)) + rest, 2 + |EncodeItems(items)|;
            && at + 9 < |buffer|
            && var l := ReadUInt16BE(buffer, at + 2);
               && l >= 0xc000 && (fills < 0xbc00 ==> fills + |EncodeHeader(h)| < 2 + l)
               && WalkFrom(buffer, 2) == (if at + 2 + l > |buffer| then Nothing else WalkFrom(buffer, at + 2 + l))
               && (WalkFrom(buffer, 2).Just? ==>
                     exists o: nat :: at + 2 + l <= o && FrameHeaderAt(buffer, o, WalkFrom(buffer, 2).dims))
  {
    hide EncodeItems, WalkFrom, EncodeHeader, ReadUInt16BE, FrameHeaderAt, WellFormedItem, WellFormedHeader, Fill;
    HeaderLength(h);
    var tail := Fill(fills) + EncodeHeader(h);
    var buffer, at := [0xff, 0xd8] + EncodeItems(items) + tail + rest, 2 + |EncodeItems(items)|;
    BufferParts([0xff, 0xd8], EncodeItems(items), tail, rest);
    WalkItems(buffer, 2, items);
    FillTaken(buffer, at, fills, h);
    if WalkFrom(buffer, 2).Just? {
      FoundInFrameHeader(buffer, at + 2 + ReadUInt16BE(buffer, at + 2));
    }
  }

  lemma FillTaken(buffer: seq<Byte>, at: nat, fills: nat, h: FrameHeader)
    requires WellFormedHeader(h) && fills >= 1 && Holds(buffer, at, Fill(fills) + EncodeHeader(h))
    ensures at + 9 < |buffer|
    ensures var l := ReadUInt16BE(buffer, at + 2);
            l >= 0xc000 && WalkFrom(buffer, at) == if at + 2 + l > |buffer| then Nothing else WalkFrom(buffer, at + 2 + l)
  {
    HeaderLength(h);
    var tail := Fill(fills) + EncodeHeader(h);
    forall k | 0 <= k < 3 ensures buffer[at + k] == tail[k] { HoldsByte(buffer, at, tail, k); }
    assert EncodeHeader(h)[0] == 0xff && EncodeHeader(h)[1] == h.marker >= 0xc0;
    assert tail[2] == if fills > 2 then 0xff else EncodeHeader(h)[2 - fills];
    assert buffer[at] == 0xff && buffer[at + 1] == 0xff && buffer[at + 2] >= 0xc0;
  }
}
