/** The packed 54-byte Microsoft BMP header `BMPHeader`
    (crypto/src/image_processor.h): BITMAPFILEHEADER followed by
    BITMAPINFOHEADER, sixteen little-endian fields with no gaps.

    `parseBMPHeader` and `writeBMPHeader` copy the header with `memcpy`; on the
    little-endian hosts the program targets that is the little-endian reading
    and writing modelled here. */
module BmpHeader {
  import opened Prelude

  type U16 = x: int | 0 <= x < 0x1_0000
  type U32 = x: int | 0 <= x < 0x1_0000_0000
  type I32 = x: int | -0x8000_0000 <= x < 0x8000_0000

  /** `sizeof(BMPHeader)`. */
  const HeaderSize: nat := 54

  /** "BM" read as a little-endian 16-bit value. */
  const BmSignature: U16 := 0x4D42

  datatype Header = Header(
    signature: U16,
    fileSize: U32,
    reserved1: U16,
    reserved2: U16,
    dataOffset: U32,
    headerSize: U32,
    width: I32,
    height: I32,
    planes: U16,
    bitsPerPixel: U16,
    compression: U32,
    imageSize: U32,
    xResolution: I32,
    yResolution: I32,
    colorsUsed: U32,
    importantColors: U32)

  function ReadU16(b: Bytes, at: nat): U16
    requires at + 2 <= |b|
  {
    b[at] as int + 0x100 * b[at + 1] as int
  }

  function ReadU32(b: Bytes, at: nat): U32
    requires at + 4 <= |b|
  {
    ReadU16(b, at) + 0x1_0000 * ReadU16(b, at + 2)
  }

  /** Two's complement reading of four bytes. */
  function ReadI32(b: Bytes, at: nat): I32
    requires at + 4 <= |b|
  {
    var u := ReadU32(b, at);
    if u < 0x8000_0000 then u else u - 0x1_0000_0000
  }

  function EncodeU16(x: U16): (r: Bytes)
    ensures |r| == 2
  {
    [x % 0x100, x / 0x100]
  }

  function EncodeU32(x: U32): (r: Bytes)
    ensures |r| == 4
  {
    EncodeU16(x % 0x1_0000) + EncodeU16(x / 0x1_0000)
  }

  function EncodeI32(x: I32): (r: Bytes)
    ensures |r| == 4
  {
    EncodeU32(if x < 0 then x + 0x1_0000_0000 else x)
  }

  lemma ReadU16Local(b: Bytes, at: nat)
    requires at + 2 <= |b|
    ensures ReadU16(b, at) == ReadU16(b[at..at + 2], 0)
  {
  }

  lemma ReadU32Local(b: Bytes, at: nat)
    requires at + 4 <= |b|
    ensures ReadU32(b, at) == ReadU32(b[at..at + 4], 0)
  {
  }

  lemma U16RoundTrip(x: U16)
    ensures ReadU16(EncodeU16(x), 0) == x
  {
  }

  lemma U16BytesRoundTrip(b: Bytes, at: nat)
    requires at + 2 <= |b|
    ensures EncodeU16(ReadU16(b, at)) == b[at..at + 2]
  {
    var v := ReadU16(b, at);
    assert v % 0x100 == b[at];
    assert v / 0x100 == b[at + 1];
  }

  lemma U32RoundTrip(x: U32)
    ensures ReadU32(EncodeU32(x), 0) == x
  {
    var e := EncodeU32(x);
    assert e[..2] == EncodeU16(x % 0x1_0000);
    assert e[2..4] == EncodeU16(x / 0x1_0000);
    ReadU16Local(e, 2);
    U16RoundTrip(x % 0x1_0000);
    U16RoundTrip(x / 0x1_0000);
  }

  lemma U32BytesRoundTrip(b: Bytes, at: nat)
    requires at + 4 <= |b|
    ensures EncodeU32(ReadU32(b, at)) == b[at..at + 4]
  {
    var lo := ReadU16(b, at);
    var hi := ReadU16(b, at + 2);
    var v := ReadU32(b, at);
    assert v % 0x1_0000 == lo;
    assert v / 0x1_0000 == hi;
    U16BytesRoundTrip(b, at);
    U16BytesRoundTrip(b, at + 2);
    assert b[at..at + 4] == b[at..at + 2] + b[at + 2..at + 4];
  }

  lemma I32RoundTrip(x: I32)
    ensures ReadI32(EncodeI32(x), 0) == x
  {
    U32RoundTrip(if x < 0 then x + 0x1_0000_0000 else x);
  }

  lemma I32BytesRoundTrip(b: Bytes, at: nat)
    requires at + 4 <= |b|
    ensures EncodeI32(ReadI32(b, at)) == b[at..at + 4]
  {
    U32BytesRoundTrip(b, at);
  }

  /** `parseBMPHeader`: the header occupying the first 54 bytes. Field offsets
      follow from the packed layout: 0, 2, 6, 8, 10, 14, 18, 22, 26, 28, 30,
      34, 38, 42, 46, 50. */
  function Parse(data: Bytes): (h: Header)
    requires |data| >= HeaderSize
    ensures h.signature == data[0] as int + 0x100 * data[1] as int
    ensures h.fileSize ==
      data[2] as int + 0x100 * data[3] as int + 0x1_0000 * data[4] as int + 0x100_0000 * data[5] as int
    ensures h.dataOffset ==
      data[10] as int + 0x100 * data[11] as int + 0x1_0000 * data[12] as int + 0x100_0000 * data[13] as int
    ensures h.bitsPerPixel == data[28] as int + 0x100 * data[29] as int
  {
    Header(
      ReadU16(data, 0), ReadU32(data, 2), ReadU16(data, 6), ReadU16(data, 8),
      ReadU32(data, 10), ReadU32(data, 14), ReadI32(data, 18), ReadI32(data, 22),
      ReadU16(data, 26), ReadU16(data, 28), ReadU32(data, 30), ReadU32(data, 34),
      ReadI32(data, 38), ReadI32(data, 42), ReadU32(data, 46), ReadU32(data, 50))
  }

  /** The header's bytes, field after field in declaration order. */
  function Encode(h: Header): (r: Bytes)
    ensures |r| == HeaderSize
  {
    EncodeU16(h.signature) + EncodeU32(h.fileSize) + EncodeU16(h.reserved1) + EncodeU16(h.reserved2)
    + EncodeU32(h.dataOffset) + EncodeU32(h.headerSize) + EncodeI32(h.width) + EncodeI32(h.height)
    + EncodeU16(h.planes) + EncodeU16(h.bitsPerPixel) + EncodeU32(h.compression) + EncodeU32(h.imageSize)
    + EncodeI32(h.xResolution) + EncodeI32(h.yResolution) + EncodeU32(h.colorsUsed) + EncodeU32(h.importantColors)
  }

  /** `writeBMPHeader`: overwrites the first 54 bytes of a buffer with the
      header and leaves the rest alone. */
  function WriteHeader(data: Bytes, h: Header): (r: Bytes)
    requires |data| >= HeaderSize
    ensures |r| == |data|
    ensures r[HeaderSize..] == data[HeaderSize..]
  {
    Encode(h) + data[HeaderSize..]
  }

  /** Reading back what was written gives the same header, so the sixteen
      fields sit at the offsets `Parse` reads them from. */
  lemma ParseEncode(h: Header)
    ensures Parse(Encode(h)) == h
  {
    var e := Encode(h);
    assert e[0..2] == EncodeU16(h.signature);
    assert e[2..6] == EncodeU32(h.fileSize);
    assert e[6..8] == EncodeU16(h.reserved1);
    assert e[8..10] == EncodeU16(h.reserved2);
    assert e[10..14] == EncodeU32(h.dataOffset);
    assert e[14..18] == EncodeU32(h.headerSize);
    assert e[18..22] == EncodeI32(h.width);
    assert e[22..26] == EncodeI32(h.height);
    assert e[26..28] == EncodeU16(h.planes);
    assert e[28..30] == EncodeU16(h.bitsPerPixel);
    assert e[30..34] == EncodeU32(h.compression);
    assert e[34..38] == EncodeU32(h.imageSize);
    assert e[38..42] == EncodeI32(h.xResolution);
    assert e[42..46] == EncodeI32(h.yResolution);
    assert e[46..50] == EncodeU32(h.colorsUsed);
    assert e[50..54] == EncodeU32(h.importantColors);
    U16Field(e, 0, h.signature);
    U32Field(e, 2, h.fileSize);
    U16Field(e, 6, h.reserved1);
    U16Field(e, 8, h.reserved2);
    U32Field(e, 10, h.dataOffset);
    U32Field(e, 14, h.headerSize);
    I32Field(e, 18, h.width);
    I32Field(e, 22, h.height);
    U16Field(e, 26, h.planes);
    U16Field(e, 28, h.bitsPerPixel);
    U32Field(e, 30, h.compression);
    U32Field(e, 34, h.imageSize);
    I32Field(e, 38, h.xResolution);
    I32Field(e, 42, h.yResolution);
    U32Field(e, 46, h.colorsUsed);
    U32Field(e, 50, h.importantColors);
  }

  lemma U16Field(b: Bytes, at: nat, x: U16)
    requires at + 2 <= |b| && b[at..at + 2] == EncodeU16(x)
    ensures ReadU16(b, at) == x
  {
    ReadU16Local(b, at);
    U16RoundTrip(x);
  }

  lemma U32Field(b: Bytes, at: nat, x: U32)
    requires at + 4 <= |b| && b[at..at + 4] == EncodeU32(x)
    ensures ReadU32(b, at) == x
  {
    ReadU32Local(b, at);
    U32RoundTrip(x);
  }

  lemma I32Field(b: Bytes, at: nat, x: I32)
    requires at + 4 <= |b| && b[at..at + 4] == EncodeI32(x)
    ensures ReadI32(b, at) == x
  {
    ReadU32Local(b, at);
    I32RoundTrip(x);
    assert ReadI32(b[at..at + 4], 0) == x;
  }

  /** Encoding a parsed header reproduces the 54 bytes it was parsed from. */
  lemma EncodeParse(data: Bytes)
    requires |data| >= HeaderSize
    ensures Encode(Parse(data)) == data[..HeaderSize]
  {
    var h := Parse(data);
    U16BytesRoundTrip(data, 0);
    var acc := EncodeU16(h.signature);
    assert acc == data[..2];
    U32BytesRoundTrip(data, 2);
    acc := acc + EncodeU32(h.fileSize);
    assert data[..6] == data[..2] + data[2..6];
    assert acc == data[..6];
    U16BytesRoundTrip(data, 6);
    acc := acc + EncodeU16(h.reserved1);
    assert data[..8] == data[..6] + data[6..8];
    assert acc == data[..8];
    U16BytesRoundTrip(data, 8);
    acc := acc + EncodeU16(h.reserved2);
    assert data[..10] == data[..8] + data[8..10];
    assert acc == data[..10];
    U32BytesRoundTrip(data, 10);
    acc := acc + EncodeU32(h.dataOffset);
    assert data[..14] == data[..10] + data[10..14];
    assert acc == data[..14];
    U32BytesRoundTrip(data, 14);
    acc := acc + EncodeU32(h.headerSize);
    assert data[..18] == data[..14] + data[14..18];
    assert acc == data[..18];
    I32BytesRoundTrip(data, 18);
    acc := acc + EncodeI32(h.width);
    assert data[..22] == data[..18] + data[18..22];
    assert acc == data[..22];
    I32BytesRoundTrip(data, 22);
    acc := acc + EncodeI32(h.height);
    assert data[..26] == data[..22] + data[22..26];
    assert acc == data[..26];
    U16BytesRoundTrip(data, 26);
    acc := acc + EncodeU16(h.planes);
    assert data[..28] == data[..26] + data[26..28];
    assert acc == data[..28];
    U16BytesRoundTrip(data, 28);
    acc := acc + EncodeU16(h.bitsPerPixel);
    assert data[..30] == data[..28] + data[28..30];
    assert acc == data[..30];
    U32BytesRoundTrip(data, 30);
    acc := acc + EncodeU32(h.compression);
    assert data[..34] == data[..30] + data[30..34];
    assert acc == data[..34];
    U32BytesRoundTrip(data, 34);
    acc := acc + EncodeU32(h.imageSize);
    assert data[..38] == data[..34] + data[34..38];
    assert acc == data[..38];
    I32BytesRoundTrip(data, 38);
    acc := acc + EncodeI32(h.xResolution);
    assert data[..42] == data[..38] + data[38..42];
    assert acc == data[..42];
    I32BytesRoundTrip(data, 42);
    acc := acc + EncodeI32(h.yResolution);
    assert data[..46] == data[..42] + data[42..46];
    assert acc == data[..46];
    U32BytesRoundTrip(data, 46);
    acc := acc + EncodeU32(h.colorsUsed);
    assert data[..50] == data[..46] + data[46..50];
    assert acc == data[..50];
    U32BytesRoundTrip(data, 50);
    acc := acc + EncodeU32(h.importantColors);
    assert data[..54] == data[..50] + data[50..54];
    assert acc == data[..54];
    assert acc == Encode(h);
  }

  /** Parsing a buffer's header and writing it back leaves the buffer
      unchanged. */
  lemma WriteParsedHeader(data: Bytes)
    requires |data| >= HeaderSize
    ensures WriteHeader(data, Parse(data)) == data
  {
    EncodeParse(data);
    assert data == data[..HeaderSize] + data[HeaderSize..];
  }

  /** The signature check passes exactly when the file starts with 'B', 'M'. */
  lemma SignatureIsBM(data: Bytes)
    requires |data| >= HeaderSize
    ensures Parse(data).signature == BmSignature <==> data[0] == 0x42 && data[1] == 0x4D
  {
  }

  /** `signature` and `dataOffset` are read from bytes 0-1 and 10-13 alone, so
      two buffers that agree on their first 14 bytes agree on both fields. */
  lemma SignatureAndOffsetFromPrefix(a: Bytes, b: Bytes)
    requires |a| >= HeaderSize && |b| >= HeaderSize
    requires a[..14] == b[..14]
    ensures Parse(a).signature == Parse(b).signature
    ensures Parse(a).dataOffset == Parse(b).dataOffset
  {
    assert a[0] == a[..14][0] && a[1] == a[..14][1];
    assert a[10] == a[..14][10] && a[11] == a[..14][11];
    assert a[12] == a[..14][12] && a[13] == a[..14][13];
  }
}
