/** The packed on-disk layout of the three Windows Bitmap structures the encoder
    writes: BITMAPFILEHEADER (14 bytes), BITMAPINFOHEADER (40 bytes) and the
    RGBQUAD palette entry (4 bytes). The C++ source gets this layout from
    `#pragma pack(1)` structs copied with memcpy on a little-endian host; here
    each field is serialised explicitly, little-endian, at its packed offset. */
module BmpLayout {
  import opened LittleEndian

  const FILE_HEADER_SIZE: nat := 14
  const INFO_HEADER_SIZE: nat := 40
  const RGBQUAD_SIZE: nat := 4

  datatype FileHeader = FileHeader(
    signature: UInt16,
    fileSize: UInt32,
    reserved1: UInt16,
    reserved2: UInt16,
    offsetData: UInt32)

  datatype InfoHeader = InfoHeader(
    size: UInt32,
    width: Int32,
    height: Int32,
    planes: UInt16,
    bitCount: UInt16,
    compression: UInt32,
    imageSize: UInt32,
    xPixelsPerMeter: Int32,
    yPixelsPerMeter: Int32,
    colorsUsed: UInt32,
    colorsImportant: UInt32)

  datatype RgbQuad = RgbQuad(blue: Byte, green: Byte, red: Byte, reserved: Byte)

  /** The state of each struct right after `memset(&s, 0, sizeof(s))`. */
  function ZeroFileHeader(): FileHeader
  {
    FileHeader(0, 0, 0, 0, 0)
  }

  function ZeroInfoHeader(): InfoHeader
  {
    InfoHeader(0, 0, 0, 0, 0, 0, 0, 0, 0, 0, 0)
  }

  function SerializeFileHeader(h: FileHeader): (r: seq<Byte>)
    ensures |r| == FILE_HEADER_SIZE
  {
    EncodeU16(h.signature) + EncodeU32(h.fileSize) + EncodeU16(h.reserved1)
      + EncodeU16(h.reserved2) + EncodeU32(h.offsetData)
  }

  function ParseFileHeader(s: seq<Byte>): FileHeader
    requires |s| == FILE_HEADER_SIZE
  {
    FileHeader(DecodeU16(s[0..2]), DecodeU32(s[2..6]), DecodeU16(s[6..8]),
               DecodeU16(s[8..10]), DecodeU32(s[10..14]))
  }

  function SerializeInfoHeader(h: InfoHeader): (r: seq<Byte>)
    ensures |r| == INFO_HEADER_SIZE
  {
    EncodeU32(h.size) + EncodeI32(h.width) + EncodeI32(h.height)
      + EncodeU16(h.planes) + EncodeU16(h.bitCount) + EncodeU32(h.compression)
      + EncodeU32(h.imageSize) + EncodeI32(h.xPixelsPerMeter) + EncodeI32(h.yPixelsPerMeter)
      + EncodeU32(h.colorsUsed) + EncodeU32(h.colorsImportant)
  }

  function ParseInfoHeader(s: seq<Byte>): InfoHeader
    requires |s| == INFO_HEADER_SIZE
  {
    InfoHeader(DecodeU32(s[0..4]), DecodeI32(s[4..8]), DecodeI32(s[8..12]),
               DecodeU16(s[12..14]), DecodeU16(s[14..16]), DecodeU32(s[16..20]),
               DecodeU32(s[20..24]), DecodeI32(s[24..28]), DecodeI32(s[28..32]),
               DecodeU32(s[32..36]), DecodeU32(s[36..40]))
  }

  /** RGBQUAD's packed member order is blue, green, red, reserved. */
  function SerializeQuad(q: RgbQuad): (r: seq<Byte>)
    ensures |r| == RGBQUAD_SIZE
  {
    [q.blue, q.green, q.red, q.reserved]
  }

  function ParseQuad(s: seq<Byte>): RgbQuad
    requires |s| == RGBQUAD_SIZE
  {
    RgbQuad(s[0], s[1], s[2], s[3])
  }

  /** The bytes of an array of packed RGBQUADs: the entries back to back, in index order. */
  function SerializePalette(p: seq<RgbQuad>): (r: seq<Byte>)
    ensures |r| == RGBQUAD_SIZE * |p|
  {
    if p == [] then [] else SerializeQuad(p[0]) + SerializePalette(p[1..])
  }

  lemma FileHeaderRoundTrip(h: FileHeader)
    ensures ParseFileHeader(SerializeFileHeader(h)) == h
  {
    var s := SerializeFileHeader(h);
    assert s[0..2] == EncodeU16(h.signature);
    assert s[2..6] == EncodeU32(h.fileSize);
    assert s[6..8] == EncodeU16(h.reserved1);
    assert s[8..10] == EncodeU16(h.reserved2);
    assert s[10..14] == EncodeU32(h.offsetData);
    DecodeEncodeU16(h.signature);
    DecodeEncodeU32(h.fileSize);
    DecodeEncodeU16(h.reserved1);
    DecodeEncodeU16(h.reserved2);
    DecodeEncodeU32(h.offsetData);
  }

  lemma FileHeaderBytesRoundTrip(s: seq<Byte>)
    requires |s| == FILE_HEADER_SIZE
    ensures SerializeFileHeader(ParseFileHeader(s)) == s
  {
    EncodeDecodeU16(s[0..2]);
    EncodeDecodeU32(s[2..6]);
    EncodeDecodeU16(s[6..8]);
    EncodeDecodeU16(s[8..10]);
    EncodeDecodeU32(s[10..14]);
    assert s == s[0..2] + s[2..6] + s[6..8] + s[8..10] + s[10..14];
  }

  lemma InfoHeaderRoundTrip(h: InfoHeader)
    ensures ParseInfoHeader(SerializeInfoHeader(h)) == h
  {
    var s := SerializeInfoHeader(h);
    assert s[0..4] == EncodeU32(h.size);
    assert s[4..8] == EncodeI32(h.width);
    assert s[8..12] == EncodeI32(h.height);
    assert s[12..14] == EncodeU16(h.planes);
    assert s[14..16] == EncodeU16(h.bitCount);
    assert s[16..20] == EncodeU32(h.compression);
    assert s[20..24] == EncodeU32(h.imageSize);
    assert s[24..28] == EncodeI32(h.xPixelsPerMeter);
    assert s[28..32] == EncodeI32(h.yPixelsPerMeter);
    assert s[32..36] == EncodeU32(h.colorsUsed);
    assert s[36..40] == EncodeU32(h.colorsImportant);
    DecodeEncodeU32(h.size);
    DecodeEncodeI32(h.width);
    DecodeEncodeI32(h.height);
    DecodeEncodeU16(h.planes);
    DecodeEncodeU16(h.bitCount);
    DecodeEncodeU32(h.compression);
    DecodeEncodeU32(h.imageSize);
    DecodeEncodeI32(h.xPixelsPerMeter);
    DecodeEncodeI32(h.yPixelsPerMeter);
    DecodeEncodeU32(h.colorsUsed);
    DecodeEncodeU32(h.colorsImportant);
  }

  lemma InfoHeaderBytesRoundTrip(s: seq<Byte>)
    requires |s| == INFO_HEADER_SIZE
    ensures SerializeInfoHeader(ParseInfoHeader(s)) == s
  {
    EncodeDecodeU32(s[0..4]);
    EncodeDecodeI32(s[4..8]);
    EncodeDecodeI32(s[8..12]);
    EncodeDecodeU16(s[12..14]);
    EncodeDecodeU16(s[14..16]);
    EncodeDecodeU32(s[16..20]);
    EncodeDecodeU32(s[20..24]);
    EncodeDecodeI32(s[24..28]);
    EncodeDecodeI32(s[28..32]);
    EncodeDecodeU32(s[32..36]);
    EncodeDecodeU32(s[36..40]);
    assert s == s[0..4] + s[4..8] + s[8..12] + s[12..14] + s[14..16] + s[16..20]
              + s[20..24] + s[24..28] + s[28..32] + s[32..36] + s[36..40];
  }

  /** memset to 0 clears every byte of the packed file header. */
  lemma ZeroFileHeaderBytes()
    ensures SerializeFileHeader(ZeroFileHeader()) == seq(FILE_HEADER_SIZE, _ => 0)
  {
  }

  /** memset to 0 clears every byte of the packed info header. */
  lemma ZeroInfoHeaderBytes()
    ensures SerializeInfoHeader(ZeroInfoHeader()) == seq(INFO_HEADER_SIZE, _ => 0)
  {
  }

  lemma QuadRoundTrip(q: RgbQuad)
    ensures ParseQuad(SerializeQuad(q)) == q
  {
  }

  /** Entry i of a palette occupies bytes 4i .. 4i+3 of its serialisation. */
  lemma {:induction false} PaletteEntryBytes(p: seq<RgbQuad>, i: nat)
    requires i < |p|
    ensures RGBQUAD_SIZE * i + RGBQUAD_SIZE <= |SerializePalette(p)|
    ensures SerializePalette(p)[RGBQUAD_SIZE * i .. RGBQUAD_SIZE * i + RGBQUAD_SIZE] == SerializeQuad(p[i])
  {
    var r := SerializePalette(p);
    if i == 0 {
      assert r == SerializeQuad(p[0]) + SerializePalette(p[1..]);
    } else {
      PaletteEntryBytes(p[1..], i - 1);
      var rest := SerializePalette(p[1..]);
      assert r == SerializeQuad(p[0]) + rest;
      assert r[4 * i .. 4 * i + 4] == rest[4 * (i - 1) .. 4 * (i - 1) + 4];
    }
  }
}
