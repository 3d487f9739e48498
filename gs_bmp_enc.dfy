/** The grayscale BMP writer: a synthetic 8-bit raster generator and an encoder
    that wraps a raster in a BITMAPFILEHEADER, a BITMAPINFOHEADER and a 256-entry
    grayscale palette. Each operation is a method that builds its result the way
    the C++ does (loops over a buffer, field-by-field header assignment, memcpy
    of each section), proved equal to a specification function; the lemmas below
    state what that function places at each byte offset. */
module GrayscaleBmp {
  import opened LittleEndian
  import opened BmpLayout

  const NUMBER_OF_COLORS: nat := 256
  const COLOR_PALETTE_SIZE: nat := NUMBER_OF_COLORS * RGBQUAD_SIZE
  /** Offset of the pixel data from the start of the file: 14 + 40 + 1024. */
  const HEADER_OFFSET: nat := FILE_HEADER_SIZE + INFO_HEADER_SIZE + COLOR_PALETTE_SIZE
  /** "BM" read as a little-endian uint16_t. */
  const BM_SIGNATURE: UInt16 := 0x4D42

  // ---------------------------------------------------------------------------
  // Pixel source
  // ---------------------------------------------------------------------------

  /** One row of the gradient: column w holds w mod 256. */
  function GradientRow(width: nat): seq<Byte>
  {
    seq(width, w requires 0 <= w < width => w % 0x100)
  }

  /** The expected raster: `height` copies of the gradient row, top row first. */
  function GradientRaster(width: nat, height: nat): seq<Byte>
  {
    if height == 0 then [] else GradientRaster(width, height - 1) + GradientRow(width)
  }

  /** Linear index of row h, column w in a row-major raster. */
  function RowMajor(width: nat, h: nat, w: nat): nat
  {
    h * width + w
  }

  lemma RowInBounds(width: nat, height: nat, h: nat)
    requires h < height
    ensures RowMajor(width, h + 1, 0) <= width * height
  {
    assert (h + 1) * width <= height * width;
  }

  lemma {:induction false} GradientRasterLength(width: nat, height: nat)
    ensures |GradientRaster(width, height)| == width * height
  {
    if height > 0 {
      GradientRasterLength(width, height - 1);
      assert width * (height - 1) + width == width * height;
    }
  }

  /** Every pixel of the expected raster holds its column index modulo 256. */
  lemma {:induction false} GradientRasterPixel(width: nat, height: nat, h: nat, w: nat)
    requires h < height && w < width
    ensures RowMajor(width, h, w) < |GradientRaster(width, height)|
    ensures GradientRaster(width, height)[RowMajor(width, h, w)] == w % 0x100
  {
    GradientRasterLength(width, height - 1);
    var above := GradientRaster(width, height - 1);
    if h == height - 1 {
      assert RowMajor(width, h, w) == |above| + w;
    } else {
      GradientRasterPixel(width, height - 1, h, w);
    }
  }

  /** The pixel property for every row and column at once. */
  lemma GradientRasterPixels(width: nat, height: nat)
    ensures forall h: nat, w: nat :: h < height && w < width ==>
              RowMajor(width, h, w) < |GradientRaster(width, height)|
              && GradientRaster(width, height)[RowMajor(width, h, w)] == w % 0x100
  {
    forall h: nat, w: nat | h < height && w < width
      ensures RowMajor(width, h, w) < |GradientRaster(width, height)|
              && GradientRaster(width, height)[RowMajor(width, h, w)] == w % 0x100
    {
      GradientRasterPixel(width, height, h, w);
    }
  }

  /** All rows of the gradient are equal, so reading the raster bottom-up (the
      BMP convention for a positive height) gives the same picture as top-down. */
  lemma GradientRasterRowSymmetric(width: nat, height: nat, h: nat, w: nat)
    requires h < height && w < width
    ensures RowMajor(width, h, w) < |GradientRaster(width, height)|
    ensures RowMajor(width, height - 1 - h, w) < |GradientRaster(width, height)|
    ensures GradientRaster(width, height)[RowMajor(width, h, w)]
            == GradientRaster(width, height)[RowMajor(width, height - 1 - h, w)]
  {
    GradientRasterPixel(width, height, h, w);
    GradientRasterPixel(width, height, height - 1 - h, w);
  }

  /** Models generate_grayscale_image. The C++ `int` product width * height is
      required not to overflow; negative dimensions are excluded. */
  method GenerateGrayscaleImage(width: Int32, height: Int32) returns (image: seq<Byte>)
    requires 0 <= width && 0 <= height && width * height <= INT32_MAX
    ensures |image| == width * height
    ensures forall h: nat, w: nat :: h < height && w < width ==>
              RowMajor(width, h, w) < |image| && image[RowMajor(width, h, w)] == w % 0x100
    ensures width == 0 || height == 0 ==> image == []
    ensures image == GradientRaster(width, height)
  {
    var size: nat := width * height;
    var buffer := new Byte[size](_ => 0);
    ghost var rowStart: nat := 0;
    for h := 0 to height
      invariant rowStart == RowMajor(width, h, 0) && rowStart <= size
      invariant buffer[..rowStart] == GradientRaster(width, h)
    {
      RowInBounds(width, height, h);
      assert RowMajor(width, h + 1, 0) == rowStart + width;
      FillRow(buffer, width, h);
      rowStart := rowStart + width;
    }
    GradientRasterLength(width, height);
    assert buffer[..] == buffer[..rowStart];
    image := buffer[..];
    GradientRasterPixels(width, height);
  }

  /** The inner loop of generate_grayscale_image: row h gets the gradient row. */
  method FillRow(buffer: array<Byte>, width: nat, h: nat)
    requires RowMajor(width, h + 1, 0) <= buffer.Length
    modifies buffer
    ensures buffer[..RowMajor(width, h + 1, 0)] == old(buffer[..RowMajor(width, h, 0)]) + GradientRow(width)
    ensures buffer[RowMajor(width, h + 1, 0)..] == old(buffer[RowMajor(width, h + 1, 0)..])
  {
    ghost var rowStart := RowMajor(width, h, 0);
    assert RowMajor(width, h + 1, 0) == rowStart + width;
    for w := 0 to width
      invariant buffer[..rowStart + w] == old(buffer[..rowStart]) + GradientRow(width)[..w]
      invariant buffer[rowStart + width..] == old(buffer[rowStart + width..])
    {
      buffer[h * width + w] := w % 0x100;
      assert buffer[..rowStart + w + 1] == buffer[..rowStart + w] + [w % 0x100];
      assert GradientRow(width)[..w + 1] == GradientRow(width)[..w] + [w % 0x100];
    }
    assert GradientRow(width)[..width] == GradientRow(width);
  }

  // ---------------------------------------------------------------------------
  // Container encoder
  // ---------------------------------------------------------------------------

  /** What encode_grayscale_bmp needs of its arguments so that none of its C++
      `int` computations overflows: TOTAL_FILE_SIZE and image_width * image_height
      are `int`s. The pixel count need not match width * height. */
  predicate EncodableInput(image: seq<Byte>, width: Int32, height: Int32)
  {
    0 <= width && 0 <= height && width * height <= INT32_MAX
    && HEADER_OFFSET + |image| <= INT32_MAX
  }

  /** Palette entry i is the gray (i, i, i). */
  function GrayscalePalette(): seq<RgbQuad>
  {
    seq(NUMBER_OF_COLORS, i requires 0 <= i < NUMBER_OF_COLORS => RgbQuad(i, i, i, 0))
  }

  function ExpectedFileHeader(pixelCount: nat): FileHeader
    requires HEADER_OFFSET + pixelCount <= INT32_MAX
  {
    FileHeader(BM_SIGNATURE, HEADER_OFFSET + pixelCount, 0, 0, HEADER_OFFSET)
  }

  function ExpectedInfoHeader(width: Int32, height: Int32): InfoHeader
    requires 0 <= width && 0 <= height && width * height <= INT32_MAX
  {
    InfoHeader(INFO_HEADER_SIZE, width, height, 1, 8, 0, width * height, 0, 0, NUMBER_OF_COLORS, 0)
  }

  /** The encoded file: file header, info header, palette and pixels, back to back. */
  function GrayscaleBmpFile(image: seq<Byte>, width: Int32, height: Int32): (bmp: seq<Byte>)
    requires EncodableInput(image, width, height)
    ensures |bmp| == HEADER_OFFSET + |image|
  {
    SerializeFileHeader(ExpectedFileHeader(|image|))
      + SerializeInfoHeader(ExpectedInfoHeader(width, height))
      + SerializePalette(GrayscalePalette())
      + image
  }

  /** Models one memcpy(dst + offset, src, |src|). */
  method CopyBytes(dst: array<Byte>, offset: nat, src: seq<Byte>)
    requires offset + |src| <= dst.Length
    modifies dst
    ensures dst[..] == old(dst[..offset]) + src + old(dst[offset + |src|..])
  {
    for k := 0 to |src|
      invariant forall j :: 0 <= j < dst.Length ==>
                  dst[j] == if offset <= j < offset + k then src[j - offset] else old(dst[j])
    {
      dst[offset + k] := src[k];
    }
    assert dst[..] == old(dst[..offset]) + src + old(dst[offset + |src|..]);
  }

  /** Models encode_grayscale_bmp: zero-filled header structs whose fields are
      assigned one by one, a palette filled in a loop, and a zero-initialised
      buffer into which the four sections are copied at their offsets. */
  method EncodeGrayscaleBmp(image: seq<Byte>, width: Int32, height: Int32) returns (bmp: seq<Byte>)
    requires EncodableInput(image, width, height)
    ensures bmp == GrayscaleBmpFile(image, width, height)
  {
    var totalFileSize := HEADER_OFFSET + |image|;
    var imageSize: nat := width * height;

    var fileHeader := ZeroFileHeader().(
      signature := BM_SIGNATURE,
      fileSize := totalFileSize,
      offsetData := HEADER_OFFSET);

    var infoHeader := ZeroInfoHeader().(
      size := INFO_HEADER_SIZE,
      width := width,
      height := height,
      planes := 1,
      bitCount := 8,
      compression := 0,
      imageSize := imageSize,
      xPixelsPerMeter := 0,
      yPixelsPerMeter := 0,
      colorsUsed := NUMBER_OF_COLORS,
      colorsImportant := 0);

    var colorPalette := FillGrayscalePalette();
    var fileHeaderBytes := SerializeFileHeader(fileHeader);
    var infoHeaderBytes := SerializeInfoHeader(infoHeader);
    var paletteBytes := SerializePalette(colorPalette);
    bmp := AssembleSections(fileHeaderBytes, infoHeaderBytes, paletteBytes, image);
    assert fileHeader == ExpectedFileHeader(|image|);
    assert infoHeader == ExpectedInfoHeader(width, height);
  }

  /** Models the palette loop of encode_grayscale_bmp: entry i gets red, green
      and blue i and reserved 0. */
  method FillGrayscalePalette() returns (palette: seq<RgbQuad>)
    ensures |palette| == NUMBER_OF_COLORS
    ensures forall i :: 0 <= i < |palette| ==> palette[i] == RgbQuad(i, i, i, 0)
    ensures palette == GrayscalePalette()
  {
    var colorPalette := new RgbQuad[NUMBER_OF_COLORS];
    for i := 0 to NUMBER_OF_COLORS
      invariant forall j :: 0 <= j < i ==> colorPalette[j] == RgbQuad(j, j, j, 0)
    {
      colorPalette[i] := colorPalette[i].(red := i);
      colorPalette[i] := colorPalette[i].(green := i);
      colorPalette[i] := colorPalette[i].(blue := i);
      colorPalette[i] := colorPalette[i].(reserved := 0);
    }
    palette := colorPalette[..];
  }

  /** Models the buffer assembly of encode_grayscale_bmp: a zero-initialised
      buffer of the total size and one memcpy per section, each at the offset
      where the previous section ends. */
  method AssembleSections(fileHeaderBytes: seq<Byte>, infoHeaderBytes: seq<Byte>,
                          paletteBytes: seq<Byte>, image: seq<Byte>) returns (bmp: seq<Byte>)
    requires |fileHeaderBytes| == FILE_HEADER_SIZE && |infoHeaderBytes| == INFO_HEADER_SIZE
    requires |paletteBytes| == COLOR_PALETTE_SIZE
    ensures |bmp| == HEADER_OFFSET + |image|
    ensures bmp[HEADER_OFFSET..] == image
    ensures bmp == fileHeaderBytes + infoHeaderBytes + paletteBytes + image
  {
    var buffer := new Byte[HEADER_OFFSET + |image|](_ => 0);
    CopyBytes(buffer, 0, fileHeaderBytes);
    CopyBytes(buffer, FILE_HEADER_SIZE, infoHeaderBytes);
    assert buffer[..FILE_HEADER_SIZE + INFO_HEADER_SIZE] == fileHeaderBytes + infoHeaderBytes;
    CopyBytes(buffer, FILE_HEADER_SIZE + INFO_HEADER_SIZE, paletteBytes);
    assert buffer[..HEADER_OFFSET] == fileHeaderBytes + infoHeaderBytes + paletteBytes;
    CopyBytes(buffer, HEADER_OFFSET, image);
    bmp := buffer[..];
    assert bmp == fileHeaderBytes + infoHeaderBytes + paletteBytes + image;
  }

  // ---------------------------------------------------------------------------
  // What the encoded file holds, offset by offset
  // ---------------------------------------------------------------------------

  /** The four sections sit back to back at offsets 0, 14, 54 and 1078. */
  lemma Sections(image: seq<Byte>, width: Int32, height: Int32)
    requires EncodableInput(image, width, height)
    ensures var bmp := GrayscaleBmpFile(image, width, height);
      && bmp[..14] == SerializeFileHeader(ExpectedFileHeader(|image|))
      && bmp[14..54] == SerializeInfoHeader(ExpectedInfoHeader(width, height))
      && bmp[54..1078] == SerializePalette(GrayscalePalette())
      && bmp[1078..] == image
  {
    var fileHeaderBytes := SerializeFileHeader(ExpectedFileHeader(|image|));
    var infoHeaderBytes := SerializeInfoHeader(ExpectedInfoHeader(width, height));
    var paletteBytes := SerializePalette(GrayscalePalette());
    var bmp := GrayscaleBmpFile(image, width, height);
    assert bmp == fileHeaderBytes + infoHeaderBytes + paletteBytes + image;
  }

  /** Bytes 0..13: the "BM" magic, the file size, two zero reserved words and
      the pixel-data offset 1078, each little-endian at its packed offset. */
  lemma FileHeaderLayout(image: seq<Byte>, width: Int32, height: Int32)
    requires EncodableInput(image, width, height)
    ensures var bmp := GrayscaleBmpFile(image, width, height);
      && |bmp| == 1078 + |image|
      && bmp[0] == 0x42 && bmp[1] == 0x4D
      && DecodeU32(bmp[2..6]) == |bmp|
      && bmp[6..10] == [0, 0, 0, 0]
      && DecodeU32(bmp[10..14]) == 1078
      && ParseFileHeader(bmp[..14]) == FileHeader(BM_SIGNATURE, |bmp|, 0, 0, 1078)
  {
    var bmp := GrayscaleBmpFile(image, width, height);
    var bytes := bmp[..14];
    Sections(image, width, height);
    FileHeaderRoundTrip(ExpectedFileHeader(|image|));
    assert bmp[2..6] == bytes[2..6];
    assert bmp[6..10] == bytes[6..10];
    assert bmp[10..14] == bytes[10..14];
  }

  /** Bytes 14..53 parse, field by field at the packed BITMAPINFOHEADER offsets,
      as size 40, the given width and height, 1 plane, 8 bits per pixel, no
      compression, image_size width * height (whatever the number of pixels
      given), zero resolution, 256 colours used and 0 important. */
  lemma InfoHeaderLayout(image: seq<Byte>, width: Int32, height: Int32)
    requires EncodableInput(image, width, height)
    ensures var bmp := GrayscaleBmpFile(image, width, height);
      ParseInfoHeader(bmp[14..54]) == InfoHeader(40, width, height, 1, 8, 0, width * height, 0, 0, 256, 0)
  {
    Sections(image, width, height);
    InfoHeaderRoundTrip(ExpectedInfoHeader(width, height));
  }

  /** Bytes 54 + 4i .. 54 + 4i + 3 hold palette entry i as (blue, green, red,
      reserved) = (i, i, i, 0). */
  lemma PaletteLayout(image: seq<Byte>, width: Int32, height: Int32, i: nat)
    requires EncodableInput(image, width, height)
    requires i < NUMBER_OF_COLORS
    ensures var bmp := GrayscaleBmpFile(image, width, height);
      bmp[54 + 4 * i .. 54 + 4 * i + 4] == [i, i, i, 0]
  {
    var bmp := GrayscaleBmpFile(image, width, height);
    var paletteBytes := SerializePalette(GrayscalePalette());
    Sections(image, width, height);
    PaletteEntryBytes(GrayscalePalette(), i);
    assert bmp[54 + 4 * i .. 54 + 4 * i + 4] == paletteBytes[4 * i .. 4 * i + 4];
  }

  /** Bytes 1078.. are the pixels exactly as given: same order, rows not flipped. */
  lemma PixelLayout(image: seq<Byte>, width: Int32, height: Int32)
    requires EncodableInput(image, width, height)
    ensures GrayscaleBmpFile(image, width, height)[1078..] == image
  {
    Sections(image, width, height);
  }

  /** The info header and the palette do not depend on the pixels at all, not
      even on their number: two encodings with the same dimensions agree on
      bytes 14..1077. */
  lemma HeadersIgnorePixels(image1: seq<Byte>, image2: seq<Byte>, width: Int32, height: Int32)
    requires EncodableInput(image1, width, height) && EncodableInput(image2, width, height)
    ensures GrayscaleBmpFile(image1, width, height)[14..1078]
            == GrayscaleBmpFile(image2, width, height)[14..1078]
  {
    var bmp1 := GrayscaleBmpFile(image1, width, height);
    var bmp2 := GrayscaleBmpFile(image2, width, height);
    var headers := SerializeInfoHeader(ExpectedInfoHeader(width, height))
                   + SerializePalette(GrayscalePalette());
    Sections(image1, width, height);
    assert bmp1[14..1078] == bmp1[14..54] + bmp1[54..1078];
    assert bmp1[14..1078] == headers;
    Sections(image2, width, height);
    assert bmp2[14..1078] == bmp2[14..54] + bmp2[54..1078];
  }

  /** With the same dimensions and the same number of pixels, all 1078 header
      bytes agree, whatever the pixel values. */
  lemma HeadersDependOnPixelCountOnly(image1: seq<Byte>, image2: seq<Byte>, width: Int32, height: Int32)
    requires EncodableInput(image1, width, height) && EncodableInput(image2, width, height)
    requires |image1| == |image2|
    ensures GrayscaleBmpFile(image1, width, height)[..1078]
            == GrayscaleBmpFile(image2, width, height)[..1078]
  {
    var bmp1 := GrayscaleBmpFile(image1, width, height);
    var bmp2 := GrayscaleBmpFile(image2, width, height);
    HeadersIgnorePixels(image1, image2, width, height);
    Sections(image1, width, height);
    Sections(image2, width, height);
    assert bmp1[..1078] == bmp1[..14] + bmp1[14..1078];
    assert bmp2[..1078] == bmp2[..14] + bmp2[14..1078];
  }

  /** Generating a raster and encoding it with the same dimensions, as the
      program's entry point does, gives a file whose image_size field equals the
      number of pixel bytes that follow the headers. */
  lemma GeneratedRasterEncodesConsistently(width: Int32, height: Int32)
    requires 0 <= width && 0 <= height && HEADER_OFFSET + width * height <= INT32_MAX
    ensures EncodableInput(GradientRaster(width, height), width, height)
    ensures var bmp := GrayscaleBmpFile(GradientRaster(width, height), width, height);
      && ParseInfoHeader(bmp[14..54]).imageSize == |bmp| - 1078
      && DecodeU32(bmp[2..6]) == 1078 + width * height
  {
    GradientRasterLength(width, height);
    var image := GradientRaster(width, height);
    FileHeaderLayout(image, width, height);
    InfoHeaderLayout(image, width, height);
  }

  /** The worked example of a 4 x 2 image: the raster ... */
  lemma FourByTwoRaster()
    ensures GradientRaster(4, 2) == [0, 1, 2, 3, 0, 1, 2, 3]
  {
    assert GradientRow(4) == [0, 1, 2, 3];
    assert GradientRaster(4, 2) == GradientRaster(4, 0) + GradientRow(4) + GradientRow(4);
  }

  /** ... and its encoding: 1086 bytes, palette entry 3 is (3, 3, 3, 0), the
      pixels follow the headers unchanged. */
  lemma FourByTwoFile()
    ensures var bmp := GrayscaleBmpFile([0, 1, 2, 3, 0, 1, 2, 3], 4, 2);
      && |bmp| == 1086
      && bmp[66..70] == [3, 3, 3, 0]
      && bmp[1078..] == [0, 1, 2, 3, 0, 1, 2, 3]
  {
    var image := [0, 1, 2, 3, 0, 1, 2, 3];
    PaletteLayout(image, 4, 2, 3);
    PixelLayout(image, 4, 2);
  }

  /** A zero dimension gives an empty raster and a file that is headers only. */
  lemma ZeroDimensionExample(width: Int32, height: Int32)
    requires 0 <= width && 0 <= height && (width == 0 || height == 0)
    ensures GradientRaster(width, height) == []
    ensures |GrayscaleBmpFile([], width, height)| == 1078
  {
    GradientRasterLength(width, height);
  }
}
