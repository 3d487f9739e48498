# Grayscale BMP writer, modelled in Dafny

The program writes a synthetic 8-bit grayscale picture as a Windows Bitmap
(BMP) file. Two functions hold its logic, and this project models both:

- `generate_grayscale_image(width, height)` fills a row-major raster of
  `width * height` bytes. The pixel in row `h`, column `w` is `w mod 256`, so
  every row is the same horizontal gradient.
- `encode_grayscale_bmp(image, width, height)` builds the file in memory, in
  four sections with no padding between them:
  - a 14-byte BITMAPFILEHEADER: magic "BM", file size, two reserved words, pixel offset 1078;
  - a 40-byte BITMAPINFOHEADER;
  - a 256-entry RGBQUAD palette in which entry `i` is the gray `(i, i, i)`;
  - the raster bytes, unchanged.

The C++ gets its byte layout from `#pragma pack(1)` structs copied with
`memcpy` on a little-endian host. The model instead serialises every field
explicitly, least significant byte first, at its packed offset.

Files:

- `little_endian.dfy` (module `LittleEndian`): the fixed-width integer types
  `uint8_t`, `uint16_t`, `uint32_t` and `int32_t`, and their little-endian
  encodings and decodings, with round trips in both directions. Negative
  `int32_t` values use two's complement.
- `bmp_layout.dfy` (module `BmpLayout`): the three packed structs as datatypes.
  Each has a serialiser and a parser that read and write every field at its
  packed offset, with round trips in both directions. The palette serialiser
  lays the 4-byte entries out back to back.
- `gs_bmp_enc.dfy` (module `GrayscaleBmp`): the two operations as methods.
  Each works like the C++: nested loops over a zero-filled buffer; headers
  zero-filled and then assigned field by field; the palette filled in a loop;
  each section copied into a zero-filled buffer at its offset. Each method is
  proved equal to a specification function (`GradientRaster`,
  `GrayscaleBmpFile`). Lemmas then state what that function puts at each byte
  offset.

In three places the model keeps behaviour a reader might not expect:

- A width or height of 0 is accepted. It gives an empty raster and a file of
  1078 bytes.
- `TOTAL_FILE_SIZE` and `image_width * image_height` are C++ `int`s, so the
  preconditions bound them by `INT32_MAX`, not by the `uint32_t` maximum.
- The encoder does not check that `|image| == width * height`, and neither does
  the model. The `image_size` field is always `width * height`; the info header
  and palette do not depend on the pixels (`HeadersIgnorePixels`), while the
  file size and the pixel section follow `|image|` (`FileHeaderLayout`,
  `PixelLayout`).

Rows are written top-down although a positive BMP height means bottom-up.
Every row of the generated gradient is the same, so for the generator's output
the two orders give the same picture (`GradientRasterRowSymmetric`).

## Model

| member | source | states |
|---|---|---|
| `LittleEndian.EncodeU16` | grayscale_bmp_encoding/gs_bmp_enc.cpp:10-13 | a `uint16_t` field is 2 bytes whose little-endian value is the field |
| `LittleEndian.DecodeU16` | grayscale_bmp_encoding/gs_bmp_enc.cpp:10-13 | reading 2 bytes as a `uint16_t` gives their little-endian value |
| `LittleEndian.EncodeU32` | grayscale_bmp_encoding/gs_bmp_enc.cpp:11-14 | a `uint32_t` field is 4 bytes whose little-endian value is the field |
| `LittleEndian.DecodeU32` | grayscale_bmp_encoding/gs_bmp_enc.cpp:11-14 | reading 4 bytes as a `uint32_t` gives their little-endian value |
| `LittleEndian.TwosComplementBits` | grayscale_bmp_encoding/gs_bmp_enc.cpp:20-21 | the bits stored for an `int32_t` agree with it modulo 2^32, and the top bit is set exactly when it is negative |
| `LittleEndian.FromBits32` | grayscale_bmp_encoding/gs_bmp_enc.cpp:20-21 | reading the bits of a `uint32_t` as an `int32_t` is undone by the two's-complement conversion back |
| `LittleEndian.EncodeI32` | grayscale_bmp_encoding/gs_bmp_enc.cpp:20-21 | a signed `int32_t` field takes 4 bytes whose little-endian value is its two's-complement bits |
| `LittleEndian.ValueInjective` | grayscale_bmp_encoding/gs_bmp_enc.cpp:7-39 | two byte strings of equal length with the same little-endian value are equal, so a packed field's bytes are fixed by its value |
| `LittleEndian.DecodeEncodeU16` | grayscale_bmp_encoding/gs_bmp_enc.cpp:10-13 | decoding the encoding of a `uint16_t` gives it back |
| `LittleEndian.EncodeDecodeU16` | grayscale_bmp_encoding/gs_bmp_enc.cpp:10-13 | every 2-byte string is the encoding of the value it decodes to |
| `LittleEndian.DecodeEncodeU32` | grayscale_bmp_encoding/gs_bmp_enc.cpp:11-14 | decoding the encoding of a `uint32_t` gives it back |
| `LittleEndian.EncodeDecodeU32` | grayscale_bmp_encoding/gs_bmp_enc.cpp:11-14 | every 4-byte string is the encoding of the value it decodes to |
| `LittleEndian.DecodeEncodeI32` | grayscale_bmp_encoding/gs_bmp_enc.cpp:20-21 | decoding the two's-complement encoding of an `int32_t` gives it back, negative values included |
| `LittleEndian.DecodeI32` | grayscale_bmp_encoding/gs_bmp_enc.cpp:20-21 | the two's-complement bits of the decoded `int32_t` are the little-endian value of the 4 bytes |
| `LittleEndian.EncodeDecodeI32` | grayscale_bmp_encoding/gs_bmp_enc.cpp:20-21 | every 4-byte string is the encoding of the `int32_t` it decodes to |
| `BmpLayout.SerializeFileHeader` | grayscale_bmp_encoding/gs_bmp_enc.cpp:8-15 | the packed BITMAPFILEHEADER is exactly 14 bytes |
| `BmpLayout.SerializeInfoHeader` | grayscale_bmp_encoding/gs_bmp_enc.cpp:17-30 | the packed BITMAPINFOHEADER is exactly 40 bytes |
| `BmpLayout.ZeroFileHeaderBytes` | grayscale_bmp_encoding/gs_bmp_enc.cpp:61-62 | the file header after `memset` to 0 serialises to 14 zero bytes |
| `BmpLayout.ZeroInfoHeaderBytes` | grayscale_bmp_encoding/gs_bmp_enc.cpp:67-68 | the info header after `memset` to 0 serialises to 40 zero bytes |
| `BmpLayout.SerializeQuad` | grayscale_bmp_encoding/gs_bmp_enc.cpp:32-38 | a packed RGBQUAD is exactly 4 bytes |
| `BmpLayout.SerializePalette` | grayscale_bmp_encoding/gs_bmp_enc.cpp:93 | copying n packed RGBQUADs writes 4n bytes |
| `BmpLayout.FileHeaderRoundTrip` | grayscale_bmp_encoding/gs_bmp_enc.cpp:8-15 | parsing the 14 serialised bytes gives back every BITMAPFILEHEADER field |
| `BmpLayout.FileHeaderBytesRoundTrip` | grayscale_bmp_encoding/gs_bmp_enc.cpp:8-15 | every 14-byte string is the serialisation of the header it parses to: the layout leaves no byte unused |
| `BmpLayout.InfoHeaderRoundTrip` | grayscale_bmp_encoding/gs_bmp_enc.cpp:17-30 | parsing the 40 serialised bytes gives back every BITMAPINFOHEADER field |
| `BmpLayout.InfoHeaderBytesRoundTrip` | grayscale_bmp_encoding/gs_bmp_enc.cpp:17-30 | every 40-byte string is the serialisation of the header it parses to |
| `BmpLayout.QuadRoundTrip` | grayscale_bmp_encoding/gs_bmp_enc.cpp:32-38 | parsing a serialised RGBQUAD gives back blue, green, red and reserved in that order |
| `BmpLayout.PaletteEntryBytes` | grayscale_bmp_encoding/gs_bmp_enc.cpp:93 | entry i of a copied palette occupies bytes 4i to 4i+3 |
| `GrayscaleBmp.RowInBounds` | grayscale_bmp_encoding/gs_bmp_enc.cpp:43-48 | for every row `h < height`, the whole row up to index `(h + 1) * width` lies inside the `width * height` buffer |
| `GrayscaleBmp.GradientRasterLength` | grayscale_bmp_encoding/gs_bmp_enc.cpp:43 | the raster has `width * height` bytes |
| `GrayscaleBmp.GradientRasterPixel` | grayscale_bmp_encoding/gs_bmp_enc.cpp:44-49 | the byte at `h * width + w` is `w mod 256` for every row h and column w |
| `GrayscaleBmp.GradientRasterPixels` | grayscale_bmp_encoding/gs_bmp_enc.cpp:44-49 | the same pixel property for all rows and columns at once |
| `GrayscaleBmp.GradientRasterRowSymmetric` | grayscale_bmp_encoding/gs_bmp_enc.cpp:44-49 | row h and row `height - 1 - h` hold the same bytes, so bottom-up and top-down readings agree |
| `GrayscaleBmp.FillRow` | grayscale_bmp_encoding/gs_bmp_enc.cpp:46-49 | the inner loop writes the gradient row at `h * width` and leaves the rows before it unchanged |
| `GrayscaleBmp.GenerateGrayscaleImage` | grayscale_bmp_encoding/gs_bmp_enc.cpp:41-52 | the nested loops return `width * height` bytes, the byte at `h * width + w` is `w mod 256`, a zero dimension gives an empty raster |
| `GrayscaleBmp.GrayscaleBmpFile` | grayscale_bmp_encoding/gs_bmp_enc.cpp:56-59 | the encoded file has 14 + 40 + 256 * 4 = 1078 header bytes plus one byte per pixel given |
| `GrayscaleBmp.CopyBytes` | grayscale_bmp_encoding/gs_bmp_enc.cpp:91-94 | a memcpy writes the source at the offset and leaves the bytes before and after it unchanged |
| `GrayscaleBmp.FillGrayscalePalette` | grayscale_bmp_encoding/gs_bmp_enc.cpp:81-88 | the loop gives 256 entries, entry i being blue = green = red = i, reserved = 0 |
| `GrayscaleBmp.AssembleSections` | grayscale_bmp_encoding/gs_bmp_enc.cpp:90-94 | the four memcpys into the zero-filled buffer give the sections back to back, the pixels starting at 1078 |
| `GrayscaleBmp.EncodeGrayscaleBmp` | grayscale_bmp_encoding/gs_bmp_enc.cpp:54-97 | the encoder returns exactly file header, info header, palette and pixels, so its output depends only on `(image, width, height)` |
| `GrayscaleBmp.Sections` | grayscale_bmp_encoding/gs_bmp_enc.cpp:90-94 | bytes 0-13, 14-53 and 54-1077 are the serialised file header, info header and palette, and the pixels follow |
| `GrayscaleBmp.FileHeaderLayout` | grayscale_bmp_encoding/gs_bmp_enc.cpp:61-65 | bytes 0-1 are `0x42 0x4D` ("BM"); bytes 2-5 hold the total length; bytes 6-9 are zero; bytes 10-13 hold 1078 |
| `GrayscaleBmp.InfoHeaderLayout` | grayscale_bmp_encoding/gs_bmp_enc.cpp:67-79 | bytes 14-53 parse as size 40, the width, the height, planes 1, bit count 8, compression 0, image size `width * height`, resolutions 0, colors used 256, colors important 0 |
| `GrayscaleBmp.PaletteLayout` | grayscale_bmp_encoding/gs_bmp_enc.cpp:81-88 | for every i below 256, bytes `54 + 4i` to `54 + 4i + 3` are `(i, i, i, 0)` |
| `GrayscaleBmp.PixelLayout` | grayscale_bmp_encoding/gs_bmp_enc.cpp:94 | the bytes from 1078 on are the input raster, same order, rows not flipped |
| `GrayscaleBmp.HeadersIgnorePixels` | grayscale_bmp_encoding/gs_bmp_enc.cpp:67-79 | the info header and palette (bytes 14-1077) do not depend on the pixels or on how many there are |
| `GrayscaleBmp.HeadersDependOnPixelCountOnly` | grayscale_bmp_encoding/gs_bmp_enc.cpp:59-65 | with equal pixel counts all 1078 header bytes agree, whatever the pixel values |
| `GrayscaleBmp.GeneratedRasterEncodesConsistently` | grayscale_bmp_encoding/gs_bmp_enc.cpp:110-111 | encoding the generated raster with its own dimensions gives an image size field equal to the number of pixel bytes and a file size of `1078 + width * height` |
| `GrayscaleBmp.FourByTwoRaster` | grayscale_bmp_encoding/gs_bmp_enc.cpp:41-52 | a 4 x 2 raster is `[0,1,2,3,0,1,2,3]` |
| `GrayscaleBmp.FourByTwoFile` | grayscale_bmp_encoding/gs_bmp_enc.cpp:54-97 | its encoding has 1086 bytes, palette entry 3 is `(3,3,3,0)` and the pixel section is the raster |
| `GrayscaleBmp.ZeroDimensionExample` | grayscale_bmp_encoding/gs_bmp_enc.cpp:43-46 | a zero width or height gives an empty raster and a 1078-byte file |

## Left out

- `save_image_file` writes the buffer to a file with `std::ofstream`. This is file I/O with no logic to prove, so it is not modelled.
- `main` only passes the constants 320, 480 and "output.bmp" to the other functions. It is not modelled. `GeneratedRasterEncodesConsistently` states what its two calls produce together.
- `GenerateGrayscaleImage`: does not model C++ `int` overflow in `width * height`. Its precondition asks for non-negative dimensions whose product fits in `int32_t`. Negative dimensions are excluded because the program never passes them (`main` uses 320 and 480). In the C++, two negative dimensions give a vector of `width * height` zero bytes that the loops never touch, one negative dimension with the other positive makes the product negative, which as a `size_t` is huge, so the vector constructor throws `std::length_error`; a negative dimension with the other 0 gives an empty vector; only an overflowing product is undefined behaviour.
- `EncodeGrayscaleBmp`: does not model overflow of `TOTAL_FILE_SIZE` or of `image_width * image_height`. Its precondition (`EncodableInput`) asks for non-negative dimensions, a product that fits in `int32_t`, and `1078 + |image|` that fits in `int32_t`.
- The host memory layout is not modelled: `#pragma pack`, `memset` and `memcpy` of whole structs, and host byte order. The model serialises each field little-endian. This is what the C++ produces on a little-endian host; a big-endian host would produce different bytes.
- The C++ `colorPalette` array starts uninitialised. In the model it starts with default entries. Every entry is overwritten before it is read, so the result is the same.
- Allocation failure (`std::bad_alloc` from the vectors) is not modelled.
