# cbmp in Dafny

A model of the BMP codec at the heart of cbmp, a small C library that opens
24- and 32-bit uncompressed BMP files, exposes their pixels as RGB(A)
structs, and writes modified pixels back. The model covers:

- the header parser: `_get_int_from_buffer`, the four field getters and the
  two validators;
- the pixel-array geometry computed by `_map`: channels per pixel, the row
  size rounded up to four bytes, the padding, and the byte offset of every
  channel;
- `_get_pixel`, `_update_file_byte_contents` and the `channel2offset` table,
  both as whole-array definitions (`Decode`, `Encode`) and as the nested
  loops `_map` runs (`PopulatePixelArray`, `SyncFileBytes`), proved equal;
- the public operations `bmp_open` (after the file has been read),
  `bmp_write` (before the bytes go to the file), `bmp_deep_copy`,
  `bmp_get_pixel_rgb`, `bmp_set_pixel_rgb` and `bmp_begin_as_arr`, as pure
  functions on an immutable `Image` value.

Files:

- `types.dfy` (`BmpTypes`): bytes, the packed pixel struct, `channel2offset`,
  and the error result that stands in for the process exit.
- `arith.dfy` (`Arith`): small nonlinear-arithmetic facts the layout proofs use.
- `header.dfy` (`Header`): the header parser.
- `layout.dfy` (`Layout`): the `_map` geometry.
- `codec.dfy` (`PixelCodec`): decode and encode of the pixel array.
- `export.dfy` (`Export`): the flat arrays `bmp_begin_as_arr` hands out.
- `bmp.dfy` (`Bmp`): the image value and the public operations.

The library stores rows in the order they appear in the file and never
flips them. Pixel (x, y) is read from byte `start + y*row_size + x*channels`
(`OpenedPixel`), so row 0 is the first stored row, which BMP defines as the
bottom row of the picture. A top-down reading of the pixel array is not what
the code does, and the model follows the code.

`_get_width` and `_get_height` cast the unsigned value to `int`, and the
caller stores the result back into an `unsigned int` field. The round trip
changes no bits, so the model keeps the unsigned value.

The library reads the header and the pixel array without checking the
buffer length. The model makes those reads total: when a byte the library
would read lies past the end of the buffer, the buffer is rejected with
`Truncated`. The checks come in the library's order, so a one-byte buffer
whose byte is not `B` is `InvalidFormat` (the `&&` never reads the second
byte). Only the bytes `_map` actually visits must be present: the padding
after the last row may be missing, and an image with no pixels needs no
pixel bytes.

## Model

| member | source | states |
|---|---|---|
| BmpTypes.WithPixelByte | cbmp.c:340 | storing into struct byte k sets that byte and leaves the other three unchanged |
| BmpTypes.PixelBytes | cbmp.c:28-33 | the packed struct is four bytes: red, green, blue, alpha, in that order |
| BmpTypes.ChannelToOffset | cbmp.c:295-300 | the table sends each of the four disk channels to one of the four struct bytes |
| BmpTypes.ChannelToOffsetNamesFields | cbmp.c:295-300 | disk channel BLUE/GREEN/RED/ALPHA selects the struct field of the same colour, and distinct channels select distinct bytes |
| Header.LittleEndian | cbmp.c:224-238 | the value of n bytes is below 256^n |
| Header.LittleEndianIsWeightedSum | cbmp.c:224-238 | the byte-by-byte read equals the sum of byte i times 256^i |
| Header.GetInt | cbmp.c:224-238 | reading n bytes at an offset yields a value below 256^n |
| Header.HornerStep | cbmp.c:233-234 | shifting the value of the higher bytes left by 8 and adding the next lower byte, mod 2^32, gives the value of the longer run mod 2^32 |
| Header.GetIntFromBuffer | cbmp.c:224-238 | the loop from the last byte down, shifting an unsigned int, computes the little-endian value mod 2^32, which is exact for at most four bytes |
| Header.PixelArrayStart | cbmp.c:275-278 | the pixel-array start is bytes 10..13 read little-endian, below 2^32 |
| Header.Width | cbmp.c:280-283 | the width is bytes 18..21 read little-endian, below 2^32 |
| Header.Height | cbmp.c:285-288 | the height is bytes 22..25 read little-endian, below 2^32 |
| Header.Depth | cbmp.c:290-293 | the depth is bytes 28..29 read little-endian, below 2^16 |
| Header.ValidateFileType | cbmp.c:265-268 | the type check passes exactly when the first two bytes are 0x42 0x4D; the second byte is needed only behind a first byte `B` |
| Header.ValidateDepth | cbmp.c:270-273 | the depth check passes exactly for whole-byte depths of 3 or 4 bytes |
| Layout.Geometry.Channels | cbmp.c:317 | channels is the number of whole bytes in the depth |
| Layout.Geometry.RowSize | cbmp.c:318 | the row size is the row's bit count rounded up to a multiple of 32 bits, in bytes: a multiple of 4 holding depth*width bits with less than 32 bits spare |
| Layout.Geometry.Padding | cbmp.c:319 | at a supported depth the padding is 0..3 bytes, 0 at depth 32 and width mod 4 at depth 24 |
| Layout.Geometry.Offset | cbmp.c:327-328 | the offset computed from index and padding is start + y*row_size + x*channels |
| Layout.Geometry.SlotAt | cbmp.c:315-335 | a byte that holds a channel names an in-image (x, y, c) stored exactly there |
| Layout.ChannelCount | cbmp.c:317 | a supported depth has 3 or 4 channels, and 4 exactly at depth 32 |
| Layout.IndexInRange | cbmp.c:327 | index = y*width + x is below width*height and gives back x and y by mod and div |
| Layout.IndexSplit | cbmp.c:327 | every dense index is the index of one in-image (x, y) |
| Layout.OffsetRowMajor | cbmp.c:328 | start + index*channels + y*padding equals start + y*row_size + x*channels |
| Layout.RowFacts | cbmp.c:317-319 | row size is a multiple of 4 and at least width*channels; padding is 0..3, 0 at depth 32 and width mod 4 at depth 24 |
| Layout.PositionInBounds | cbmp.c:328-331 | every channel byte lies between the pixel-array start and its end |
| Layout.PixelInBounds | cbmp.c:328-331 | all channel bytes of a pixel lie inside the pixel array |
| Layout.SlotAtPosition | cbmp.c:328-331 | the slot of a channel's byte is that channel |
| Layout.PositionInjective | cbmp.c:328-331 | two different (pixel, channel) pairs never share a byte |
| Layout.SlotAtNone | cbmp.c:315-335 | a byte holds no channel exactly when no in-image channel is stored there |
| Layout.HeaderAndPaddingHoldNoSlot | cbmp.c:315-335 | header bytes and row padding bytes are never visited |
| PixelCodec.DiskChannelOrder | cbmp.c:337-341 | a decoded pixel takes blue, green, red (and alpha at 4 channels) from consecutive disk bytes; with 3 channels alpha keeps its old value |
| PixelCodec.DecodeReadsDisk | cbmp.c:308-341 | pixel (x, y) is (byte o+2, byte o+1, byte o) with o = start + y*row_size + x*channels, plus byte o+3 as alpha at depth 32 |
| PixelCodec.DecodeAt | cbmp.c:323-333 | entry y*width + x of the array is pixel (x, y) decoded from its offset |
| PixelCodec.Decode | cbmp.c:308-313 | the decode yields one pixel per entry of the allocated array, and at depth 24 every alpha is the allocated one |
| PixelCodec.DecodePixelKeepsAlpha | cbmp.c:329-331 | decoding one pixel over three channels leaves its alpha as it was |
| PixelCodec.DecodeKeepsAllAlphaAt24 | cbmp.c:329-331 | a 24-bit decode never writes alpha |
| PixelCodec.Encode | cbmp.c:193-195 | the encode pass keeps the file length |
| PixelCodec.EncodeWritesSlot | cbmp.c:302-306 | every channel of every pixel is written to its own byte |
| PixelCodec.EncodeFrame | cbmp.c:315-335 | a byte that holds no channel is unchanged by the encode pass |
| PixelCodec.EncodeKeepsHeaderAndPadding | cbmp.c:315-335 | the header and the row padding pass through the encode pass |
| PixelCodec.ChannelRoundTrip | cbmp.c:302-306 | a channel decoded and encoded again is the disk byte |
| PixelCodec.DecodeThenEncode | cbmp.c:193-195 | encoding freshly decoded pixels gives back the original bytes |
| PixelCodec.EncodeThenDecodePixel | cbmp.c:308-313 | decoding the encoded bytes over the same pixels gives back pixel i |
| PixelCodec.EncodeThenDecode | cbmp.c:308-313 | decoding the encoded bytes over the same pixels gives those pixels back |
| PixelCodec.EncodeIdempotent | cbmp.c:193-195 | a second encode pass with unchanged pixels changes nothing |
| PixelCodec.GetPixel | cbmp.c:337-341 | one call stores file byte offset+channel into the field of that channel's colour in one pixel and changes nothing else |
| PixelCodec.UpdateFileByteContents | cbmp.c:302-306 | one call writes the given colour of one pixel to byte offset+channel and changes nothing else |
| PixelCodec.DecodeUpToStep | cbmp.c:329-331 | one `_get_pixel` call extends the decoded prefix by one channel |
| PixelCodec.DecodeUpToNextPixel | cbmp.c:325-333 | after a pixel's last channel the decode continues with the next pixel |
| PixelCodec.DecodeUpToEnds | cbmp.c:323-334 | the decode loop starts from the allocated array and ends with the whole decode |
| PixelCodec.GetPixelChannels | cbmp.c:329-332 | the channel loop decodes exactly one more pixel |
| PixelCodec.GetPixelRow | cbmp.c:325-333 | the column loop decodes exactly one more row |
| PixelCodec.PopulatePixelArray | cbmp.c:308-335 | `_map` with `_get_pixel` computes the whole decode |
| PixelCodec.EncodeUpToStep | cbmp.c:329-331 | one `_update_file_byte_contents` call extends the encoded prefix by one channel |
| Layout.PixelIndexInjective | cbmp.c:327 | distinct in-image pixels have distinct indices |
| PixelCodec.EncodeUpToEnds | cbmp.c:323-334 | the encode loop starts from the file bytes and ends with the whole encode |
| PixelCodec.EncodeUpToNextPixel | cbmp.c:325-333 | after a pixel's last channel the encode continues with the next pixel |
| PixelCodec.UpdatePixelChannels | cbmp.c:329-332 | the channel loop encodes exactly one more pixel |
| PixelCodec.UpdatePixelRow | cbmp.c:325-333 | the column loop encodes exactly one more row |
| PixelCodec.SyncFileBytes | cbmp.c:193-195 | `_map` with `_update_file_byte_contents` computes the whole encode |
| Export.Rgba8 | cbmp.c:155-156 | the RGBA8 array is the pixel structs laid end to end: red, green, blue, alpha at 4i..4i+3 |
| Export.Rgb8 | cbmp.c:158-180 | the RGB8 array has red, green, blue of pixel i at 3i..3i+2 |
| Export.Rgba8Byte | cbmp.c:155-156 | byte k of the RGBA8 array is struct byte k mod 4 of pixel k div 4 |
| Export.Rgb8DropsAlpha | cbmp.c:151-183 | byte k of the RGB8 array is byte 4*(k div 3) + k mod 3 of the RGBA8 array |
| Export.CopyRgb8 | cbmp.c:166-180 | the copy loop builds the RGB8 array |
| Bmp.Open | cbmp.c:56-98 | an opened image is consistent (supported depth, pixel array inside the file, one pixel per (x, y)) and keeps the file bytes |
| Bmp.OpenAccepts | cbmp.c:77-95 | a buffer opens exactly when it carries the signature, a supported depth and every channel byte `_map` visits |
| Bmp.OpenChecksSignatureFirst | cbmp.c:77-81 | a wrong signature is reported whatever the depth says, and a wrong first byte whatever the length |
| Bmp.OpenWithoutTrailingPadding | cbmp.c:315-335 | a 33-byte 1x1 24-bit file, missing its row padding, opens, and its pixel is read from bytes 30..32 |
| Bmp.OpenChecksDepth | cbmp.c:89-93 | behind a valid signature, the depth is rejected exactly when it is neither 24 nor 32 |
| Bmp.OpenReadsHeader | cbmp.c:83-95 | the image holds the header fields and the pixels decoded over the allocated array |
| Bmp.Write | cbmp.c:193-204 | writing keeps the image consistent, the file length and every field but the bytes |
| Bmp.OpenWriteRoundTrip | cbmp.c:193-195 | writing a freshly opened image reproduces the file |
| Bmp.WriteIdempotent | cbmp.c:193-195 | writing twice equals writing once |
| Bmp.WriteKeepsHeader | cbmp.c:193-195 | the header bytes pass through a write |
| Bmp.WriteThenDecode | cbmp.c:193-195 | decoding the written bytes gives back the pixels |
| Bmp.WriteAfterSet | cbmp.c:143-149 | after a pixel is set, writing differs from writing the old image only in that pixel's channel bytes |
| Bmp.DeepCopy | cbmp.c:100-133 | the copy has the same width, height, depth, start, file bytes and pixels |
| Bmp.SetPixelRgb | cbmp.c:143-149 | only pixel y*width + x changes, it gets the new colour and keeps its alpha |
| Bmp.GetAfterSet | cbmp.c:135-149 | reading back gives the colour set at (x, y) and the old colour everywhere else |
| Bmp.GetPixelRgb | cbmp.c:135-141 | the colour read at (x, y) is red, green, blue of pixel y*width + x |
| Bmp.OpenedPixel | cbmp.c:135-141 | the colour of (x, y) in an opened image is (byte o+2, byte o+1, byte o) with o = start + y*row_size + x*channels |
| Bmp.OpenedAlphaAt24 | cbmp.c:308-313 | at depth 24 alpha is whatever the allocated storage held |
| Bmp.BeginAsArr | cbmp.c:151-183 | RGBA8 gives red, green, blue, alpha of pixel i at 4i..4i+3; RGB8 gives red, green, blue at 3i..3i+2; 4 or 3 bytes per pixel |

## Left out

- File I/O (`fopen`, `fread`, `fwrite`, `ftell`): `Open` takes the bytes already read and `Write` returns the bytes to be written.
- `_throw_error` and its process exit: a rejected file is an `Err` result instead.
- The short-read failure of `_get_file_byte_contents`: it is I/O.
- `malloc` failures: `bmp_open`, `bmp_deep_copy` and `bmp_begin_as_arr` returning `NULL`, and `_populate_pixel_array` returning with no pixel array.
- `bmp_close` and `bmp_end_as_arr`: they only free memory. (`bmp_close` also writes to the struct after freeing it.)
- Bmp.Open: the library reads the header and pixel bytes without checking the file length. `Truncated` stands for a read past the end: the first signature byte of an empty buffer, the second signature byte behind a first byte `B`, a header byte below offset 30, or a channel byte up to the last pixel of the last row. The library reads past the end of its buffer there.
- Bmp.Open: the contents of the freshly allocated pixel array are a parameter `heap`. At depth 24 they survive as the alpha bytes.
- Layout.Geometry.RowSize: the 32-bit wrap of `depth * width` and the signed division after the `(int)` cast are not modelled. The model computes in unbounded integers, which agrees with the library while `depth * width + 31` is below 2^31.
- Layout.Geometry.Offset: the unsigned 32-bit wrap of `index * channels + y * padding` is not modelled, and neither is the conversion of the unsigned offset to the `int offset` parameter of the callbacks. The model agrees with the library while `depth * width + 31` is below 2^31 (see Layout.Geometry.RowSize) and every channel offset is below 2^31. A file under 2 GiB guarantees only the second condition: a wider row makes the library's row size and padding negative, and its offsets then leave the buffer.
- The signed `char` temporary in `_update_file_byte_contents`: it is stored back into an unsigned byte with its bits unchanged, so the model keeps the byte.
- `BMP_MatrixFormat`: it has the single value `B_ROW_MAJOR` and changes nothing.
- Bmp.BeginAsArr: for RGBA8 the library returns the pixel storage itself, not a copy, so later writes through it reach the image. The model returns the bytes as a value.
- Bmp.SetPixelRgb: the library checks no coordinates. The model requires (x, y) to lie inside the image. Outside it, the library writes to index y*width + x anyway: with x >= width and the index still below width*height, that silently overwrites another pixel, such as (0, y+1) for x == width; an index past the array writes outside it.
- Bmp.GetPixelRgb: the same requirement. Outside the image the library reads another pixel, or past the end of the array.
- PixelCodec.Encode: its own contract gives only the file length. What each byte receives is stated by EncodeWritesSlot, EncodeFrame and EncodeKeepsHeaderAndPadding.
- PixelCodec.Decode: its own contract gives the length and the 24-bit alpha. The colours are stated by DecodeAt, DecodeReadsDisk and DiskChannelOrder.
