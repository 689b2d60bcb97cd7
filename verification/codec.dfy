/**
 The pixel-array codec: `_populate_pixel_array` (disk bytes to pixels) and the
 `_map(bmp, _update_file_byte_contents)` pass of `bmp_write` (pixels to disk
 bytes), first as whole-sequence definitions, then as the nested loops the
 library runs, proved to compute the same thing.
 */
module PixelCodec {
  import opened BmpTypes
  import opened Arith
  import opened Layout
  import Header

  /** The geometry, buffer and pixel array agree: the pixel array lies inside
      the buffer and there is one pixel per (x, y). */
  predicate Consistent(g: Geometry, buf: seq<byte>, pixels: seq<Pixel>) {
    g.ValidDepth() && g.FitsIn(|buf|) && |pixels| == g.PixelCount()
  }

  /** `_get_pixel` on disk channels 0 .. n-1 of the pixel at byte `o`: each
      byte is stored into the struct byte `channel2offset` names. */
  function DecodeChannels(buf: seq<byte>, o: nat, n: nat, p: Pixel): Pixel
    requires n <= PixelSize && o + n <= |buf|
  {
    if n == 0 then p
    else WithPixelByte(DecodeChannels(buf, o, n - 1, p), ChannelToOffset(n - 1), buf[o + n - 1])
  }

  /** On disk a pixel is blue, green, red, then alpha when there are four
      channels; with three channels alpha keeps its previous value. */
  lemma DiskChannelOrder(buf: seq<byte>, o: nat, ch: nat, p: Pixel)
    requires (ch == 3 || ch == 4) && o + ch <= |buf|
    ensures DecodeChannels(buf, o, ch, p) ==
      Pixel(buf[o + 2], buf[o + 1], buf[o], if ch == 4 then buf[o + 3] else p.alpha)
  {
    assert DecodeChannels(buf, o, 0, p) == p;
    assert ChannelToOffset(Blue) == 2 && ChannelToOffset(Green) == 1;
    assert ChannelToOffset(Red) == 0 && ChannelToOffset(Alpha) == 3;
    var p1 := DecodeChannels(buf, o, 1, p);
    assert p1 == p.(blue := buf[o]);
    var p2 := DecodeChannels(buf, o, 2, p);
    assert p2 == p1.(green := buf[o + 1]);
    var p3 := DecodeChannels(buf, o, 3, p);
    assert p3 == p2.(red := buf[o + 2]);
    if ch == 4 {
      assert DecodeChannels(buf, o, 4, p) == p3.(alpha := buf[o + 3]);
    }
  }

  /** The byte `_update_file_byte_contents` writes for channel `c` of `p`. */
  function ChannelByte(p: Pixel, c: nat): byte
    requires c < PixelSize
  {
    PixelByte(p, ChannelToOffset(c))
  }

  /** Channels 0 .. n-1 of pixel `i` of the dense array decoded from the
      buffer over the struct `p` the allocator handed back. */
  function DecodePixelAt(g: Geometry, buf: seq<byte>, p: Pixel, i: nat, n: nat): Pixel
    requires g.ValidDepth() && g.FitsIn(|buf|) && i < g.PixelCount()
    requires n <= g.Channels()
  {
    IndexSplit(g, i);
    PixelInBounds(g, i % g.width, i / g.width);
    DecodeChannels(buf, g.Offset(i % g.width, i / g.width), n, p)
  }

  /** A 24-bit pixel has no alpha byte on disk, so decoding leaves alpha alone. */
  lemma DecodePixelKeepsAlpha(g: Geometry, buf: seq<byte>, p: Pixel, i: nat)
    requires g.ValidDepth() && g.FitsIn(|buf|) && i < g.PixelCount() && g.depth == 24
    ensures DecodePixelAt(g, buf, p, i, g.Channels()).alpha == p.alpha
  {
    IndexSplit(g, i);
    PixelInBounds(g, i % g.width, i / g.width);
    DiskChannelOrder(buf, g.Offset(i % g.width, i / g.width), g.Channels(), p);
  }

  lemma DecodeKeepsAllAlphaAt24(g: Geometry, buf: seq<byte>, prior: seq<Pixel>)
    requires Consistent(g, buf, prior)
    ensures g.depth == 24 ==> forall i :: 0 <= i < |prior| ==>
              DecodePixelAt(g, buf, prior[i], i, g.Channels()).alpha == prior[i].alpha
  {
    if g.depth == 24 {
      forall i | 0 <= i < |prior|
        ensures DecodePixelAt(g, buf, prior[i], i, g.Channels()).alpha == prior[i].alpha
      {
        DecodePixelKeepsAlpha(g, buf, prior[i], i);
      }
    }
  }

  /** `_populate_pixel_array`: `prior` is the uninitialised array malloc
      returned. One pixel per struct; a 24-bit file never sets alpha. */
  function Decode(g: Geometry, buf: seq<byte>, prior: seq<Pixel>): (r: seq<Pixel>)
    requires Consistent(g, buf, prior)
    ensures |r| == |prior|
    ensures g.depth == 24 ==> forall i :: 0 <= i < |r| ==> r[i].alpha == prior[i].alpha
  {
    DecodeKeepsAllAlphaAt24(g, buf, prior);
    seq(|prior|, i requires 0 <= i < |prior| => DecodePixelAt(g, buf, prior[i], i, g.Channels()))
  }

  /** Byte `k` of the buffer once the channels before channel `c` of pixel
      `done` (in the visiting order of `_map`) have been written from `pixels`. */
  function EncodedByteUpTo(g: Geometry, buf: seq<byte>, pixels: seq<Pixel>, k: nat, done: nat, c: nat): byte
    requires Consistent(g, buf, pixels) && k < |buf|
  {
    match g.SlotAt(k)
    case None => buf[k]
    case Some(s) =>
      ChannelCount(g);
      IndexInRange(g, s.x, s.y);
      var i := g.PixelIndex(s.x, s.y);
      if i < done || (i == done && s.c < c) then ChannelByte(pixels[i], s.c)
      else buf[k]
  }

  /** The bytes after the encode pass: every channel byte of every pixel
      written from the pixel array, every other byte kept. */
  function Encode(g: Geometry, buf: seq<byte>, pixels: seq<Pixel>): (r: seq<byte>)
    requires Consistent(g, buf, pixels)
    ensures |r| == |buf|
  {
    seq(|buf|, k requires 0 <= k < |buf| => EncodedByteUpTo(g, buf, pixels, k, |pixels|, 0))
  }

  // ---------------------------------------------------------------------
  // What decode and encode mean.

  /** Decoding reads pixel (x, y) from the bytes at start + y*row_size + x*channels. */
  lemma DecodeReadsDisk(g: Geometry, buf: seq<byte>, prior: seq<Pixel>, x: nat, y: nat)
    requires Consistent(g, buf, prior) && x < g.width && y < g.height
    ensures g.PixelIndex(x, y) < |prior|
    ensures var o := g.start + y * g.RowSize() + x * g.Channels();
            0 <= o && o + g.Channels() <= |buf| &&
            Decode(g, buf, prior)[g.PixelIndex(x, y)] ==
              Pixel(buf[o + 2], buf[o + 1], buf[o],
                    if g.depth == 32 then buf[o + 3] else prior[g.PixelIndex(x, y)].alpha)
  {
    var i := g.PixelIndex(x, y);
    var ch := g.Channels();
    DecodeAt(g, buf, prior, x, y);
    assert ch == 3 || ch == 4;
    OffsetRowMajor(g, x, y);
    PixelInBounds(g, x, y);
    var o: nat := g.Offset(x, y);
    assert o + ch <= |buf|;
    assert Decode(g, buf, prior)[i] == DecodeChannels(buf, o, ch, prior[i]);
    DiskChannelOrder(buf, o, ch, prior[i]);
    assert ch == 4 <==> g.depth == 32;
  }

  /** Entry (x, y) of the decoded array is pixel (x, y) decoded. */
  lemma DecodeAt(g: Geometry, buf: seq<byte>, prior: seq<Pixel>, x: nat, y: nat)
    requires Consistent(g, buf, prior) && x < g.width && y < g.height
    ensures g.PixelIndex(x, y) < |prior|
    ensures 0 <= g.Offset(x, y) && g.Offset(x, y) + g.Channels() <= |buf| &&
            Decode(g, buf, prior)[g.PixelIndex(x, y)] ==
            DecodeChannels(buf, g.Offset(x, y), g.Channels(), prior[g.PixelIndex(x, y)])
  {
    IndexInRange(g, x, y);
    PixelInBounds(g, x, y);
  }

  /** Encoding writes each channel byte of each pixel to its slot. */
  lemma EncodeWritesSlot(g: Geometry, buf: seq<byte>, pixels: seq<Pixel>, s: Slot)
    requires Consistent(g, buf, pixels) && g.InImage(s)
    ensures g.PixelIndex(s.x, s.y) < |pixels| && 0 <= g.Position(s) < |buf|
    ensures Encode(g, buf, pixels)[g.Position(s)] == ChannelByte(pixels[g.PixelIndex(s.x, s.y)], s.c)
  {
    IndexInRange(g, s.x, s.y);
    PositionInBounds(g, s);
    SlotAtPosition(g, s);
  }

  /** Encoding changes no byte that holds no slot: the header and the row
      padding pass through. */
  lemma EncodeFrame(g: Geometry, buf: seq<byte>, pixels: seq<Pixel>, k: nat)
    requires Consistent(g, buf, pixels) && k < |buf|
    requires forall s :: g.InImage(s) ==> g.Position(s) != k
    ensures Encode(g, buf, pixels)[k] == buf[k]
  {
    SlotAtNone(g, k);
  }

  lemma EncodeKeepsHeaderAndPadding(g: Geometry, buf: seq<byte>, pixels: seq<Pixel>)
    requires Consistent(g, buf, pixels)
    ensures forall k :: 0 <= k < |buf| && k < g.start ==> Encode(g, buf, pixels)[k] == buf[k]
    ensures forall k :: g.start <= k < g.End() && k < |buf| && (k - g.start) % g.RowSize() >= g.width * g.Channels() ==>
              Encode(g, buf, pixels)[k] == buf[k]
  {
    forall k | 0 <= k < |buf| && (k < g.start ||
                (g.start <= k < g.End() && (k - g.start) % g.RowSize() >= g.width * g.Channels()))
      ensures Encode(g, buf, pixels)[k] == buf[k]
    {
      HeaderAndPaddingHoldNoSlot(g, k);
    }
  }

  /** Decoding a channel and encoding it again gives back the disk byte. */
  lemma ChannelRoundTrip(buf: seq<byte>, o: nat, ch: nat, p: Pixel, c: nat)
    requires (ch == 3 || ch == 4) && o + ch <= |buf| && c < ch
    ensures ChannelByte(DecodeChannels(buf, o, ch, p), c) == buf[o + c]
  {
    DiskChannelOrder(buf, o, ch, p);
  }

  /** Encode right after decode returns the original buffer. */
  lemma DecodeThenEncode(g: Geometry, buf: seq<byte>, prior: seq<Pixel>)
    requires Consistent(g, buf, prior)
    ensures Encode(g, buf, Decode(g, buf, prior)) == buf
  {
    var pixels := Decode(g, buf, prior);
    var r := Encode(g, buf, pixels);
    forall k | 0 <= k < |buf|
      ensures r[k] == buf[k]
    {
      match g.SlotAt(k)
      case None =>
      case Some(s) =>
        var i := g.PixelIndex(s.x, s.y);
        IndexInRange(g, s.x, s.y);
        ChannelCount(g);
        PixelInBounds(g, s.x, s.y);
        ChannelRoundTrip(buf, g.Offset(s.x, s.y), g.Channels(), prior[i], s.c);
    }
  }

  /** Pixel i decoded from the encoded buffer is pixel i. */
  lemma EncodeThenDecodePixel(g: Geometry, buf: seq<byte>, pixels: seq<Pixel>, i: nat)
    requires Consistent(g, buf, pixels) && i < |pixels|
    ensures Decode(g, Encode(g, buf, pixels), pixels)[i] == pixels[i]
  {
    var enc := Encode(g, buf, pixels);
    IndexSplit(g, i);
    var x, y := i % g.width, i / g.width;
    assert g.PixelIndex(x, y) == i;
    DecodeReadsDisk(g, enc, pixels, x, y);
    ChannelCount(g);
    OffsetRowMajor(g, x, y);
    ChannelToOffsetNamesFields(pixels[i]);
    EncodeWritesSlot(g, buf, pixels, Slot(x, y, Blue));
    EncodeWritesSlot(g, buf, pixels, Slot(x, y, Green));
    EncodeWritesSlot(g, buf, pixels, Slot(x, y, Red));
    if g.depth == 32 {
      EncodeWritesSlot(g, buf, pixels, Slot(x, y, Alpha));
    }
  }

  /** Decoding the encoded buffer over the same pixels gives those pixels
      back (24-bit alpha is never read, so it survives from the pixels). */
  lemma EncodeThenDecode(g: Geometry, buf: seq<byte>, pixels: seq<Pixel>)
    requires Consistent(g, buf, pixels)
    ensures Decode(g, Encode(g, buf, pixels), pixels) == pixels
  {
    var r := Decode(g, Encode(g, buf, pixels), pixels);
    forall i | 0 <= i < |pixels|
      ensures r[i] == pixels[i]
    {
      EncodeThenDecodePixel(g, buf, pixels, i);
    }
  }

  /** Encoding twice with unchanged pixels changes nothing more. */
  lemma EncodeIdempotent(g: Geometry, buf: seq<byte>, pixels: seq<Pixel>)
    requires Consistent(g, buf, pixels)
    ensures Encode(g, Encode(g, buf, pixels), pixels) == Encode(g, buf, pixels)
  {
    var once := Encode(g, buf, pixels);
    var twice := Encode(g, once, pixels);
    forall k | 0 <= k < |buf|
      ensures twice[k] == once[k]
    {
    }
  }

  // ---------------------------------------------------------------------
  // The nested loops of `_map`.

  /** The pixel array once `_get_pixel` has filled every pixel before `done`
      and the channels before `c` of pixel `done`. */
  function DecodeUpTo(g: Geometry, buf: seq<byte>, prior: seq<Pixel>, done: nat, c: nat): (r: seq<Pixel>)
    requires Consistent(g, buf, prior) && c <= g.Channels()
    ensures |r| == |prior|
  {
    seq(|prior|, i requires 0 <= i < |prior| =>
      var n := if i < done then g.Channels() else if i == done then c else 0;
      DecodePixelAt(g, buf, prior[i], i, n))
  }

  /** `_get_pixel(bmp, index, offset, channel)`: reads the one byte at
      `offset + channel` and stores it into the struct byte `channel2offset`
      names. */
  function GetPixel(buf: seq<byte>, pixels: seq<Pixel>, index: nat, offset: nat, channel: nat): (r: seq<Pixel>)
    requires index < |pixels| && channel < PixelSize && offset + channel < |buf|
    ensures |r| == |pixels|
    ensures r[index] == (var p, v := pixels[index], buf[offset + channel];
      if channel == Blue then p.(blue := v)
      else if channel == Green then p.(green := v)
      else if channel == Red then p.(red := v)
      else p.(alpha := v))
    ensures forall j :: 0 <= j < |pixels| && j != index ==> r[j] == pixels[j]
  {
    Header.LittleEndianOfOne(buf[offset + channel..offset + channel + 1]);
    var value := Header.GetInt(buf, offset + channel, 1) as byte;
    pixels[index := WithPixelByte(pixels[index], ChannelToOffset(channel), value)]
  }

  /** `_update_file_byte_contents(bmp, index, offset, channel)`. */
  function UpdateFileByteContents(buf: seq<byte>, pixels: seq<Pixel>, index: nat, offset: nat, channel: nat): (r: seq<byte>)
    requires index < |pixels| && channel < PixelSize && offset + channel < |buf|
    ensures |r| == |buf|
    ensures r[offset + channel] == (var p := pixels[index];
      if channel == Blue then p.blue
      else if channel == Green then p.green
      else if channel == Red then p.red
      else p.alpha)
    ensures forall k :: 0 <= k < |buf| && k != offset + channel ==> r[k] == buf[k]
  {
    buf[offset + channel := ChannelByte(pixels[index], channel)]
  }

  lemma DecodeUpToStep(g: Geometry, buf: seq<byte>, prior: seq<Pixel>, x: nat, y: nat, c: nat)
    requires Consistent(g, buf, prior) && x < g.width && y < g.height && c < g.Channels()
    ensures g.PixelIndex(x, y) < |prior| && 0 <= g.Offset(x, y) && g.Position(Slot(x, y, c)) < |buf|
    ensures DecodeUpTo(g, buf, prior, g.PixelIndex(x, y), c + 1) ==
      GetPixel(buf, DecodeUpTo(g, buf, prior, g.PixelIndex(x, y), c), g.PixelIndex(x, y),
               g.Offset(x, y), c)
  {
    var j := g.PixelIndex(x, y);
    IndexInRange(g, x, y);
    PixelInBounds(g, x, y);
    var a := DecodeUpTo(g, buf, prior, j, c + 1);
    var b := DecodeUpTo(g, buf, prior, j, c);
    assert a[j] == WithPixelByte(b[j], ChannelToOffset(c), buf[g.Position(Slot(x, y, c))]);
    assert a == b[j := a[j]];
  }

  lemma DecodeUpToNextPixel(g: Geometry, buf: seq<byte>, prior: seq<Pixel>, j: nat)
    requires Consistent(g, buf, prior)
    ensures DecodeUpTo(g, buf, prior, j, g.Channels()) == DecodeUpTo(g, buf, prior, j + 1, 0)
  {
  }

  lemma DecodeUpToEnds(g: Geometry, buf: seq<byte>, prior: seq<Pixel>)
    requires Consistent(g, buf, prior)
    ensures DecodeUpTo(g, buf, prior, 0, 0) == prior
    ensures DecodeUpTo(g, buf, prior, |prior|, 0) == Decode(g, buf, prior)
  {
  }

  /** The channel loop of `_map` for one pixel, with `_get_pixel`. */
  method GetPixelChannels(g: Geometry, buf: seq<byte>, prior: seq<Pixel>, pixels: seq<Pixel>,
                          x: nat, y: nat, index: nat, offset: int) returns (out: seq<Pixel>)
    requires Consistent(g, buf, prior) && x < g.width && y < g.height
    requires index == g.PixelIndex(x, y) && offset == g.Offset(x, y)
    requires pixels == DecodeUpTo(g, buf, prior, index, 0)
    ensures out == DecodeUpTo(g, buf, prior, index + 1, 0)
  {
    ChannelCount(g);
    PixelInBounds(g, x, y);
    var channels := g.depth / BitsPerByte;
    out := pixels;
    var c := 0;
    while c < channels
      invariant c <= channels
      invariant out == DecodeUpTo(g, buf, prior, index, c)
    {
      DecodeUpToStep(g, buf, prior, x, y, c);
      out := GetPixel(buf, out, index, offset, c);
      c := c + 1;
    }
    DecodeUpToNextPixel(g, buf, prior, index);
  }

  /** The column loop of `_map` for row `y`, with `_get_pixel`. */
  method GetPixelRow(g: Geometry, buf: seq<byte>, prior: seq<Pixel>, pixels: seq<Pixel>, y: nat)
    returns (out: seq<Pixel>)
    requires Consistent(g, buf, prior) && y < g.height
    requires pixels == DecodeUpTo(g, buf, prior, y * g.width, 0)
    ensures out == DecodeUpTo(g, buf, prior, (y + 1) * g.width, 0)
  {
    var channels := g.depth / BitsPerByte;
    var rowSize := ((g.depth * g.width + 31) / 32) * 4;
    var padding := rowSize - g.width * channels;
    out := pixels;
    var x := 0;
    while x < g.width
      invariant x <= g.width
      invariant out == DecodeUpTo(g, buf, prior, y * g.width + x, 0)
    {
      var index := y * g.width + x;
      var offset := g.start + index * channels + y * padding;
      out := GetPixelChannels(g, buf, prior, out, x, y, index, offset);
      x := x + 1;
    }
    MulSucc(y, g.width);
  }

  /** `_populate_pixel_array` as the library runs it: `_map` with `_get_pixel`. */
  method PopulatePixelArray(g: Geometry, buf: seq<byte>, prior: seq<Pixel>) returns (pixels: seq<Pixel>)
    requires Consistent(g, buf, prior)
    ensures pixels == Decode(g, buf, prior)
  {
    pixels := prior;
    DecodeUpToEnds(g, buf, prior);
    var y := 0;
    while y < g.height
      invariant y <= g.height
      invariant pixels == DecodeUpTo(g, buf, prior, y * g.width, 0)
    {
      pixels := GetPixelRow(g, buf, prior, pixels, y);
      y := y + 1;
    }
    assert y * g.width == g.PixelCount();
  }

  /** The buffer once `_update_file_byte_contents` has written every channel
      of the pixels before `done` and the channels before `c` of pixel `done`. */
  function EncodeUpTo(g: Geometry, buf: seq<byte>, pixels: seq<Pixel>, done: nat, c: nat): (r: seq<byte>)
    requires Consistent(g, buf, pixels)
    ensures |r| == |buf|
  {
    seq(|buf|, k requires 0 <= k < |buf| => EncodedByteUpTo(g, buf, pixels, k, done, c))
  }

  lemma EncodeUpToStep(g: Geometry, buf: seq<byte>, pixels: seq<Pixel>, x: nat, y: nat, c: nat)
    requires Consistent(g, buf, pixels) && x < g.width && y < g.height && c < g.Channels()
    ensures g.PixelIndex(x, y) < |pixels| && 0 <= g.Offset(x, y) && g.Position(Slot(x, y, c)) < |buf|
    ensures EncodeUpTo(g, buf, pixels, g.PixelIndex(x, y), c + 1) ==
      UpdateFileByteContents(EncodeUpTo(g, buf, pixels, g.PixelIndex(x, y), c), pixels,
                             g.PixelIndex(x, y), g.Offset(x, y), c)
  {
    var s := Slot(x, y, c);
    var j := g.PixelIndex(x, y);
    IndexInRange(g, x, y);
    PixelInBounds(g, x, y);
    PositionInBounds(g, s);
    SlotAtPosition(g, s);
    var a := EncodeUpTo(g, buf, pixels, j, c + 1);
    var b := EncodeUpTo(g, buf, pixels, j, c);
    forall k | 0 <= k < |buf|
      ensures a[k] == b[g.Position(s) := ChannelByte(pixels[j], c)][k]
    {
      if k != g.Position(s) {
        match g.SlotAt(k)
        case None =>
        case Some(t) =>
          if g.PixelIndex(t.x, t.y) == j && t.c == c {
            PixelIndexInjective(g, t.x, t.y, x, y);
          }
      }
    }
  }

  lemma EncodeUpToEnds(g: Geometry, buf: seq<byte>, pixels: seq<Pixel>)
    requires Consistent(g, buf, pixels)
    ensures EncodeUpTo(g, buf, pixels, 0, 0) == buf
    ensures EncodeUpTo(g, buf, pixels, |pixels|, 0) == Encode(g, buf, pixels)
  {
    var a := EncodeUpTo(g, buf, pixels, 0, 0);
    forall k | 0 <= k < |buf|
      ensures a[k] == buf[k]
    {
    }
  }

  lemma EncodeUpToNextPixel(g: Geometry, buf: seq<byte>, pixels: seq<Pixel>, j: nat)
    requires Consistent(g, buf, pixels)
    ensures EncodeUpTo(g, buf, pixels, j, g.Channels()) == EncodeUpTo(g, buf, pixels, j + 1, 0)
  {
    var a := EncodeUpTo(g, buf, pixels, j, g.Channels());
    var b := EncodeUpTo(g, buf, pixels, j + 1, 0);
    forall k | 0 <= k < |buf|
      ensures a[k] == b[k]
    {
    }
  }

  /** The channel loop of `_map` for one pixel, with `_update_file_byte_contents`. */
  method UpdatePixelChannels(g: Geometry, buf: seq<byte>, pixels: seq<Pixel>, cur: seq<byte>,
                             x: nat, y: nat, index: nat, offset: int) returns (out: seq<byte>)
    requires Consistent(g, buf, pixels) && x < g.width && y < g.height
    requires index == g.PixelIndex(x, y) && offset == g.Offset(x, y)
    requires cur == EncodeUpTo(g, buf, pixels, index, 0)
    ensures out == EncodeUpTo(g, buf, pixels, index + 1, 0)
  {
    ChannelCount(g);
    PixelInBounds(g, x, y);
    var channels := g.depth / BitsPerByte;
    out := cur;
    var c := 0;
    while c < channels
      invariant c <= channels
      invariant out == EncodeUpTo(g, buf, pixels, index, c)
    {
      EncodeUpToStep(g, buf, pixels, x, y, c);
      out := UpdateFileByteContents(out, pixels, index, offset, c);
      c := c + 1;
    }
    EncodeUpToNextPixel(g, buf, pixels, index);
  }

  /** The column loop of `_map` for row `y`, with `_update_file_byte_contents`. */
  method UpdatePixelRow(g: Geometry, buf: seq<byte>, pixels: seq<Pixel>, cur: seq<byte>, y: nat)
    returns (out: seq<byte>)
    requires Consistent(g, buf, pixels) && y < g.height
    requires cur == EncodeUpTo(g, buf, pixels, y * g.width, 0)
    ensures out == EncodeUpTo(g, buf, pixels, (y + 1) * g.width, 0)
  {
    var channels := g.depth / BitsPerByte;
    var rowSize := ((g.depth * g.width + 31) / 32) * 4;
    var padding := rowSize - g.width * channels;
    out := cur;
    var x := 0;
    while x < g.width
      invariant x <= g.width
      invariant out == EncodeUpTo(g, buf, pixels, y * g.width + x, 0)
    {
      var index := y * g.width + x;
      var offset := g.start + index * channels + y * padding;
      out := UpdatePixelChannels(g, buf, pixels, out, x, y, index, offset);
      x := x + 1;
    }
    MulSucc(y, g.width);
  }

  /** The encode pass of `bmp_write` as the library runs it: `_map` with
      `_update_file_byte_contents`. */
  method SyncFileBytes(g: Geometry, buf: seq<byte>, pixels: seq<Pixel>) returns (out: seq<byte>)
    requires Consistent(g, buf, pixels)
    ensures out == Encode(g, buf, pixels)
  {
    out := buf;
    EncodeUpToEnds(g, buf, pixels);
    var y := 0;
    while y < g.height
      invariant y <= g.height
      invariant out == EncodeUpTo(g, buf, pixels, y * g.width, 0)
    {
      out := UpdatePixelRow(g, buf, pixels, out, y);
      y := y + 1;
    }
    assert y * g.width == g.PixelCount();
  }
}
