/**
 The public interface of the library: an image value with the fields of the
 `BMP` struct, opening it from the bytes of a file, resynchronising the bytes
 before they are written, deep copies, pixel accessors and the flat exports.
 */
module Bmp {
  import opened BmpTypes
  import opened Header
  import opened Layout
  import opened PixelCodec
  import opened Export

  /** `BMP_PixelFormat`: the layouts `bmp_begin_as_arr` can export. */
  datatype PixelFormat = RGBA8 | RGB8

  /** The `BMP` struct. The byte count `_file_byte_number` is `|bytes|`. */
  datatype Image = Image(width: nat, height: nat, depth: nat, bytes: seq<byte>,
                         pixelArrayStart: nat, pixels: seq<Pixel>)
  {
    function Geom(): Geometry {
      Geometry(pixelArrayStart, width, height, depth)
    }

    /** What `bmp_open` establishes and every later operation relies on. */
    predicate Valid() {
      Consistent(Geom(), bytes, pixels)
    }
  }

  /** The geometry the header of `buf` declares. */
  function HeaderGeometry(buf: seq<byte>): Geometry
    requires |buf| >= HeaderSize
  {
    Geometry(PixelArrayStart(buf), Width(buf), Height(buf), Depth(buf))
  }

  /** `bmp_open` after the file has been read into `buf`. `heap(i)` is what
      the uninitialised pixel storage holds at pixel `i`. The signature is
      checked before the depth. A read the library would make past the end
      of the buffer is `Truncated` here: the second signature byte behind a
      first byte 'B', the header fields, and the channel bytes `_map` visits. */
  function Open(buf: seq<byte>, heap: int -> Pixel): (r: Result<Image>)
    ensures r.Ok? ==> r.value.Valid() && r.value.bytes == buf
  {
    if |buf| < 1 || (buf[0] == 'B' as byte && |buf| < 2) then Err(Truncated)
    else if !ValidateFileType(buf) then Err(InvalidFormat)
    else if |buf| < HeaderSize then Err(Truncated)
    else
      var start := PixelArrayStart(buf);
      var width := Width(buf);
      var height := Height(buf);
      var depth := Depth(buf);
      if !ValidateDepth(depth) then Err(UnsupportedDepth)
      else
        var g := Geometry(start, width, height, depth);
        if !g.FitsIn(|buf|) then Err(Truncated)
        else Ok(Image(width, height, depth, buf, start, Decode(g, buf, seq(g.PixelCount(), heap))))
  }

  /** Exactly the buffers that carry the signature, a supported depth and
      every channel byte of the pixel array open. The padding after the
      last row need not be present, and an image without pixels needs no
      pixel bytes at all. */
  lemma OpenAccepts(buf: seq<byte>, heap: int -> Pixel)
    ensures Open(buf, heap).Ok? <==>
      |buf| >= HeaderSize && ValidateFileType(buf) && ValidateDepth(Depth(buf))
      && HeaderGeometry(buf).FitsIn(|buf|)
  {
  }

  /** A wrong signature is reported whatever the depth field says, and
      whatever the length when the first byte is already wrong. */
  lemma OpenChecksSignatureFirst(buf: seq<byte>, heap: int -> Pixel)
    requires (|buf| >= 1 && buf[0] != 'B' as byte) || (|buf| >= 2 && buf[..2] != [0x42, 0x4D])
    ensures Open(buf, heap) == Err(InvalidFormat)
  {
  }

  /** Behind a valid signature, the depth is rejected exactly when it is neither 24 nor 32. */
  lemma OpenChecksDepth(buf: seq<byte>, heap: int -> Pixel)
    requires |buf| >= HeaderSize && ValidateFileType(buf)
    ensures Open(buf, heap) == Err(UnsupportedDepth) <==> Depth(buf) != 24 && Depth(buf) != 32
  {
  }

  /** A 1x1 24-bit file of 33 bytes, three channel bytes after a header
      that puts the pixel array at 30 and without the padding byte that
      would round the row up to four bytes, opens: `_map` reads only bytes
      30..32. */
  lemma OpenWithoutTrailingPadding(buf: seq<byte>, heap: int -> Pixel)
    requires |buf| == 33 && buf[0] == 0x42 && buf[1] == 0x4D
    requires buf[10] == 30 && buf[11] == 0 && buf[12] == 0 && buf[13] == 0
    requires buf[18] == 1 && buf[19] == 0 && buf[20] == 0 && buf[21] == 0
    requires buf[22] == 1 && buf[23] == 0 && buf[24] == 0 && buf[25] == 0
    requires buf[28] == 24 && buf[29] == 0
    ensures Open(buf, heap).Ok?
    ensures GetPixelRgb(Open(buf, heap).value, 0, 0) == (buf[32], buf[31], buf[30])
  {
    assert buf[..2] == [0x42, 0x4D];
    assert HeaderGeometry(buf) == Geometry(30, 1, 1, 24);
    OpenAccepts(buf, heap);
    OpenedPixel(buf, heap, 0, 0);
  }

  /** An opened image carries the header fields and the decoded pixel array. */
  lemma OpenReadsHeader(buf: seq<byte>, heap: int -> Pixel)
    requires Open(buf, heap).Ok?
    ensures var img := Open(buf, heap).value;
      img.Geom() == HeaderGeometry(buf) &&
      img.pixels == Decode(img.Geom(), buf, seq(img.Geom().PixelCount(), heap))
  {
  }

  /** `bmp_write` before the bytes go to the file: the encode pass of `_map`. */
  function Write(img: Image): (r: Image)
    requires img.Valid()
    ensures r.Valid() && |r.bytes| == |img.bytes|
    ensures r == img.(bytes := r.bytes)
  {
    img.(bytes := Encode(img.Geom(), img.bytes, img.pixels))
  }

  /** Opening a file and writing it back unmodified reproduces its bytes. */
  lemma OpenWriteRoundTrip(buf: seq<byte>, heap: int -> Pixel)
    requires Open(buf, heap).Ok?
    ensures Write(Open(buf, heap).value).bytes == buf
  {
    var img := Open(buf, heap).value;
    DecodeThenEncode(img.Geom(), buf, seq(img.Geom().PixelCount(), heap));
  }

  /** Writing again with unchanged pixels changes nothing. */
  lemma WriteIdempotent(img: Image)
    requires img.Valid()
    ensures Write(Write(img)) == Write(img)
  {
    EncodeIdempotent(img.Geom(), img.bytes, img.pixels);
  }

  /** The header passes through a write unchanged. */
  lemma WriteKeepsHeader(img: Image)
    requires img.Valid()
    ensures forall k :: 0 <= k < img.pixelArrayStart && k < |img.bytes| ==>
              Write(img).bytes[k] == img.bytes[k]
  {
    EncodeKeepsHeaderAndPadding(img.Geom(), img.bytes, img.pixels);
  }

  /** Decoding the written bytes over the image's own pixels gives those
      pixels back: every channel the file stores is read back, and at 24 bits
      alpha, which the file does not store, is kept from those pixels. */
  lemma WriteThenDecode(img: Image)
    requires img.Valid()
    ensures Decode(img.Geom(), Write(img).bytes, img.pixels) == img.pixels
  {
    EncodeThenDecode(img.Geom(), img.bytes, img.pixels);
  }

  /** `bmp_deep_copy`: every field copied, buffers included. */
  function DeepCopy(img: Image): (r: Image)
    ensures r.width == img.width && r.height == img.height && r.depth == img.depth
    ensures r.pixelArrayStart == img.pixelArrayStart
    ensures r.bytes == img.bytes && r.pixels == img.pixels
  {
    Image(img.width, img.height, img.depth, img.bytes, img.pixelArrayStart, img.pixels)
  }

  /** The caller of an accessor must stay inside the image. */
  predicate InBounds(img: Image, x: nat, y: nat) {
    |img.pixels| == img.Geom().PixelCount() && x < img.width && y < img.height
  }

  /** `bmp_get_pixel_rgb`: the colour of the pixel at the dense index of (x, y). */
  function GetPixelRgb(img: Image, x: nat, y: nat): (r: (byte, byte, byte))
    requires InBounds(img, x, y)
    ensures img.Geom().PixelIndex(x, y) < |img.pixels|
    ensures var p := img.pixels[img.Geom().PixelIndex(x, y)]; r == (p.red, p.green, p.blue)
  {
    IndexInRange(img.Geom(), x, y);
    var p := img.pixels[y * img.width + x];
    (p.red, p.green, p.blue)
  }

  /** `bmp_set_pixel_rgb`: only the colour of pixel (x, y) changes. */
  function SetPixelRgb(img: Image, x: nat, y: nat, r: byte, g: byte, b: byte): (out: Image)
    requires InBounds(img, x, y)
    ensures |out.pixels| == |img.pixels| && out == img.(pixels := out.pixels)
    ensures y * img.width + x < |img.pixels|
    ensures out.pixels[y * img.width + x] == Pixel(r, g, b, img.pixels[y * img.width + x].alpha)
    ensures forall j :: 0 <= j < |img.pixels| && j != y * img.width + x ==> out.pixels[j] == img.pixels[j]
  {
    IndexInRange(img.Geom(), x, y);
    var index := y * img.width + x;
    img.(pixels := img.pixels[index := img.pixels[index].(red := r, green := g, blue := b)])
  }

  /** Reading a pixel back after setting it gives the colour set; every
      other pixel reads as before. */
  lemma GetAfterSet(img: Image, x: nat, y: nat, r: byte, g: byte, b: byte, x': nat, y': nat)
    requires InBounds(img, x, y) && InBounds(img, x', y')
    ensures GetPixelRgb(SetPixelRgb(img, x, y, r, g, b), x', y') ==
            if x' == x && y' == y then (r, g, b) else GetPixelRgb(img, x', y')
  {
    var geom := img.Geom();
    var out := SetPixelRgb(img, x, y, r, g, b);
    var j, j' := geom.PixelIndex(x, y), geom.PixelIndex(x', y');
    IndexInRange(geom, x, y);
    IndexInRange(geom, x', y');
    if x' != x || y' != y {
      if j' == j {
        PixelIndexInjective(geom, x', y', x, y);
      }
      assert out.pixels[j'] == img.pixels[j'];
    }
  }

  /** After a pixel is set, writing changes only that pixel's channel bytes
      compared with writing the image as it was. */
  lemma WriteAfterSet(img: Image, x: nat, y: nat, r: byte, g: byte, b: byte)
    requires img.Valid() && InBounds(img, x, y)
    ensures SetPixelRgb(img, x, y, r, g, b).Valid()
    ensures var o := img.Geom().Offset(x, y);
      forall k :: 0 <= k < |img.bytes| && !(o <= k < o + img.Geom().Channels()) ==>
        Write(SetPixelRgb(img, x, y, r, g, b)).bytes[k] == Write(img).bytes[k]
  {
    var geom := img.Geom();
    var out := SetPixelRgb(img, x, y, r, g, b);
    var o := geom.Offset(x, y);
    var j := geom.PixelIndex(x, y);
    forall k | 0 <= k < |img.bytes| && !(o <= k < o + geom.Channels())
      ensures Write(out).bytes[k] == Write(img).bytes[k]
    {
      match geom.SlotAt(k)
      case None =>
      case Some(s) =>
        IndexInRange(geom, s.x, s.y);
        if geom.PixelIndex(s.x, s.y) == j {
          PixelIndexInjective(geom, s.x, s.y, x, y);
        } else {
          assert out.pixels[geom.PixelIndex(s.x, s.y)] == img.pixels[geom.PixelIndex(s.x, s.y)];
        }
    }
  }

  /** Pixel (x, y) of an opened image is read from the file bytes at
      start + y*row_size + x*channels: row 0 is the first row stored in
      the file, which BMP defines as the bottom row of the picture. */
  lemma OpenedPixel(buf: seq<byte>, heap: int -> Pixel, x: nat, y: nat)
    requires Open(buf, heap).Ok?
    requires x < Open(buf, heap).value.width && y < Open(buf, heap).value.height
    ensures var img := Open(buf, heap).value;
      var o := img.pixelArrayStart + y * img.Geom().RowSize() + x * img.Geom().Channels();
      InBounds(img, x, y) && 0 <= o && o + 2 < |buf| &&
      GetPixelRgb(img, x, y) == (buf[o + 2], buf[o + 1], buf[o])
  {
    var img := Open(buf, heap).value;
    DecodeReadsDisk(img.Geom(), buf, seq(img.Geom().PixelCount(), heap), x, y);
  }

  /** A 24-bit file has no alpha bytes: alpha keeps what the storage held. */
  lemma OpenedAlphaAt24(buf: seq<byte>, heap: int -> Pixel, i: nat)
    requires Open(buf, heap).Ok? && Open(buf, heap).value.depth == 24
    requires i < |Open(buf, heap).value.pixels|
    ensures Open(buf, heap).value.pixels[i].alpha == heap(i).alpha
  {
  }

  /** `bmp_begin_as_arr`. The matrix format has a single value and is not a parameter. */
  function BeginAsArr(img: Image, pf: PixelFormat): (r: seq<byte>)
    requires |img.pixels| == img.Geom().PixelCount()
    ensures |r| == (if pf == RGBA8 then 4 else 3) * img.Geom().PixelCount()
    ensures pf == RGBA8 ==> forall i :: 0 <= i < |img.pixels| ==>
              r[4 * i] == img.pixels[i].red && r[4 * i + 1] == img.pixels[i].green &&
              r[4 * i + 2] == img.pixels[i].blue && r[4 * i + 3] == img.pixels[i].alpha
    ensures pf == RGB8 ==> forall i :: 0 <= i < |img.pixels| ==>
              r[3 * i] == img.pixels[i].red && r[3 * i + 1] == img.pixels[i].green &&
              r[3 * i + 2] == img.pixels[i].blue
  {
    match pf
    case RGBA8 => Rgba8(img.pixels)
    case RGB8 => Rgb8(img.pixels)
  }
}
