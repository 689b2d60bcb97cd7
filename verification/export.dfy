/**
 The flat byte arrays `bmp_begin_as_arr` hands out: the pixel structs as
 they lie in memory, or a packed copy without the alpha bytes.
 */
module Export {
  import opened BmpTypes

  /** The pixel structs laid end to end, as `bmp_begin_as_arr` reinterprets them. */
  function Rgba8(pixels: seq<Pixel>): (r: seq<byte>)
    ensures |r| == PixelSize * |pixels|
    ensures forall i :: 0 <= i < |pixels| ==>
              r[4 * i] == pixels[i].red && r[4 * i + 1] == pixels[i].green &&
              r[4 * i + 2] == pixels[i].blue && r[4 * i + 3] == pixels[i].alpha
  {
    if |pixels| == 0 then []
    else PixelBytes(pixels[0]) + Rgba8(pixels[1..])
  }

  /** Red, green and blue of every pixel, the copy `bmp_begin_as_arr` makes. */
  function Rgb8(pixels: seq<Pixel>): (r: seq<byte>)
    ensures |r| == 3 * |pixels|
    ensures forall i :: 0 <= i < |pixels| ==>
              r[3 * i] == pixels[i].red && r[3 * i + 1] == pixels[i].green && r[3 * i + 2] == pixels[i].blue
  {
    if |pixels| == 0 then []
    else [pixels[0].red, pixels[0].green, pixels[0].blue] + Rgb8(pixels[1..])
  }

  /** Byte k of the RGBA8 export is struct byte k % 4 of pixel k / 4. */
  lemma Rgba8Byte(pixels: seq<Pixel>, k: nat)
    requires k < |Rgba8(pixels)|
    ensures k / PixelSize < |pixels| && Rgba8(pixels)[k] == PixelByte(pixels[k / PixelSize], k % PixelSize)
  {
    var j, m := k / 4, k % 4;
    assert k == 4 * j + m && 0 <= m < 4;
    assert j < |pixels|;
    var r, p := Rgba8(pixels), pixels[j];
    if m == 0 { assert r[k] == r[4 * j] == p.red; }
    else if m == 1 { assert r[k] == r[4 * j + 1] == p.green; }
    else if m == 2 { assert r[k] == r[4 * j + 2] == p.blue; }
    else { assert r[k] == r[4 * j + 3] == p.alpha; }
  }

  /** The RGB8 export is the RGBA8 export with every fourth byte dropped. */
  lemma Rgb8DropsAlpha(pixels: seq<Pixel>, k: nat)
    requires k < |Rgb8(pixels)|
    ensures 4 * (k / 3) + k % 3 < |Rgba8(pixels)|
    ensures Rgb8(pixels)[k] == Rgba8(pixels)[4 * (k / 3) + k % 3]
  {
    var j, m := k / 3, k % 3;
    assert k == 3 * j + m && 0 <= m < 3;
    assert j < |pixels|;
    var r, q, p := Rgb8(pixels), Rgba8(pixels), pixels[j];
    if m == 0 { assert r[k] == r[3 * j] == p.red == q[4 * j]; }
    else if m == 1 { assert r[k] == r[3 * j + 1] == p.green == q[4 * j + 1]; }
    else { assert r[k] == r[3 * j + 2] == p.blue == q[4 * j + 2]; }
  }

  /** The RGB8 copy loop of `bmp_begin_as_arr`. */
  method CopyRgb8(pixels: seq<Pixel>) returns (buf: seq<byte>)
    ensures buf == Rgb8(pixels)
  {
    buf := [];
    var i := 0;
    while i < |pixels|
      invariant i <= |pixels|
      invariant |buf| == 3 * i
      invariant forall j :: 0 <= j < i ==>
                  buf[3 * j] == pixels[j].red && buf[3 * j + 1] == pixels[j].green && buf[3 * j + 2] == pixels[j].blue
    {
      buf := buf + [pixels[i].red, pixels[i].green, pixels[i].blue];
      i := i + 1;
    }
    ghost var r := Rgb8(pixels);
    forall k | 0 <= k < |buf|
      ensures buf[k] == r[k]
    {
      var j, m := k / 3, k % 3;
      assert k == 3 * j + m && 0 <= m < 3;
      assert j < |pixels|;
      var p := pixels[j];
      if m == 0 { assert buf[k] == buf[3 * j] == p.red == r[3 * j]; }
      else if m == 1 { assert buf[k] == buf[3 * j + 1] == p.green == r[3 * j + 1]; }
      else { assert buf[k] == buf[3 * j + 2] == p.blue == r[3 * j + 2]; }
    }
  }
}
