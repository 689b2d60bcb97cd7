/**
 The value types shared by the BMP codec: bytes, the packed four-byte pixel
 struct, the mapping from on-disk channel numbers to struct bytes, and the
 error-carrying result type that replaces the library's process exit.
 */
module BmpTypes {

  /** An unsigned char. */
  newtype byte = x: int | 0 <= x < 256

  datatype Option<+T> = None | Some(value: T)

  /** Why an image could not be opened. `Truncated` stands for the reads past
      the end of the buffer that the library performs without checking. */
  datatype Error = InvalidFormat | UnsupportedDepth | Truncated

  datatype Result<+T> = Ok(value: T) | Err(error: Error)

  /** The packed pixel struct: red, green, blue, alpha, in that byte order. */
  datatype Pixel = Pixel(red: byte, green: byte, blue: byte, alpha: byte)

  /** Size in bytes of the packed pixel struct. */
  const PixelSize: nat := 4

  /** Byte `k` of the packed struct, i.e. the field at `offsetof` k. */
  function PixelByte(p: Pixel, k: nat): byte
    requires k < PixelSize
  {
    if k == 0 then p.red
    else if k == 1 then p.green
    else if k == 2 then p.blue
    else p.alpha
  }

  /** The struct with byte `k` overwritten by `v`. */
  function WithPixelByte(p: Pixel, k: nat, v: byte): (r: Pixel)
    requires k < PixelSize
    ensures PixelByte(r, k) == v
    ensures forall j :: 0 <= j < PixelSize && j != k ==> PixelByte(r, j) == PixelByte(p, j)
  {
    if k == 0 then p.(red := v)
    else if k == 1 then p.(green := v)
    else if k == 2 then p.(blue := v)
    else p.(alpha := v)
  }

  /** The four struct bytes in memory order. */
  function PixelBytes(p: Pixel): (r: seq<byte>)
    ensures r == [p.red, p.green, p.blue, p.alpha]
  {
    seq(PixelSize, k requires 0 <= k < PixelSize => PixelByte(p, k))
  }

  // Channel numbers, in the order the channels are stored on disk.
  const Blue: nat := 0
  const Green: nat := 1
  const Red: nat := 2
  const Alpha: nat := 3

  /** `channel2offset`: the struct byte that holds disk channel `c`. */
  function ChannelToOffset(c: nat): (k: nat)
    requires c < PixelSize
    ensures k < PixelSize
  {
    if c == Red then 0
    else if c == Green then 1
    else if c == Blue then 2
    else 3
  }

  /** The table sends each disk channel to the struct field of the same
      colour, and so is a permutation of the four struct bytes. */
  lemma ChannelToOffsetNamesFields(p: Pixel)
    ensures PixelByte(p, ChannelToOffset(Blue)) == p.blue
    ensures PixelByte(p, ChannelToOffset(Green)) == p.green
    ensures PixelByte(p, ChannelToOffset(Red)) == p.red
    ensures PixelByte(p, ChannelToOffset(Alpha)) == p.alpha
    ensures forall c, d :: 0 <= c < PixelSize && 0 <= d < PixelSize && c != d ==>
                             ChannelToOffset(c) != ChannelToOffset(d)
  {
  }
}
