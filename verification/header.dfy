/**
 The header parser: little-endian integers at the fixed offsets of the
 BITMAPFILEHEADER / BITMAPINFOHEADER pair, and the two validity checks.
 */
module Header {
  import opened BmpTypes
  import opened Arith

  const PixelArrayStartBytes: nat := 4
  const PixelArrayStartOffset: nat := 10
  const WidthBytes: nat := 4
  const WidthOffset: nat := 18
  const HeightBytes: nat := 4
  const HeightOffset: nat := 22
  const DepthBytes: nat := 2
  const DepthOffset: nat := 28

  /** The buffer must hold this many bytes before the header fields can be read. */
  const HeaderSize: nat := DepthOffset + DepthBytes

  /** The range of an `unsigned int`. */
  const Word: nat := 0x1_0000_0000

  function Pow256(n: nat): (r: nat)
    ensures r > 0
  {
    if n == 0 then 1 else 256 * Pow256(n - 1)
  }

  /** The value of `bs` read least-significant byte first, in Horner form. */
  function LittleEndian(bs: seq<byte>): (r: nat)
    ensures r < Pow256(|bs|)
  {
    if |bs| == 0 then 0 else bs[0] as nat + 256 * LittleEndian(bs[1..])
  }

  /** Reference definition: the sum of bs[i] * 256^i over every position i. */
  function WeightedSum(bs: seq<byte>): nat
  {
    if |bs| == 0 then 0
    else WeightedSum(bs[..|bs| - 1]) + bs[|bs| - 1] as nat * Pow256(|bs| - 1)
  }

  lemma {:induction false} WeightedSumFront(bs: seq<byte>)
    requires |bs| > 0
    ensures WeightedSum(bs) == bs[0] as nat + 256 * WeightedSum(bs[1..])
    decreases |bs|
  {
    var n := |bs|;
    if n == 1 {
      assert bs[1..] == [];
      assert bs[..0] == [];
    } else {
      var init := bs[..n - 1];
      WeightedSumFront(init);
      assert init[1..] == bs[1..][..n - 2];
      assert bs[1..][n - 2] == bs[n - 1];
      assert init[0] == bs[0];
      calc {
        WeightedSum(bs);
        WeightedSum(init) + bs[n - 1] as nat * Pow256(n - 1);
        bs[0] as nat + 256 * WeightedSum(init[1..]) + bs[n - 1] as nat * (256 * Pow256(n - 2));
        bs[0] as nat + 256 * (WeightedSum(bs[1..][..n - 2]) + bs[1..][n - 2] as nat * Pow256(n - 2));
        bs[0] as nat + 256 * WeightedSum(bs[1..]);
      }
    }
  }

  /** The Horner loop of the library computes the positional sum. */
  lemma {:induction false} LittleEndianIsWeightedSum(bs: seq<byte>)
    ensures LittleEndian(bs) == WeightedSum(bs)
    decreases |bs|
  {
    if |bs| > 0 {
      LittleEndianIsWeightedSum(bs[1..]);
      WeightedSumFront(bs);
    }
  }

  /** `_get_int_from_buffer` as a value: `bytes` bytes at `offset`. */
  function GetInt(buf: seq<byte>, offset: nat, bytes: nat): (r: nat)
    requires offset + bytes <= |buf|
    ensures r < Pow256(bytes)
  {
    LittleEndian(buf[offset..offset + bytes])
  }

  lemma LittleEndianOfOne(bs: seq<byte>)
    requires |bs| == 1
    ensures LittleEndian(bs) == bs[0] as nat
  {
    assert bs[1..] == [];
  }

  lemma LittleEndianOfTwo(bs: seq<byte>)
    requires |bs| == 2
    ensures LittleEndian(bs) == bs[0] as nat + 256 * bs[1] as nat
  {
    LittleEndianOfOne(bs[1..]);
  }

  lemma LittleEndianOfFour(bs: seq<byte>)
    requires |bs| == 4
    ensures LittleEndian(bs) ==
      bs[0] as nat + 256 * bs[1] as nat + 65536 * bs[2] as nat + 16777216 * bs[3] as nat
  {
    LittleEndianOfTwo(bs[2..]);
    assert bs[1..][1..] == bs[2..];
  }

  /** One step of the loop in 32-bit unsigned arithmetic. */
  lemma WrappedStep(v: nat, b: nat)
    ensures ((v % Word) * 256 % Word + b) % Word == (b + 256 * v) % Word
  {
    var x := (v % Word) * 256;
    ModOfMultiple(x, -(x / Word), Word);
    assert x % Word == x - (x / Word) * Word;
    ModOfMultiple(x + b, -(x / Word), Word);
    ModOfMultiple(b + 256 * (v % Word), 256 * (v / Word), Word);
    assert b + 256 * v == b + 256 * (v % Word) + 256 * (v / Word) * Word;
  }

  /** Prepending byte `buf[lo]` to the bytes already read is one shift and one add. */
  lemma HornerStep(buf: seq<byte>, lo: nat, hi: nat, value: nat)
    requires lo < hi <= |buf| && value == LittleEndian(buf[lo + 1..hi]) % Word
    ensures ((value * 256) % Word + buf[lo] as nat) % Word == LittleEndian(buf[lo..hi]) % Word
  {
    assert buf[lo..hi][1..] == buf[lo + 1..hi];
    WrappedStep(LittleEndian(buf[lo + 1..hi]), buf[lo] as nat);
  }

  /** `_get_int_from_buffer` as the library writes it: most significant byte
      first, shifting an `unsigned int` left by eight bits per byte. */
  method GetIntFromBuffer(bytes: nat, offset: nat, buffer: seq<byte>) returns (value: nat)
    requires offset + bytes <= |buffer|
    ensures value == LittleEndian(buffer[offset..offset + bytes]) % Word
    ensures bytes <= 4 ==> value == GetInt(buffer, offset, bytes)
  {
    value := 0;
    var i: int := bytes - 1;
    while i >= 0
      invariant -1 <= i < bytes
      invariant value == LittleEndian(buffer[offset + i + 1..offset + bytes]) % Word
    {
      HornerStep(buffer, offset + i, offset + bytes, value);
      value := (value * 256) % Word;
      value := (value + buffer[i + offset] as nat) % Word;
      i := i - 1;
    }
    if bytes <= 4 {
      PowMonotone(bytes, 4);
      assert Pow256(4) == Word;
    }
  }

  lemma {:induction false} PowMonotone(m: nat, n: nat)
    requires m <= n
    ensures Pow256(m) <= Pow256(n)
    decreases n
  {
    if m < n {
      PowMonotone(m, n - 1);
    }
  }

  /** `_validate_file_type`: the buffer starts with the signature "BM"
      (bytes 0x42, 0x4D). The second byte is read only when the first is 'B'. */
  predicate ValidateFileType(buf: seq<byte>): (ok: bool)
    requires |buf| >= 1 && (buf[0] == 'B' as byte ==> |buf| >= 2)
    ensures ok <==> |buf| >= 2 && buf[..2] == [0x42, 0x4D]
  {
    buf[0] == 'B' as byte && buf[1] == 'M' as byte
  }

  /** `_validate_depth`: only 24- and 32-bit images are supported, the
      depths whose pixels are three or four whole bytes. */
  predicate ValidateDepth(depth: nat): (ok: bool)
    ensures ok <==> depth % 8 == 0 && (depth / 8 == 3 || depth / 8 == 4)
  {
    depth == 24 || depth == 32
  }

  /** `_get_pixel_array_start`: bfOffBits, four bytes at offset 10. */
  function PixelArrayStart(buf: seq<byte>): (r: nat)
    requires |buf| >= HeaderSize
    ensures r == buf[10] as nat + 256 * buf[11] as nat + 65536 * buf[12] as nat
                 + 16777216 * buf[13] as nat
    ensures r < Word
  {
    LittleEndianOfFour(buf[10..14]);
    GetInt(buf, PixelArrayStartOffset, PixelArrayStartBytes)
  }

  /** `_get_width`: biWidth, four bytes at offset 18. */
  function Width(buf: seq<byte>): (r: nat)
    requires |buf| >= HeaderSize
    ensures r == buf[18] as nat + 256 * buf[19] as nat + 65536 * buf[20] as nat
                 + 16777216 * buf[21] as nat
    ensures r < Word
  {
    LittleEndianOfFour(buf[18..22]);
    GetInt(buf, WidthOffset, WidthBytes)
  }

  /** `_get_height`: biHeight, four bytes at offset 22. */
  function Height(buf: seq<byte>): (r: nat)
    requires |buf| >= HeaderSize
    ensures r == buf[22] as nat + 256 * buf[23] as nat + 65536 * buf[24] as nat
                 + 16777216 * buf[25] as nat
    ensures r < Word
  {
    LittleEndianOfFour(buf[22..26]);
    GetInt(buf, HeightOffset, HeightBytes)
  }

  /** `_get_depth`: biBitCount, two bytes at offset 28. */
  function Depth(buf: seq<byte>): (r: nat)
    requires |buf| >= HeaderSize
    ensures r == buf[28] as nat + 256 * buf[29] as nat
    ensures r < 65536
  {
    LittleEndianOfTwo(buf[28..30]);
    GetInt(buf, DepthOffset, DepthBytes)
  }
}
