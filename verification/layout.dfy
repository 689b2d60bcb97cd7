/**
 The pixel-array layout computed by `_map`: how many bytes a pixel takes on
 disk, how long a padded row is, and where channel `c` of pixel (x, y) lives.
 */
module Layout {
  import opened BmpTypes
  import opened Arith
  import Header

  const BitsPerByte: nat := 8

  /** One channel of one pixel: column x, row y, disk channel c. */
  datatype Slot = Slot(x: nat, y: nat, c: nat)

  /** The header fields that `_map` reads. */
  datatype Geometry = Geometry(start: nat, width: nat, height: nat, depth: nat) {

    predicate ValidDepth() {
      Header.ValidateDepth(depth)
    }

    /** Bytes per pixel on disk: the whole bytes in `depth` bits. */
    function Channels(): (r: nat)
      ensures r * BitsPerByte <= depth < r * BitsPerByte + BitsPerByte
    {
      depth / BitsPerByte
    }

    /** Bytes per row on disk: the least multiple of four bytes that holds
        `depth * width` bits. */
    function RowSize(): (r: nat)
      ensures r % 4 == 0 && depth * width <= BitsPerByte * r < depth * width + 32
    {
      ((depth * width + 31) / 32) * 4
    }

    /** Bytes after the last pixel of each row: 0 at 32 bits, `width % 4` at 24. */
    function Padding(): (r: int)
      ensures ValidDepth() ==> 0 <= r <= 3
      ensures depth == 32 ==> r == 0
      ensures depth == 24 ==> r == width % 4
    {
      RowPadding(depth, width);
      RowSize() - width * Channels()
    }

    /** Position of pixel (x, y) in the dense row-major pixel array. */
    function PixelIndex(x: nat, y: nat): nat {
      y * width + x
    }

    /** Number of pixels in the dense array. */
    function PixelCount(): nat {
      width * height
    }

    /** The byte offset `_map` hands to its callback for pixel (x, y): whole
        padded rows first, then whole pixels. No row is flipped. */
    function Offset(x: nat, y: nat): (r: int)
      ensures r == start + y * RowSize() + x * Channels()
    {
      RowMajor(start, x, y, width, Channels(), RowSize());
      start + PixelIndex(x, y) * Channels() + y * Padding()
    }

    /** The buffer byte that holds a slot. */
    function Position(s: Slot): int {
      Offset(s.x, s.y) + s.c
    }

    predicate InImage(s: Slot) {
      s.x < width && s.y < height && s.c < Channels()
    }

    /** One past the last byte of the pixel array, padding of the last row included. */
    function End(): nat {
      start + RowSize() * height
    }

    /** One past the last byte `_map` visits: the end of the last pixel of the
        last row. The padding after it is never touched. */
    function LastRowEnd(): int {
      start + (height - 1) * RowSize() + width * Channels()
    }

    /** A buffer of `n` bytes holds every byte `_map` visits. */
    predicate FitsIn(n: nat) {
      width == 0 || height == 0 || LastRowEnd() <= n
    }

    /** The slot stored at buffer byte `k`, if any: the inverse of `Position`. */
    function SlotAt(k: int): (r: Option<Slot>)
      requires ValidDepth()
      ensures r.Some? ==> InImage(r.value) && Position(r.value) == k
    {
      if k < start || k >= End() then None
      else
        var rel := k - start;
        SplitBelow(rel, RowSize(), height);
        var y := rel / RowSize();
        var col := rel % RowSize();
        if col >= width * Channels() then None
        else
          SplitBelow(col, Channels(), width);
          var s := Slot(col / Channels(), y, col % Channels());
          OffsetRowMajor(this, s.x, s.y);
          Some(s)
    }
  }

  lemma ChannelCount(g: Geometry)
    requires g.ValidDepth()
    ensures g.Channels() == 3 || g.Channels() == 4
    ensures g.Channels() == 4 <==> g.depth == 32
  {
  }

  lemma IndexInRange(g: Geometry, x: nat, y: nat)
    requires x < g.width && y < g.height
    ensures g.PixelIndex(x, y) < g.PixelCount()
    ensures g.PixelIndex(x, y) % g.width == x && g.PixelIndex(x, y) / g.width == y
  {
    DigitsBelow(y, x, g.width, g.height);
    DivModUnique(g.PixelIndex(x, y), g.width, y, x);
  }

  /** Distinct pixels have distinct indices in the dense array. */
  lemma PixelIndexInjective(g: Geometry, x: nat, y: nat, x': nat, y': nat)
    requires x < g.width && x' < g.width && y < g.height && y' < g.height
    requires g.PixelIndex(x, y) == g.PixelIndex(x', y')
    ensures x == x' && y == y'
  {
    IndexInRange(g, x, y);
    IndexInRange(g, x', y');
  }

  /** Every index of the dense array is the index of exactly one (x, y). */
  lemma IndexSplit(g: Geometry, i: nat)
    requires i < g.PixelCount()
    ensures g.width > 0 && 0 <= i % g.width < g.width && 0 <= i / g.width < g.height
    ensures g.PixelIndex(i % g.width, i / g.width) == i
  {
    SplitBelow(i, g.width, g.height);
  }

  /** The literal offset formula is the row-major one: whole padded rows
      first, then whole pixels. No row is flipped. */
  lemma OffsetRowMajor(g: Geometry, x: nat, y: nat)
    ensures g.Offset(x, y) == g.start + y * g.RowSize() + x * g.Channels()
  {
  }

  /** Row size and padding for the two supported depths. */
  lemma RowFacts(g: Geometry)
    requires g.ValidDepth()
    ensures g.Channels() == 3 || g.Channels() == 4
    ensures g.Channels() * BitsPerByte == g.depth
    ensures g.RowSize() % 4 == 0
    ensures g.RowSize() >= g.width * g.Channels()
    ensures 0 <= g.Padding() <= 3
    ensures g.depth == 32 ==> g.Padding() == 0
    ensures g.depth == 24 ==> g.Padding() == g.width % 4
  {
  }

  /** All channel bytes of pixel (x, y) lie inside the pixel array, before
      the end of the last pixel of the last row. */
  lemma PixelInBounds(g: Geometry, x: nat, y: nat)
    requires g.ValidDepth() && x < g.width && y < g.height
    ensures g.start <= g.Offset(x, y)
    ensures g.Offset(x, y) + g.Channels() <= g.LastRowEnd() <= g.End()
  {
    RowFacts(g);
    CellBelowLast(g.start, x, y, g.width, g.height, g.Channels(), g.RowSize());
  }

  /** Every slot of the image lies inside the pixel array. */
  lemma PositionInBounds(g: Geometry, s: Slot)
    requires g.ValidDepth() && g.InImage(s)
    ensures g.start <= g.Position(s) < g.LastRowEnd() <= g.End()
  {
    PixelInBounds(g, s.x, s.y);
  }

  /** `SlotAt` recovers every slot from its position. */
  lemma SlotAtPosition(g: Geometry, s: Slot)
    requires g.ValidDepth() && g.InImage(s)
    ensures g.SlotAt(g.Position(s)) == Some(s)
  {
    RowFacts(g);
    PositionInBounds(g, s);
    OffsetRowMajor(g, s.x, s.y);
    var ch, R := g.Channels(), g.RowSize();
    var col := s.x * ch + s.c;
    DigitsBelow(s.x, s.c, ch, g.width);
    DivModUnique(g.Position(s) - g.start, R, s.y, col);
    DivModUnique(col, ch, s.x, s.c);
  }

  /** Distinct slots occupy distinct bytes. */
  lemma PositionInjective(g: Geometry, s: Slot, t: Slot)
    requires g.ValidDepth() && g.InImage(s) && g.InImage(t)
    requires g.Position(s) == g.Position(t)
    ensures s == t
  {
    SlotAtPosition(g, s);
    SlotAtPosition(g, t);
  }

  /** A byte holds no slot exactly when no slot of the image is stored there. */
  lemma SlotAtNone(g: Geometry, k: int)
    requires g.ValidDepth()
    ensures g.SlotAt(k) == None <==> forall s :: g.InImage(s) ==> g.Position(s) != k
  {
    if g.SlotAt(k) == None {
      forall s | g.InImage(s)
        ensures g.Position(s) != k
      {
        SlotAtPosition(g, s);
      }
    }
  }

  /** Header bytes and row padding are never slots. */
  lemma HeaderAndPaddingHoldNoSlot(g: Geometry, k: int)
    requires g.ValidDepth()
    requires k < g.start
          || (g.start <= k < g.End() && (k - g.start) % g.RowSize() >= g.width * g.Channels())
    ensures g.SlotAt(k) == None
  {
  }
}
