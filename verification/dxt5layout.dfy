/**
 * The image `DXT5Decompress` returns when both dimensions are positive
 * multiples of 4: the row stride `4 * blockW + 3 * width` is then `4 * width`,
 * every index of `result` receives a pixel, and pixel `(x, y)` of the block in
 * block row `brow` and block column `bcol` (the source's `by` and `bx`) lands at
 * `(4 * brow + y) * width + 4 * bcol + x`, as in an ordinary row-major RGBA image
 * of `width * height` pixels.
 */
module Dxt5Layout {
  import opened Wrappers
  import opened ByteView
  import opened Arith
  import opened Dxt5Block
  import opened Dxt5Image

  /** Channel `c` of a colour, in the order the flattened bytes take. */
  function Channel(p: Rgba, c: int): int {
    if c == 0 then p.r else if c == 1 then p.g else if c == 2 then p.b else p.a
  }

  /** Every channel of a decoded pixel passes the `Uint8Array` conversion unchanged. */
  lemma ChannelByte(blk: Block, i: int, c: int)
    requires 0 <= i < 16
    ensures Uint8(Channel(PixelOf(blk, i), c)) == Channel(PixelOf(blk, i), c)
  {
    PixelBounds(blk, i);
    var p := PixelOf(blk, i);
    assert 0 <= p.r < 256 && 0 <= p.g < 256 && 0 <= p.b < 256 && 0 <= p.a < 256;
    ByteChannel(p, c);
  }

  lemma ByteChannel(p: Rgba, c: int)
    requires 0 <= p.r < 256 && 0 <= p.g < 256 && 0 <= p.b < 256 && 0 <= p.a < 256
    ensures Uint8(Channel(p, c)) == Channel(p, c)
  {
  }

  predicate NoHoles(px: seq<Option<Rgba>>) {
    forall j :: 0 <= j < |px| ==> px[j].Some?
  }

  /** Without holes every slot flattens to four bytes. */
  lemma {:induction false} ImageLength(px: seq<Option<Rgba>>)
    requires NoHoles(px)
    ensures |ImageBytes(px)| == 4 * |px|
    decreases |px|
  {
    if |px| > 0 {
      ImageLength(px[1..]);
    }
  }

  /** Without holes slot `j` becomes bytes `4 * j` to `4 * j + 3`, one per channel, each modulo 256. */
  lemma {:induction false} ImageBytesAt(px: seq<Option<Rgba>>, j: int, c: int)
    requires NoHoles(px) && 0 <= j < |px| && 0 <= c < 4
    ensures 4 * j + c < |ImageBytes(px)|
    ensures ImageBytes(px)[4 * j + c] == Uint8(Channel(px[j].value, c))
    decreases |px|
  {
    ImageLength(px);
    ImageLength(px[1..]);
    if j > 0 {
      ImageBytesAt(px[1..], j - 1, c);
      assert ImageBytes(px) == PixelBytes(px[0]) + ImageBytes(px[1..]);
    }
  }

  /** Byte `at` exists and is `v`. */
  predicate ShowsAt(bytes: seq<byte>, at: int, v: int) {
    0 <= at < |bytes| && bytes[at] == v
  }

  /** A slot of a picture without holes that holds `p`, seen in the flattened bytes. */
  lemma SlotBytes(px: seq<Option<Rgba>>, k: int, c: int, p: Rgba)
    requires NoHoles(px) && 0 <= k < |px| && px[k] == Some(p) && 0 <= c < 4
    requires Uint8(Channel(p, c)) == Channel(p, c)
    ensures |ImageBytes(px)| == 4 * |px|
    ensures ShowsAt(ImageBytes(px), 4 * k + c, Channel(p, c))
  {
    ImageLength(px);
    ImageBytesAt(px, k, c);
  }

  /** Image dimensions that are positive multiples of 4. */
  predicate Aligned(width: i32, height: i32) {
    width > 0 && height > 0 && width % 4 == 0 && height % 4 == 0
  }

  /** With `width == 4 * blockW` an index below `blockH` strides splits into a row of blocks,
      a line, a column of blocks and a column, as `targ2I` is built from them. */
  lemma SplitIndex(k: int, width: int, blockW: int, blockH: int) returns (brow: int, bcol: int, y: int, x: int)
    requires width > 0 && width == 4 * blockW
    requires 0 <= k < blockH * (4 * blockW + 3 * width)
    ensures 0 <= brow < blockH && 0 <= bcol < blockW && 0 <= y < 4 && 0 <= x < 4
    ensures k == brow * (4 * blockW + 3 * width) + 4 * bcol + y * width + x
  {
    var s := 4 * blockW + 3 * width;
    assert s == 4 * width;
    var r, c := k % s, 0;
    brow := k / s;
    y, c := r / width, r % width;
    bcol, x := c / 4, c % 4;
    assert k == brow * s + r && 0 <= r < s;
    assert r == y * width + c && 0 <= c < width;
    assert c == 4 * bcol + x && 0 <= x < 4;
    if brow >= blockH {
      MulLe(blockH, brow, s);
      assert false;
    }
    if brow < 0 {
      MulGrows(-brow, s);
      assert false;
    }
    if y >= 4 {
      MulLe(4, y, width);
      assert false;
    }
    if y < 0 {
      MulGrows(-y, width);
      assert false;
    }
  }

  /** With an aligned width every index below `blockH` strides is where some pixel is stored. */
  lemma Covered(d: Dims, k: int)
    requires d.width > 0 && d.width == 4 * d.blockW
    requires 0 <= k < d.blockH * Stride(d)
    ensures Locate(d, k).Some?
  {
    var brow, bcol, y, x := SplitIndex(k, d.width, d.blockW, d.blockH);
    assert Valid(d, Px(brow, bcol, y, x));
  }

  /** With an aligned width the stored index is the row-major pixel index. */
  lemma RowMajor(w: int, blockW: int, brow: int, bcol: int, y: int, x: int)
    requires w == 4 * blockW
    ensures brow * (4 * blockW + 3 * w) + 4 * bcol + y * w + x == (4 * brow + y) * w + 4 * bcol + x
  {
    assert brow * (4 * w) == (4 * brow) * w;
    assert (4 * brow + y) * w == (4 * brow) * w + y * w;
  }

  /** The row-major index of pixel `(x, y)` of block `(bx, by)` (here `bcol`, `brow`). */
  function PixelIndex(width: int, brow: int, bcol: int, y: int, x: int): int {
    (4 * brow + y) * width + 4 * bcol + x
  }

  /** The number of block `(bx, by)` in reading order, `blockW` blocks to a row. */
  function BlockIndex(width: int, brow: int, bcol: int): int {
    brow * (width / 4) + bcol
  }

  /** An aligned image has `width * height` slots and no holes. */
  lemma AlignedSlots(data: seq<byte>, width: i32, height: i32)
    requires Aligned(width, height)
    ensures var px := ReferenceImage(data, width, height);
      |px| == width * height && NoHoles(px)
  {
    var d := DimsOf(width, height);
    assert d == Dims(width, width / 4, height / 4);
    var px := ReferenceImage(data, width, height);
    assert |px| == width * height by {
      assert |px| == d.blockH * Stride(d);
      assert Stride(d) == 4 * width && height == 4 * d.blockH;
      assert d.blockH * (4 * width) == (4 * d.blockH) * width;
    }
    forall k | 0 <= k < |px|
      ensures px[k].Some?
    {
      Covered(d, k);
    }
  }

  /** In an aligned image, slot `(4 * by + y) * width + 4 * bx + x` holds pixel `(x, y)` of block
      `(bx, by)` (here `bcol`, `brow`). */
  lemma AlignedSlot(data: seq<byte>, width: i32, height: i32, brow: int, bcol: int, y: int, x: int)
    requires Aligned(width, height)
    requires 0 <= brow < height / 4 && 0 <= bcol < width / 4 && 0 <= y < 4 && 0 <= x < 4
    ensures var px, k := ReferenceImage(data, width, height), PixelIndex(width, brow, bcol, y, x);
      0 <= k < |px| && px[k] == Some(PixelOf(BlockAt(data, BlockIndex(width, brow, bcol)), 4 * y + x))
  {
    var q := Px(brow, bcol, y, x);
    AlignedIdx(width, height, q);
    ReferenceAt(data, width, height, q);
  }

  /** In an aligned image the stored index of a pixel is its row-major index. */
  lemma AlignedIdx(width: i32, height: i32, q: Px)
    requires Aligned(width, height)
    requires 0 <= q.brow < height / 4 && 0 <= q.bcol < width / 4 && 0 <= q.y < 4 && 0 <= q.x < 4
    ensures Valid(DimsOf(width, height), q)
    ensures Idx(DimsOf(width, height), q) == PixelIndex(width, q.brow, q.bcol, q.y, q.x)
    ensures BlockNo(DimsOf(width, height), q) == BlockIndex(width, q.brow, q.bcol)
  {
    RowMajor(width, width / 4, q.brow, q.bcol, q.y, q.x);
  }

  /** The reference image holds each pixel at its stored index. */
  lemma ReferenceAt(data: seq<byte>, width: i32, height: i32, q: Px)
    requires Valid(DimsOf(width, height), q)
    ensures var d, px := DimsOf(width, height), ReferenceImage(data, width, height);
      0 <= Idx(d, q) < |px| && px[Idx(d, q)] == Some(PixelOf(BlockAt(data, BlockNo(d, q)), 4 * q.y + q.x))
  {
    var d := DimsOf(width, height);
    var k := Idx(d, q);
    IdxBounds(d, q);
    var px := ReferenceImage(data, width, height);
    assert |px| == d.blockH * Stride(d);
    assert px[k] == ReferenceSlot(data, d, k);
    LocateIdx(d, q);
    ReferenceSlotAt(data, d, k, q);
  }

  /** An aligned image decodes to `4 * width * height` bytes. */
  lemma AlignedLength(data: seq<byte>, width: i32, height: i32)
    requires Aligned(width, height)
    ensures |ImageBytes(ReferenceImage(data, width, height))| == 4 * (width * height)
  {
    AlignedSlots(data, width, height);
    ImageLength(ReferenceImage(data, width, height));
  }
}
