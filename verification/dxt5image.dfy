/**
 * `DXT5Decompress` over a whole image: blocks are read 16 bytes at a time,
 * row of blocks by row of blocks, and pixel `(x, y)` of block `(bx, by)` is
 * stored at `result[targ2I]` with
 *
 *   targ2I = by * (4 * blockW + 3 * width) + 4 * bx + y * width + x.
 *
 * `result` is a JavaScript array: storing past its end lengthens it and leaves
 * holes. At the end `[].concat.apply([], result)` spreads every stored array
 * into four values and turns every hole into one `undefined`, and the
 * `Uint8Array` constructor reduces each value modulo 256 (`undefined` to 0).
 *
 * The stored arrays are not copied: a pixel with colour code 0 or 1 stores its
 * block's `maxCol` or `minCol` array, so the colour it shows is only known once
 * the whole block has been decoded. The model keeps the endpoint arrays of each
 * block in `heap` and resolves the stored cells against them when flattening.
 */
module Dxt5Image {
  import opened Wrappers
  import opened ByteView
  import opened Arith
  import opened Dxt5Block

  /** The image geometry the loops use: `width`, `blockW = width >> 2` and `blockH = height >> 2`. */
  datatype Dims = Dims(width: int, blockW: int, blockH: int)

  /** `>> 2` rounds toward negative infinity, as `/` does here: the block counts are the
      floors of the quarter dimensions, negative dimensions included. */
  function DimsOf(width: i32, height: i32): (d: Dims)
    ensures Ok(d) && d.width == width
    ensures 4 * d.blockW <= width < 4 * d.blockW + 4
    ensures 4 * d.blockH <= height < 4 * d.blockH + 4
  {
    Dims(width, width / 4, height / 4)
  }

  /** A whole number of blocks fits in a row. */
  predicate Ok(d: Dims) {
    4 * d.blockW <= d.width
  }

  /** How far `targI` moves for one row of blocks: `4` per block, then `width * 3`. */
  function Stride(d: Dims): int {
    4 * d.blockW + 3 * d.width
  }

  /** Pixel `(x, y)` of block `(bx, by)`. */
  datatype Px = Px(brow: int, bcol: int, y: int, x: int)

  predicate Valid(d: Dims, q: Px) {
    0 <= q.brow < d.blockH && 0 <= q.bcol < d.blockW && 0 <= q.y < 4 && 0 <= q.x < 4
  }

  /** The index `targ2I` at which the pixel is stored. */
  function Idx(d: Dims, q: Px): int {
    q.brow * Stride(d) + 4 * q.bcol + q.y * d.width + q.x
  }

  /** The number of the pixel's block in reading order. */
  function BlockNo(d: Dims, q: Px): int {
    q.brow * d.blockW + q.bcol
  }

  /** The number of the pixel in decoding order. */
  function PixelNo(d: Dims, q: Px): int {
    16 * BlockNo(d, q) + 4 * q.y + q.x
  }

  /** The sixteen reads of block number `b`, which start at `blockI = 16 * b`. */
  function BlockAt(data: seq<byte>, b: int): Block {
    FetchBlock(data, 16 * b)
  }

  /** The pixel stored at index `k`, if any. */
  ghost function Locate(d: Dims, k: int): (o: Option<Px>)
    ensures o.Some? ==> Valid(d, o.value) && Idx(d, o.value) == k
    ensures o.None? ==> forall q :: Valid(d, q) ==> Idx(d, q) != k
  {
    if exists q :: Valid(d, q) && Idx(d, q) == k then Some(var q :| Valid(d, q) && Idx(d, q) == k; q) else None
  }

  /** Within a row of blocks a pixel's offset from the row start is below the stride. */
  lemma RowOffset(d: Dims, q: Px)
    requires Ok(d) && Valid(d, q)
    ensures 0 <= 4 * q.bcol + q.x < 4 * d.blockW <= d.width
    ensures 0 <= q.y * d.width + 4 * q.bcol + q.x < Stride(d)
  {
    MulLe(q.y, 3, d.width);
    MulNonneg(q.y, d.width);
  }

  /** Different pixels are stored at different indices. */
  lemma IdxInjective(d: Dims, q1: Px, q2: Px)
    requires Ok(d) && Valid(d, q1) && Valid(d, q2) && Idx(d, q1) == Idx(d, q2)
    ensures q1 == q2
  {
    RowOffset(d, q1);
    RowOffset(d, q2);
    var c1, c2 := 4 * q1.bcol + q1.x, 4 * q2.bcol + q2.x;
    var r1, r2 := q1.y * d.width + c1, q2.y * d.width + c2;
    DivModUnique(Idx(d, q1), Stride(d), q1.brow, r1);
    DivModUnique(Idx(d, q2), Stride(d), q2.brow, r2);
    DivModUnique(r1, d.width, q1.y, c1);
    DivModUnique(r2, d.width, q2.y, c2);
    DivModUnique(c1, 4, q1.bcol, q1.x);
    DivModUnique(c2, 4, q2.bcol, q2.x);
  }

  /** Every pixel is found at the index it is stored at. */
  lemma LocateIdx(d: Dims, q: Px)
    requires Ok(d) && Valid(d, q)
    ensures Locate(d, Idx(d, q)) == Some(q)
  {
    var o := Locate(d, Idx(d, q));
    IdxInjective(d, o.value, q);
  }

  /** Different pixels have different numbers. */
  lemma PixelNoInjective(d: Dims, q1: Px, q2: Px)
    requires Valid(d, q1) && Valid(d, q2) && PixelNo(d, q1) == PixelNo(d, q2)
    ensures q1 == q2
  {
    var i1, i2 := 4 * q1.y + q1.x, 4 * q2.y + q2.x;
    DivModUnique(PixelNo(d, q1), 16, BlockNo(d, q1), i1);
    DivModUnique(PixelNo(d, q2), 16, BlockNo(d, q2), i2);
    DivModUnique(i1, 4, q1.y, q1.x);
    DivModUnique(i2, 4, q2.y, q2.x);
    DivModUnique(BlockNo(d, q1), d.blockW, q1.brow, q1.bcol);
    DivModUnique(BlockNo(d, q2), d.blockW, q2.brow, q2.bcol);
  }

  /** Every pixel is numbered below `16 * blockW * blockH`, and lies below `blockH * stride`. */
  lemma IdxBounds(d: Dims, q: Px)
    requires Ok(d) && Valid(d, q)
    ensures 0 <= BlockNo(d, q) < d.blockH * d.blockW
    ensures 0 <= PixelNo(d, q) < 16 * (d.blockH * d.blockW)
    ensures 0 <= Idx(d, q) < d.blockH * Stride(d)
  {
    RowOffset(d, q);
    MulLe(q.brow, d.blockH - 1, d.blockW);
    MulLe(q.brow, d.blockH - 1, Stride(d));
    MulNonneg(q.brow, d.blockW);
    MulNonneg(q.brow, Stride(d));
    assert (d.blockH - 1) * d.blockW == d.blockH * d.blockW - d.blockW;
    assert (d.blockH - 1) * Stride(d) == d.blockH * Stride(d) - Stride(d);
  }

  // ---------------------------------------------------------------------------
  // The result array

  /** `result[k] = v` on a JavaScript array: past the end the array grows, with holes between. */
  function Put<T>(result: seq<Option<T>>, k: nat, v: T): (r: seq<Option<T>>)
    ensures |r| == Max(|result|, k + 1)
    ensures r[k] == Some(v)
  {
    if k < |result| then result[k := Some(v)] else result + seq(k - |result|, _ => None) + [Some(v)]
  }

  /** Every other slot keeps its value, and the slots a write past the end adds are holes. */
  lemma PutKeeps<T>(result: seq<Option<T>>, k: nat, v: T)
    ensures forall j :: 0 <= j < |Put(result, k, v)| && j != k ==>
      Put(result, k, v)[j] == (if j < |result| then result[j] else None)
  {
  }

  /** What `result[k]` holds once the values `vals` of the first `|vals|` pixels are stored. */
  ghost function Expected<T>(d: Dims, vals: seq<T>, k: int): Option<T> {
    match Locate(d, k)
    case None => None
    case Some(q) => if 0 <= PixelNo(d, q) < |vals| then Some(vals[PixelNo(d, q)]) else None
  }

  /** `result` once the first `|vals|` pixels are stored: each slot holds its pixel's value or
      is a hole, every stored pixel is inside the array, and the last slot is not a hole. */
  ghost predicate Placed<T>(d: Dims, vals: seq<T>, result: seq<Option<T>>) {
    && (forall k :: 0 <= k < |result| ==> result[k] == Expected(d, vals, k))
    && (forall q :: Valid(d, q) && PixelNo(d, q) < |vals| ==> Idx(d, q) < |result|)
    && (|result| > 0 ==> result[|result| - 1].Some?)
  }

  /** Storing the next pixel's value at its index extends the picture by that pixel. */
  lemma PutStep<T>(d: Dims, vals: seq<T>, result: seq<Option<T>>, q: Px, v: T)
    requires Ok(d) && Valid(d, q) && PixelNo(d, q) == |vals|
    requires Placed(d, vals, result)
    ensures Idx(d, q) >= 0
    ensures Placed(d, vals + [v], Put(result, Idx(d, q), v))
  {
    IdxBounds(d, q);
    var k0 := Idx(d, q);
    var r := Put(result, k0, v);
    PutKeeps(result, k0, v);
    var vals' := vals + [v];
    LocateIdx(d, q);
    assert r[k0] == Expected(d, vals', k0);
    forall k | 0 <= k < |r| && k != k0
      ensures r[k] == Expected(d, vals', k)
    {
      var o := Locate(d, k);
      if o.Some? && PixelNo(d, o.value) == |vals| {
        PixelNoInjective(d, o.value, q);
      }
    }
    forall q' | Valid(d, q') && PixelNo(d, q') < |vals'|
      ensures Idx(d, q') < |r|
    {
      if PixelNo(d, q') == |vals| {
        PixelNoInjective(d, q', q);
      }
    }
    assert r[|r| - 1].Some?;
  }

  /** The arrays the first `|vals|` pixels store, pixel `16 * b + i` being pixel `i` of block `b`. */
  ghost predicate StoredCells(data: seq<byte>, vals: seq<Cell>) {
    forall b, i :: 0 <= b && 0 <= i < 16 && 16 * b + i < |vals| ==> vals[16 * b + i] == CellOf(BlockAt(data, b), b, i)
  }

  // ---------------------------------------------------------------------------
  // The decoder

  /** The decoder's record after the first `i` pixels of block number `bn`: the block's endpoint
      arrays hold what those pixels wrote, and every pixel so far has stored its array. */
  ghost predicate Progress(d: Dims, data: seq<byte>, bn: nat, i: int, ends: Endpoints,
                           result: seq<Option<Cell>>, vals: seq<Cell>) {
    && 0 <= i <= 16
    && ends == EndsAfter(BlockAt(data, bn), i)
    && |vals| == 16 * bn + i && StoredCells(data, vals) && Placed(d, vals, result)
  }

  /** The `y`/`x` loops for block `(bx, by)` (here `bcol`, `brow`), block number `bn`: each pixel
      stores its array at `targ2I` and then writes its alpha into `maxCol` or `minCol`, the pair
      `ends` of endpoint arrays allocated for this block. */
  method DecodeBlock(d: Dims, ghost data: seq<byte>, brow: int, bcol: int, bn: nat, targI: int, blk: Block,
                     result0: seq<Option<Cell>>, ghost vals0: seq<Cell>)
    returns (result: seq<Option<Cell>>, ends: Endpoints, ghost vals: seq<Cell>)
    requires Ok(d) && Valid(d, Px(brow, bcol, 0, 0))
    requires targI == brow * Stride(d) + 4 * bcol
    requires bn == BlockNo(d, Px(brow, bcol, 0, 0)) && blk == BlockAt(data, bn)
    requires |vals0| == 16 * bn && StoredCells(data, vals0)
    requires Placed(d, vals0, result0)
    ensures Progress(d, data, bn, 16, ends, result, vals)
  {
    result, vals := result0, vals0;
    ends := InitialEndpoints(blk);
    var targ2I := targI;
    var i := 0;
    var y := 0;
    while y < 4
      invariant 0 <= y <= 4 && i == 4 * y && targ2I == targI + y * d.width
      invariant Progress(d, data, bn, i, ends, result, vals)
    {
      result, ends, vals, i := DecodeLine(d, data, brow, bcol, bn, y, targ2I, blk, i, result, ends, vals);
      assert (y + 1) * d.width == y * d.width + d.width;
      targ2I := targ2I + d.width;
      y := y + 1;
    }
  }

  /** The `x` loop for line `y` of the block: pixel `i = 4 * y + x` is stored at `targ2I + x`. */
  method DecodeLine(d: Dims, ghost data: seq<byte>, brow: int, bcol: int, bn: nat, y: int, targ2I: int, blk: Block,
                    i0: int, result0: seq<Option<Cell>>, ends0: Endpoints, ghost vals0: seq<Cell>)
    returns (result: seq<Option<Cell>>, ends: Endpoints, ghost vals: seq<Cell>, i: int)
    requires Ok(d) && Valid(d, Px(brow, bcol, y, 0)) && i0 == 4 * y
    requires targ2I == Idx(d, Px(brow, bcol, y, 0))
    requires bn == BlockNo(d, Px(brow, bcol, 0, 0)) && blk == BlockAt(data, bn)
    requires Progress(d, data, bn, i0, ends0, result0, vals0)
    ensures i == i0 + 4 && Progress(d, data, bn, i, ends, result, vals)
  {
    result, ends, vals, i := result0, ends0, vals0, i0;
    var x := 0;
    while x < 4
      invariant 0 <= x <= 4 && i == i0 + x
      invariant Progress(d, data, bn, i, ends, result, vals)
    {
      result, ends, vals := DecodePixel(d, data, Px(brow, bcol, y, x), i, targ2I + x, bn, blk, result, ends, vals);
      i := i + 1;
      x := x + 1;
    }
  }

  /** The body of the `x` loop for pixel `q`, the `i`-th of its block: picks the array `col2`,
      writes the pixel's alpha into the endpoint arrays and stores `col2` at `targ2I` (here `k`). */
  method DecodePixel(d: Dims, ghost data: seq<byte>, q: Px, i: int, k: int, bn: nat, blk: Block,
                     result0: seq<Option<Cell>>, ends0: Endpoints, ghost vals0: seq<Cell>)
    returns (result: seq<Option<Cell>>, ends: Endpoints, ghost vals: seq<Cell>)
    requires Ok(d) && Valid(d, q) && i == 4 * q.y + q.x && k == Idx(d, q)
    requires bn == BlockNo(d, q) && blk == BlockAt(data, bn)
    requires Progress(d, data, bn, i, ends0, result0, vals0)
    ensures Progress(d, data, bn, i + 1, ends, result, vals)
  {
    var col2 := Stored(blk, bn, i, ends0);
    PixelStep(d, data, q, i, k, bn, blk, ends0, result0, vals0, col2);
    ends := AfterPixel(blk, i, ends0);
    result := Put(result0, k, col2);
    vals := vals0 + [col2];
  }

  /** One pixel of the `x` loop keeps the loop's record: the endpoint arrays advance by one
      pixel, and the stored array joins the stored cells and the result at the pixel's index. */
  lemma PixelStep(d: Dims, data: seq<byte>, q: Px, i: int, k: int, bn: nat, blk: Block, ends: Endpoints,
                  result: seq<Option<Cell>>, vals: seq<Cell>, col2: Cell)
    requires Ok(d) && Valid(d, q) && i == 4 * q.y + q.x && k == Idx(d, q)
    requires bn == BlockNo(d, q) && blk == BlockAt(data, bn)
    requires ends == EndsAfter(blk, i)
    requires |vals| == 16 * bn + i && StoredCells(data, vals) && Placed(d, vals, result)
    requires col2 == Stored(blk, bn, i, ends)
    ensures k >= 0
    ensures AfterPixel(blk, i, ends) == EndsAfter(blk, i + 1)
    ensures StoredCells(data, vals + [col2])
    ensures Placed(d, vals + [col2], Put(result, k, col2))
  {
    PutStep(d, vals, result, q, col2);
    StoredStep(data, vals, bn, i, col2);
  }

  /** Appending the array pixel `i` of block `bn` stores keeps the record of stored arrays. */
  lemma StoredStep(data: seq<byte>, vals: seq<Cell>, bn: nat, i: int, col2: Cell)
    requires 0 <= i < 16 && |vals| == 16 * bn + i && StoredCells(data, vals)
    requires col2 == CellOf(BlockAt(data, bn), bn, i)
    ensures StoredCells(data, vals + [col2])
  {
    var vals' := vals + [col2];
    forall b, j | 0 <= b && 0 <= j < 16 && 16 * b + j < |vals'|
      ensures vals'[16 * b + j] == CellOf(BlockAt(data, b), b, j)
    {
      if 16 * b + j < |vals| {
        assert vals'[16 * b + j] == vals[16 * b + j];
      } else {
        DivModUnique(16 * b + j, 16, bn, i);
        DivModUnique(16 * b + j, 16, b, j);
        assert b == bn && j == i;
      }
    }
  }

  /** The number of blocks the inner loop visits in each row: `blockW`, or none when it is not positive. */
  function RowBlocks(d: Dims): nat {
    if d.blockW > 0 then d.blockW else 0
  }

  /** Each of the first `|heap|` blocks has been decoded in full. */
  ghost predicate Finished(data: seq<byte>, heap: seq<Endpoints>) {
    forall b :: 0 <= b < |heap| ==> heap[b] == EndsAfter(BlockAt(data, b), 16)
  }

  /** The decoder's record after the first `|heap|` blocks. */
  ghost predicate Decoded(d: Dims, data: seq<byte>, heap: seq<Endpoints>, result: seq<Option<Cell>>, vals: seq<Cell>) {
    Finished(data, heap) && |vals| == 16 * |heap| && StoredCells(data, vals) && Placed(d, vals, result)
  }

  /** Once all sixteen pixels of the next block are stored, its endpoint arrays join the heap. */
  lemma BlockDone(d: Dims, data: seq<byte>, heap: seq<Endpoints>, ends: Endpoints,
                  result: seq<Option<Cell>>, vals: seq<Cell>)
    requires Finished(data, heap) && Progress(d, data, |heap|, 16, ends, result, vals)
    ensures Decoded(d, data, heap + [ends], result, vals)
  {
  }

  lemma FinishedAt(data: seq<byte>, heap: seq<Endpoints>, b: int)
    requires Finished(data, heap) && 0 <= b < |heap|
    ensures heap[b] == EndsAfter(BlockAt(data, b), 16)
  {
  }

  /** The `bx` loop for the row of blocks `brow`: fetches each block's sixteen bytes, allocates its
      endpoint arrays and decodes it. `targI` advances 4 per block and `blockI` 16. */
  method DecodeRow(d: Dims, data: seq<byte>, brow: int, targI0: int, blockI0: int,
                   result0: seq<Option<Cell>>, heap0: seq<Endpoints>, ghost vals0: seq<Cell>)
    returns (result: seq<Option<Cell>>, heap: seq<Endpoints>, ghost vals: seq<Cell>, targI: int, blockI: int)
    requires Ok(d) && 0 <= brow < d.blockH
    requires targI0 == brow * (4 * RowBlocks(d) + 3 * d.width)
    requires |heap0| == brow * RowBlocks(d) && blockI0 == 16 * |heap0|
    requires Decoded(d, data, heap0, result0, vals0)
    ensures targI == targI0 + 4 * RowBlocks(d)
    ensures |heap| == |heap0| + RowBlocks(d) && blockI == 16 * |heap|
    ensures Decoded(d, data, heap, result, vals)
  {
    result, heap, vals, targI, blockI := result0, heap0, vals0, targI0, blockI0;
    var bcol := 0;
    while bcol < d.blockW
      invariant 0 <= bcol <= RowBlocks(d)
      invariant targI == targI0 + 4 * bcol
      invariant |heap| == |heap0| + bcol && blockI == 16 * |heap|
      invariant Decoded(d, data, heap, result, vals)
    {
      assert targI == brow * Stride(d) + 4 * bcol;
      assert |heap| == BlockNo(d, Px(brow, bcol, 0, 0));
      var blk := FetchBlock(data, blockI);
      blockI := blockI + 16;
      var ends;
      result, ends, vals := DecodeBlock(d, data, brow, bcol, |heap|, targI, blk, result, vals);
      BlockDone(d, data, heap, ends, result, vals);
      heap := heap + [ends];
      targI := targI + 4;
      bcol := bcol + 1;
    }
  }

  /** `DXT5Decompress(data, width, height)`: the bytes of the decoded image. */
  method Decompress(data: seq<byte>, width: i32, height: i32) returns (out: seq<byte>)
    ensures out == ImageBytes(ReferenceImage(data, width, height))
  {
    var d := DimsOf(width, height);
    var result, heap, vals := DecodeImage(d, data);
    out := Flatten(result, heap);
    FlattenIsReference(d, data, width, height, result, heap, vals);
  }

  /** The `by` loop: decodes the rows of blocks one after the other. `targI` moves on by
      `width * 3` after each row, past the three further lines of pixels the row covers. */
  method DecodeImage(d: Dims, data: seq<byte>) returns (result: seq<Option<Cell>>, heap: seq<Endpoints>, ghost vals: seq<Cell>)
    requires Ok(d)
    ensures |heap| == if d.blockW > 0 && d.blockH > 0 then d.blockH * d.blockW else 0
    ensures Decoded(d, data, heap, result, vals)
  {
    result, heap, vals := [], [], [];
    NothingDecoded(d, data);
    var blockI := 0;
    var targI := 0;
    var brow := 0;
    while brow < d.blockH
      invariant 0 <= brow <= Max(d.blockH, 0)
      invariant targI == brow * (4 * RowBlocks(d) + 3 * d.width)
      invariant |heap| == brow * RowBlocks(d) && blockI == 16 * |heap|
      invariant Decoded(d, data, heap, result, vals)
    {
      result, heap, vals, targI, blockI := DecodeRow(d, data, brow, targI, blockI, result, heap, vals);
      NextRow(brow, RowBlocks(d), 3 * d.width);
      targI := targI + d.width * 3;
      brow := brow + 1;
    }
    RowsDone(d, brow);
  }

  /** Before the first block nothing is stored. */
  lemma NothingDecoded(d: Dims, data: seq<byte>)
    requires Ok(d)
    ensures Decoded(d, data, [], [], [])
  {
    forall q | Valid(d, q)
      ensures PixelNo(d, q) >= 0
    {
      IdxBounds(d, q);
    }
  }

  /** The offsets after row `brow` are those before row `brow + 1`. */
  lemma NextRow(brow: int, n: int, w: int)
    ensures (brow + 1) * n == brow * n + n
    ensures (brow + 1) * (4 * n + w) == brow * (4 * n + w) + 4 * n + w
  {
  }

  /** After the last row the heap holds one entry per block, or none when a dimension is below 4. */
  lemma RowsDone(d: Dims, brow: int)
    requires brow == Max(d.blockH, 0)
    ensures brow * RowBlocks(d) == if d.blockW > 0 && d.blockH > 0 then d.blockH * d.blockW else 0
  {
  }

  // ---------------------------------------------------------------------------
  // Flattening

  /** The `Uint8Array` conversion of an integer value. */
  function Uint8(v: int): byte {
    v % 256
  }

  /** What one slot of `result` becomes: four bytes for a stored array, one 0 for a hole. */
  function PixelBytes(p: Option<Rgba>): (bs: seq<byte>)
    ensures |bs| == if p.Some? then 4 else 1
  {
    if p.Some? then [Uint8(p.value.r), Uint8(p.value.g), Uint8(p.value.b), Uint8(p.value.a)] else [0]
  }

  /** `new Uint8Array([].concat.apply([], result))`, slot by slot. */
  function ImageBytes(px: seq<Option<Rgba>>): (bs: seq<byte>)
  {
    if |px| == 0 then [] else PixelBytes(px[0]) + ImageBytes(px[1..])
  }

  /** The colour a slot of `result` shows once every block is decoded; `None` for a hole. */
  function SlotColour(slot: Option<Cell>, heap: seq<Endpoints>): Option<Rgba> {
    if slot.Some? then Resolve(slot.value, heap) else None
  }

  /** The stored arrays as they read once every block is decoded. */
  function Flatten(result: seq<Option<Cell>>, heap: seq<Endpoints>): seq<byte> {
    ImageBytes(seq(|result|, k requires 0 <= k < |result| => SlotColour(result[k], heap)))
  }

  /** The decoded pixel stored at index `k`, stated directly, or a hole. */
  ghost function ReferenceSlot(data: seq<byte>, d: Dims, k: int): Option<Rgba> {
    match Locate(d, k)
    case None => None
    case Some(q) => Some(BlockPixels(BlockAt(data, BlockNo(d, q)))[4 * q.y + q.x])
  }

  /** The decoded image: `blockH * stride` slots when there is at least one block, else none. */
  ghost function ReferenceImage(data: seq<byte>, width: i32, height: i32): (px: seq<Option<Rgba>>)
    ensures var d := DimsOf(width, height);
      |px| == if d.blockW > 0 && d.blockH > 0 then d.blockH * Stride(d) else 0
  {
    var d := DimsOf(width, height);
    if d.blockW <= 0 || d.blockH <= 0 then []
    else
      assert d.blockH * Stride(d) >= 0;
      seq(d.blockH * Stride(d), k => ReferenceSlot(data, d, k))
  }

  /** Each slot of the finished `result` shows the decoded pixel stored there. */
  lemma SlotIsReference(d: Dims, data: seq<byte>, result: seq<Option<Cell>>, heap: seq<Endpoints>,
                        vals: seq<Cell>, k: int)
    requires Ok(d) && Decoded(d, data, heap, result, vals) && 0 <= k < |result|
    requires |heap| == if d.blockW > 0 && d.blockH > 0 then d.blockH * d.blockW else 0
    ensures SlotColour(result[k], heap) == ReferenceSlot(data, d, k)
  {
    var o := Locate(d, k);
    ExpectedAt(d, vals, result, k);
    if o.Some? {
      var q := o.value;
      var bn, i := BlockNo(d, q), 4 * q.y + q.x;
      IdxBounds(d, q);
      StoredAt(data, vals, bn, i);
      FinishedAt(data, heap, bn);
      assert result[k] == Some(vals[16 * bn + i]);
      PixelSlot(d, data, heap, q, k, result[k]);
    }
  }

  /** A slot holding the array of pixel `q` shows the decoded pixel. */
  lemma PixelSlot(d: Dims, data: seq<byte>, heap: seq<Endpoints>, q: Px, k: int, slot: Option<Cell>)
    requires Valid(d, q) && Locate(d, k) == Some(q)
    requires slot == Some(CellOf(BlockAt(data, BlockNo(d, q)), BlockNo(d, q), 4 * q.y + q.x))
    requires 0 <= BlockNo(d, q) < |heap| && heap[BlockNo(d, q)] == EndsAfter(BlockAt(data, BlockNo(d, q)), 16)
    ensures SlotColour(slot, heap) == ReferenceSlot(data, d, k)
  {
    CellResolves(BlockAt(data, BlockNo(d, q)), BlockNo(d, q), 4 * q.y + q.x, heap);
    ReferenceSlotAt(data, d, k, q);
  }

  /** The reference slot of a pixel's index is that pixel of its decoded block. */
  lemma ReferenceSlotAt(data: seq<byte>, d: Dims, k: int, q: Px)
    requires Valid(d, q) && Locate(d, k) == Some(q)
    ensures ReferenceSlot(data, d, k) == Some(PixelOf(BlockAt(data, BlockNo(d, q)), 4 * q.y + q.x))
  {
  }

  lemma ExpectedAt<T>(d: Dims, vals: seq<T>, result: seq<Option<T>>, k: int)
    requires Placed(d, vals, result) && 0 <= k < |result|
    ensures result[k] == Expected(d, vals, k)
  {
  }

  lemma StoredAt(data: seq<byte>, vals: seq<Cell>, bn: int, i: int)
    requires StoredCells(data, vals) && 0 <= bn && 0 <= i < 16 && 16 * bn + i < |vals|
    ensures vals[16 * bn + i] == CellOf(BlockAt(data, bn), bn, i)
  {
  }

  /** Flattening the finished `result` gives the reference image. */
  lemma FlattenIsReference(d: Dims, data: seq<byte>, width: i32, height: i32,
                           result: seq<Option<Cell>>, heap: seq<Endpoints>, vals: seq<Cell>)
    requires d == DimsOf(width, height)
    requires |heap| == if d.blockW > 0 && d.blockH > 0 then d.blockH * d.blockW else 0
    requires Decoded(d, data, heap, result, vals)
    ensures Flatten(result, heap) == ImageBytes(ReferenceImage(data, width, height))
  {
    var ref := ReferenceImage(data, width, height);
    var px := seq(|result|, k requires 0 <= k < |result| => SlotColour(result[k], heap));
    ResultLength(d, vals, result, |heap|);
    forall k | 0 <= k < |result|
      ensures px[k] == ref[k]
    {
      SlotIsReference(d, data, result, heap, vals, k);
    }
    assert px == ref;
  }

  /** Once all `blocks` blocks are stored, `result` is `blockH * stride` long. */
  lemma ResultLength<T>(d: Dims, vals: seq<T>, result: seq<Option<T>>, blocks: int)
    requires Ok(d)
    requires blocks == if d.blockW > 0 && d.blockH > 0 then d.blockH * d.blockW else 0
    requires |vals| == 16 * blocks && Placed(d, vals, result)
    ensures |result| == if d.blockW > 0 && d.blockH > 0 then d.blockH * Stride(d) else 0
  {
    if |result| > 0 {
      var o := Locate(d, |result| - 1);
      assert result[|result| - 1] == Expected(d, vals, |result| - 1);
      IdxBounds(d, o.value);
    }
    if d.blockW > 0 && d.blockH > 0 {
      var last := Px(d.blockH - 1, d.blockW - 1, 3, 3);
      assert (d.blockH - 1) * d.blockW == d.blockH * d.blockW - d.blockW;
      assert (d.blockH - 1) * Stride(d) == d.blockH * Stride(d) - Stride(d);
      assert PixelNo(d, last) == |vals| - 1;
      assert Idx(d, last) == d.blockH * Stride(d) - 1;
    }
  }
}
