/**
 * One 16-byte DXT5 block as `DXT5Decompress` decodes it: two 8-bit alpha
 * endpoints, sixteen 3-bit alpha codes, two 16-bit colour endpoints and
 * sixteen 2-bit colour codes, combined with `colLerp` and `Math.round`.
 *
 * The decoder works with JavaScript's int32 operators, written out here:
 * `x >> k` rounds toward negative infinity, `x & (2^m - 1)` keeps the low `m`
 * bits of the two's-complement pattern, and `|` only ever combines operands
 * with disjoint bits, so it is their sum. A read past the end of the data is
 * `undefined`, which the bitwise operators turn into 0.
 *
 * Pixels with colour code 0 or 1 do not get a colour of their own: they store
 * the block's `maxCol` or `minCol` array itself, and the `col2[3] = ...` of
 * every later such pixel overwrites the alpha they all show.
 */
module Dxt5Block {
  import opened Wrappers
  import opened ByteView
  import opened Arith

  /** `data[k]`: the byte, or `undefined` outside the data. */
  function Fetch(data: seq<byte>, k: int): (o: Option<byte>)
    ensures o.Some? <==> 0 <= k < |data|
    ensures o.Some? ==> o.value == data[k]
  {
    if 0 <= k < |data| then Some(data[k]) else None
  }

  /** The sixteen reads of one block, in order. */
  type Block = s: seq<Option<byte>> | |s| == 16 witness seq(16, _ => None)

  /** The reads `data[blockI++]` of the block whose first byte is at `at`. */
  function FetchBlock(data: seq<byte>, at: int): (blk: Block)
    ensures forall t :: 0 <= t < 16 ==> blk[t] == Fetch(data, at + t)
  {
    var s := seq(16, t => Fetch(data, at + t));
    assert |s| == 16;
    s
  }

  /** A read as an operand of `|`, `<<` or `>>`. */
  function Bits(o: Option<byte>): byte {
    if o.Some? then o.value else 0
  }

  /** `ToInt32` of a non-negative integer: its low 32 bits as two's complement. */
  function WrapInt32(n: nat): i32 {
    ToInt32(n % 0x1_0000_0000)
  }

  /** `x >> k`. */
  function Sar(x: int, k: nat): int {
    x / Pow2(k)
  }

  /** `x & (2^m - 1)`. */
  function LowBits(x: int, m: nat): (r: nat)
    ensures r < Pow2(m)
  {
    x % Pow2(m)
  }

  /** `alpha`: bytes 2 to 5 at shifts 0, 8, 16 and 24; the last shift wraps to int32. */
  function AlphaBits(blk: Block): i32 {
    WrapInt32(Bits(blk[2]) + 0x100 * Bits(blk[3]) + 0x1_0000 * Bits(blk[4]) + 0x100_0000 * Bits(blk[5]))
  }

  /** `alpha2`: the top two bits of byte 5 (`data[blockI - 1] >> 6`), then bytes 6 and 7 at shifts 2 and 10. */
  function Alpha2Bits(blk: Block): nat {
    Sar(Bits(blk[5]), 6) + 4 * Bits(blk[6]) + 0x400 * Bits(blk[7])
  }

  /** `maxCI` (at 8) or `minCI` (at 10): two bytes, the second at shift 8. */
  function EndpointBits(blk: Block, at: int): nat
    requires at == 8 || at == 10
  {
    Bits(blk[at]) + 0x100 * Bits(blk[at + 1])
  }

  /** `col`: bytes 12 to 15 at shifts 0, 8, 16 and 24. */
  function ColourBits(blk: Block): i32 {
    WrapInt32(Bits(blk[12]) + 0x100 * Bits(blk[13]) + 0x1_0000 * Bits(blk[14]) + 0x100_0000 * Bits(blk[15]))
  }

  /** `abit` of pixel `i`: from `alpha` for the first ten pixels, from `alpha2` after. */
  function AlphaCode(blk: Block, i: int): (code: nat)
    requires 0 <= i < 16
    ensures code < 8
  {
    if i * 3 >= 30 then LowBits(Sar(Alpha2Bits(blk), i * 3 - 30), 3) else LowBits(Sar(AlphaBits(blk), i * 3), 3)
  }

  /** `cbit` of pixel `i`. */
  function ColourCode(blk: Block, i: int): (code: nat)
    requires 0 <= i < 16
    ensures code < 4
  {
    LowBits(Sar(ColourBits(blk), i * 2), 2)
  }

  /** A four-channel colour as the decoder's arrays hold it. */
  datatype Rgba = Rgba(r: int, g: int, b: int, a: int)

  /** `[Math.round((c >> 11) & 31), Math.round((c >> 6) & 31), Math.round(c & 31), 255]`. */
  function Unpack(c: int): Rgba {
    Rgba(LowBits(Sar(c, 11), 5), LowBits(Sar(c, 6), 5), LowBits(c, 5), 255)
  }

  function MaxColour(blk: Block): Rgba {
    Unpack(EndpointBits(blk, 8))
  }

  function MinColour(blk: Block): Rgba {
    Unpack(EndpointBits(blk, 10))
  }

  /** `Math.round(n / d)`: the nearest integer, halves rounding up. */
  function RoundDiv(n: int, d: int): int
    requires d > 0
  {
    (2 * n + d) / (2 * d)
  }

  /** `colLerp(lo, hi, k / 3)` on the colour channels; its alpha channel is overwritten at once
      by `col2[3] = ...`, so the alpha here is the one stored after it. */
  function Lerp(lo: Rgba, hi: Rgba, k: int, a: int): Rgba {
    Rgba(RoundDiv(lo.r * (3 - k) + hi.r * k, 3),
         RoundDiv(lo.g * (3 - k) + hi.g * k, 3),
         RoundDiv(lo.b * (3 - k) + hi.b * k, 3),
         a)
  }

  /** The byte pixel alpha ends up as for alpha code `code`: `maxA`, `minA`, or
      `Math.round(maxA * a + minA * (1 - a))` with `a = (8 - code) / 7`. An `undefined`
      endpoint, or the NaN it makes in the blend, becomes 0 in the final `Uint8Array`. */
  function AlphaValue(blk: Block, code: int): byte
    requires 0 <= code < 8
  {
    if code == 0 then Bits(blk[0])
    else if code == 1 then Bits(blk[1])
    else if blk[0].None? || blk[1].None? then 0
    else RoundDiv(blk[0].value * (8 - code) + blk[1].value * (code - 1), 7)
  }

  /** The blend reads only the colour channels of its endpoints. */
  lemma LerpColourOnly(lo: Rgba, hi: Rgba, lo': Rgba, hi': Rgba, k: int, a: int)
    requires lo.r == lo'.r && lo.g == lo'.g && lo.b == lo'.b
    requires hi.r == hi'.r && hi.g == hi'.g && hi.b == hi'.b
    ensures Lerp(lo, hi, k, a) == Lerp(lo', hi', k, a)
  {
  }

  // ---------------------------------------------------------------------------
  // The shared endpoint arrays

  datatype End = MaxEnd | MinEnd

  /** The block's `maxCol` and `minCol` arrays, whose alpha slots pixels overwrite. */
  datatype Endpoints = Endpoints(maxCol: Rgba, minCol: Rgba)

  /** What `result[targ2I++] = col2` stores: one of the shared arrays of block `block`, or a fresh array. */
  datatype Cell = Shared(block: nat, end: End) | Own(colour: Rgba)

  function InitialEndpoints(blk: Block): Endpoints {
    Endpoints(MaxColour(blk), MinColour(blk))
  }

  /** The array `col2` that pixel `i` of block number `bn` stores, given the endpoint arrays
      before it: the shared `minCol` or `maxCol` for colour codes 1 and 0 (and the `default`
      branch), a fresh blend for 2 and 3 whose alpha is set at once. */
  function Stored(blk: Block, bn: nat, i: int, e: Endpoints): Cell
    requires 0 <= i < 16
  {
    var a := AlphaValue(blk, AlphaCode(blk, i));
    var c := ColourCode(blk, i);
    if c == 1 then Shared(bn, MinEnd)
    else if c == 2 then Own(Lerp(e.minCol, e.maxCol, 2, a))
    else if c == 3 then Own(Lerp(e.minCol, e.maxCol, 1, a))
    else Shared(bn, MaxEnd)
  }

  /** The endpoint arrays after pixel `i`'s `col2[3] = ...`: only a shared array changes. */
  function AfterPixel(blk: Block, i: int, e: Endpoints): Endpoints
    requires 0 <= i < 16
  {
    var a := AlphaValue(blk, AlphaCode(blk, i));
    var c := ColourCode(blk, i);
    if c == 1 then e.(minCol := e.minCol.(a := a))
    else if c == 0 then e.(maxCol := e.maxCol.(a := a))
    else e
  }

  /** The endpoint arrays after the first `n` pixels of the block. */
  function EndsAfter(blk: Block, n: int): Endpoints
    requires 0 <= n <= 16
  {
    if n == 0 then InitialEndpoints(blk) else AfterPixel(blk, n - 1, EndsAfter(blk, n - 1))
  }

  /** The array pixel `i` of block number `bn` stores. */
  function CellOf(blk: Block, bn: nat, i: int): Cell
    requires 0 <= i < 16
  {
    Stored(blk, bn, i, EndsAfter(blk, i))
  }

  /** The colour a stored array shows once the whole image is flattened. */
  function Resolve(cell: Cell, heap: seq<Endpoints>): Option<Rgba> {
    match cell
    case Own(c) => Some(c)
    case Shared(bn, end) =>
      if bn < |heap| then Some(if end == MaxEnd then heap[bn].maxCol else heap[bn].minCol) else None
  }

  // ---------------------------------------------------------------------------
  // The decoded block, stated directly

  /** The last pixel before `n` with colour code `c`, or -1 when there is none. */
  function LastWith(blk: Block, c: int, n: int): (j: int)
    requires 0 <= n <= 16
    ensures -1 <= j < n
    ensures j >= 0 ==> ColourCode(blk, j) == c
    ensures forall k :: j < k < n ==> ColourCode(blk, k) != c
  {
    if n == 0 then -1 else if ColourCode(blk, n - 1) == c then n - 1 else LastWith(blk, c, n - 1)
  }

  /** The alpha a shared endpoint array shows after the first `n` pixels: that of the last pixel
      with its colour code, or the initial 255. */
  function SlotAlpha(blk: Block, c: int, n: int): int
    requires 0 <= n <= 16
  {
    var j := LastWith(blk, c, n);
    if j < 0 then 255 else AlphaValue(blk, AlphaCode(blk, j))
  }

  /** Pixel `i` of the decoded block. */
  function PixelOf(blk: Block, i: int): Rgba
    requires 0 <= i < 16
  {
    var c := ColourCode(blk, i);
    var a := AlphaValue(blk, AlphaCode(blk, i));
    if c == 0 then MaxColour(blk).(a := SlotAlpha(blk, 0, 16))
    else if c == 1 then MinColour(blk).(a := SlotAlpha(blk, 1, 16))
    else if c == 2 then Lerp(MinColour(blk), MaxColour(blk), 2, a)
    else Lerp(MinColour(blk), MaxColour(blk), 1, a)
  }

  /** The sixteen pixels of the block, row by row. */
  function BlockPixels(blk: Block): (px: seq<Rgba>)
    ensures |px| == 16
  {
    seq(16, i requires 0 <= i < 16 => PixelOf(blk, i))
  }

  /** Running the pixel steps keeps the endpoint colours and leaves in each alpha slot
      the alpha of the last pixel that stored that array. */
  lemma {:induction false} EndsAfterSlots(blk: Block, n: int)
    requires 0 <= n <= 16
    ensures EndsAfter(blk, n) ==
      Endpoints(MaxColour(blk).(a := SlotAlpha(blk, 0, n)), MinColour(blk).(a := SlotAlpha(blk, 1, n)))
    decreases n
  {
    if n > 0 {
      EndsAfterSlots(blk, n - 1);
    }
  }

  /** A stored array, resolved against the block's final endpoint arrays, shows the decoded pixel. */
  lemma CellResolves(blk: Block, bn: nat, i: int, heap: seq<Endpoints>)
    requires 0 <= i < 16
    requires bn < |heap| && heap[bn] == EndsAfter(blk, 16)
    ensures Resolve(CellOf(blk, bn, i), heap) == Some(PixelOf(blk, i))
  {
    EndsAfterSlots(blk, i);
    EndsAfterSlots(blk, 16);
    var e := EndsAfter(blk, i);
    var a := AlphaValue(blk, AlphaCode(blk, i));
    var c := ColourCode(blk, i);
    if c == 0 {
      assert CellOf(blk, bn, i) == Shared(bn, MaxEnd);
    } else if c == 1 {
      assert CellOf(blk, bn, i) == Shared(bn, MinEnd);
    } else if c == 2 {
      LerpColourOnly(e.minCol, e.maxCol, MinColour(blk), MaxColour(blk), 2, a);
    } else {
      LerpColourOnly(e.minCol, e.maxCol, MinColour(blk), MaxColour(blk), 1, a);
    }
  }

  // ---------------------------------------------------------------------------
  // The codes as bit fields

  /** Bytes 2 to 7 as one 48-bit little-endian integer: the sixteen 3-bit alpha codes. */
  function AlphaTable(blk: Block): nat {
    Bits(blk[2]) + 0x100 * Bits(blk[3]) + 0x1_0000 * Bits(blk[4]) + 0x100_0000 * Bits(blk[5])
      + 0x1_0000_0000 * (Bits(blk[6]) + 0x100 * Bits(blk[7]))
  }

  /** Bytes 12 to 15 as one 32-bit little-endian integer: the sixteen 2-bit colour codes. */
  function ColourTable(blk: Block): nat {
    Bits(blk[12]) + 0x100 * Bits(blk[13]) + 0x1_0000 * Bits(blk[14]) + 0x100_0000 * Bits(blk[15])
  }

  lemma Pow2Values()
    ensures Pow2(2) == 4 && Pow2(3) == 8 && Pow2(5) == 32 && Pow2(6) == 64
    ensures Pow2(30) == 0x4000_0000 && Pow2(32) == 0x1_0000_0000
  {
    assert Pow2(1) == 2 && Pow2(2) == 4 && Pow2(3) == 8;
    assert Pow2(4) == 16 && Pow2(5) == 32 && Pow2(6) == 64;
    Pow2Add(6, 6);
    Pow2Add(12, 12);
    Pow2Add(24, 6);
    Pow2Add(30, 2);
  }

  /** Adding a multiple of `2^n` does not change a field that ends at or below bit `n`. */
  lemma FieldIgnoresHigh(x: int, y: int, c: int, k: nat, m: nat, n: nat)
    requires k + m <= n && y == x + c * Pow2(n)
    ensures (y / Pow2(k)) % Pow2(m) == (x / Pow2(k)) % Pow2(m)
  {
    Pow2Split(k, m, n);
    DigitOfMultiple(x, c, Pow2(k), Pow2(m), Pow2(n - k - m));
  }

  /** A field of at most 32 bits read through the int32 view of the low word is the same
      field of the whole unsigned integer, whatever lies above bit 31. */
  lemma WordField(u: u32, h: nat, k: nat, m: nat)
    requires k + m <= 32
    ensures LowBits(Sar(ToInt32(u), k), m) == ((u + 0x1_0000_0000 * h) / Pow2(k)) % Pow2(m)
  {
    assert Pow2(32) == 0x1_0000_0000 by {
      Pow2Values();
    }
    FieldIgnoresHigh(u, u + 0x1_0000_0000 * h, h, k, m, 32);
    FieldIgnoresHigh(u, ToInt32(u), if u >= 0x8000_0000 then -1 else 0, k, m, 32);
  }

  /** `alpha2` holds the alpha table from bit 30 on. */
  lemma Alpha2IsHigh(blk: Block)
    ensures Alpha2Bits(blk) == AlphaTable(blk) / Pow2(30)
  {
    Pow2Values();
    var b5: nat := Bits(blk[5]);
    var low: nat := Bits(blk[2]) + 0x100 * Bits(blk[3]) + 0x1_0000 * Bits(blk[4]) + 0x100_0000 * (b5 % 64);
    assert b5 == 64 * (b5 / 64) + b5 % 64;
    assert Sar(b5, 6) == b5 / 64;
    DivModUnique(AlphaTable(blk), 0x4000_0000, Alpha2Bits(blk), low);
  }

  /** Alpha code `i` is bits `3i` to `3i + 2` of the 48-bit alpha table, on both sides of the
      switch from `alpha` to `alpha2` at pixel 10. */
  lemma AlphaCodeBits(blk: Block, i: int)
    requires 0 <= i < 16
    ensures AlphaCode(blk, i) == (AlphaTable(blk) / Pow2(3 * i)) % 8
  {
    assert Pow2(3) == 8;
    if i * 3 >= 30 {
      AlphaCodeHigh(blk, i);
    } else {
      var u: nat := Bits(blk[2]) + 0x100 * Bits(blk[3]) + 0x1_0000 * Bits(blk[4]) + 0x100_0000 * Bits(blk[5]);
      assert AlphaBits(blk) == ToInt32(u);
      WordField(u, Bits(blk[6]) + 0x100 * Bits(blk[7]), 3 * i, 3);
    }
  }

  /** The codes read from `alpha2`. */
  lemma AlphaCodeHigh(blk: Block, i: int)
    requires 10 <= i < 16
    ensures (Alpha2Bits(blk) / Pow2(3 * i - 30)) == AlphaTable(blk) / Pow2(3 * i)
  {
    Alpha2IsHigh(blk);
    DivDiv(AlphaTable(blk), Pow2(30), Pow2(3 * i - 30));
    Pow2Add(30, 3 * i - 30);
  }

  /** Colour code `i` is bits `2i` and `2i + 1` of the 32-bit colour table. */
  lemma ColourCodeBits(blk: Block, i: int)
    requires 0 <= i < 16
    ensures ColourCode(blk, i) == (ColourTable(blk) / Pow2(2 * i)) % 4
  {
    assert Pow2(2) == 4;
    assert ColourBits(blk) == ToInt32(ColourTable(blk));
    WordField(ColourTable(blk), 0, 2 * i, 2);
  }

  // ---------------------------------------------------------------------------
  // Values

  /** The endpoint unpack keeps the top five bits as red, bits 6 to 10 as green and the low five
      bits as blue: green loses bit 5 of its six-bit field, nothing is rescaled to 0..255, and the
      16-bit value is those three fields plus the dropped bit. */
  lemma UnpackFields(c: nat)
    requires c < 0x1_0000
    ensures var p := Unpack(c);
      && p.a == 255 && 0 <= p.r < 32 && 0 <= p.g < 32 && 0 <= p.b < 32
      && c == 2048 * p.r + 64 * p.g + 32 * ((c / 32) % 2) + p.b
  {
    Pow2Values();
    Pow2Add(5, 6);
    var p := Unpack(c);
    assert p.r == (c / 2048) % 32 && p.g == (c / 64) % 32 && p.b == c % 32;
    assert c / 2048 < 32;
    DivDiv(c, 64, 32);
    DivDiv(c, 32, 2);
    var r, g, h, t := c / 2048, c / 64, c / 32, (c / 32) % 2;
    assert p.r == r by {
      DivModUnique(r, 32, 0, r);
    }
    assert g == 32 * r + p.g;
    assert h == 2 * g + t;
    assert c == 32 * h + p.b;
    assert c == 2048 * r + 64 * p.g + 32 * t + p.b;
  }

  /** `Math.round(n / 3)`: `n / 3` is never halfway between two integers, so this is the
      nearest integer. */
  lemma RoundThirds(n: int)
    ensures RoundDiv(n, 3) == (n + 1) / 3
    ensures 3 * RoundDiv(n, 3) - 1 <= n <= 3 * RoundDiv(n, 3) + 1
  {
  }

  /** `Math.round(n / 7)`, the nearest integer for the same reason. */
  lemma RoundSevenths(n: int)
    ensures RoundDiv(n, 7) == (n + 3) / 7
    ensures 7 * RoundDiv(n, 7) - 3 <= n <= 7 * RoundDiv(n, 7) + 3
  {
  }

  /** Colour code 2 is `round((min + 2 * max) / 3)` and code 3 is `round((2 * min + max) / 3)`
      on each colour channel; codes 0 and 1 are the endpoints themselves. */
  lemma ColourValues(blk: Block, i: int)
    requires 0 <= i < 16
    ensures var p, lo, hi := PixelOf(blk, i), MinColour(blk), MaxColour(blk);
      && (ColourCode(blk, i) == 0 ==> p.r == hi.r && p.g == hi.g && p.b == hi.b)
      && (ColourCode(blk, i) == 1 ==> p.r == lo.r && p.g == lo.g && p.b == lo.b)
      && (ColourCode(blk, i) == 2 ==>
            p.r == (lo.r + 2 * hi.r + 1) / 3 && p.g == (lo.g + 2 * hi.g + 1) / 3 && p.b == (lo.b + 2 * hi.b + 1) / 3)
      && (ColourCode(blk, i) == 3 ==>
            p.r == (2 * lo.r + hi.r + 1) / 3 && p.g == (2 * lo.g + hi.g + 1) / 3 && p.b == (2 * lo.b + hi.b + 1) / 3)
  {
    var c := ColourCode(blk, i);
    if c >= 2 {
      LerpThirds(MinColour(blk), MaxColour(blk), AlphaValue(blk, AlphaCode(blk, i)));
    }
  }

  /** The two blends of `colLerp`, channel by channel. */
  lemma LerpThirds(lo: Rgba, hi: Rgba, a: int)
    ensures Lerp(lo, hi, 2, a) == Rgba((lo.r + 2 * hi.r + 1) / 3, (lo.g + 2 * hi.g + 1) / 3, (lo.b + 2 * hi.b + 1) / 3, a)
    ensures Lerp(lo, hi, 1, a) == Rgba((2 * lo.r + hi.r + 1) / 3, (2 * lo.g + hi.g + 1) / 3, (2 * lo.b + hi.b + 1) / 3, a)
  {
    RoundThirds(lo.r + hi.r * 2);
    RoundThirds(lo.g + hi.g * 2);
    RoundThirds(lo.b + hi.b * 2);
    RoundThirds(lo.r * 2 + hi.r);
    RoundThirds(lo.g * 2 + hi.g);
    RoundThirds(lo.b * 2 + hi.b);
  }

  /** Alpha code 0 gives `maxA`, code 1 `minA`, and code `c` from 2 to 7 the nearest integer to
      `(maxA * (8 - c) + minA * (c - 1)) / 7`; a missing endpoint byte gives 0. */
  lemma AlphaValues(blk: Block, code: int)
    requires 0 <= code < 8
    ensures code == 0 ==> AlphaValue(blk, code) == Bits(blk[0])
    ensures code == 1 ==> AlphaValue(blk, code) == Bits(blk[1])
    ensures code >= 2 && blk[0].Some? && blk[1].Some? ==>
      AlphaValue(blk, code) == (blk[0].value * (8 - code) + blk[1].value * (code - 1) + 3) / 7
    ensures code >= 2 && (blk[0].None? || blk[1].None?) ==> AlphaValue(blk, code) == 0
  {
    if code >= 2 && blk[0].Some? && blk[1].Some? {
      RoundSevenths(blk[0].value * (8 - code) + blk[1].value * (code - 1));
    }
  }

  /** The aliasing: a pixel with colour code 0 or 1 shows the alpha of the LAST pixel of the
      block with the same colour code, which is at or after it, and not its own. */
  lemma AliasedAlpha(blk: Block, i: int)
    requires 0 <= i < 16 && ColourCode(blk, i) <= 1
    ensures var c := ColourCode(blk, i);
      var j := LastWith(blk, c, 16);
      && i <= j < 16 && ColourCode(blk, j) == c
      && PixelOf(blk, i).a == AlphaValue(blk, AlphaCode(blk, j))
  {
  }

  /** Every channel of a decoded pixel fits in a byte, and the colour channels stay below 32. */
  lemma PixelBounds(blk: Block, i: int)
    requires 0 <= i < 16
    ensures var p := PixelOf(blk, i);
      && 0 <= p.r < 32 && 0 <= p.g < 32 && 0 <= p.b < 32 && 0 <= p.a < 256
  {
    UnpackFields(EndpointBits(blk, 8));
    UnpackFields(EndpointBits(blk, 10));
  }

  /** Equal colour endpoints and all-zero alpha codes give sixteen copies of the endpoint
      colour with alpha `maxA`, whatever the colour codes are. */
  lemma UniformBlock(blk: Block)
    requires EndpointBits(blk, 8) == EndpointBits(blk, 10)
    requires forall i :: 0 <= i < 16 ==> AlphaCode(blk, i) == 0
    ensures forall i :: 0 <= i < 16 ==> BlockPixels(blk)[i] == MaxColour(blk).(a := Bits(blk[0]))
  {
    forall i | 0 <= i < 16
      ensures PixelOf(blk, i) == MaxColour(blk).(a := Bits(blk[0]))
    {
      UniformPixel(blk, i);
    }
  }

  lemma UniformPixel(blk: Block, i: int)
    requires 0 <= i < 16
    requires EndpointBits(blk, 8) == EndpointBits(blk, 10)
    requires forall k :: 0 <= k < 16 ==> AlphaCode(blk, k) == 0
    ensures PixelOf(blk, i) == MaxColour(blk).(a := Bits(blk[0]))
  {
    var c := ColourCode(blk, i);
    var hi := MaxColour(blk);
    if c <= 1 {
      AliasedAlpha(blk, i);
    } else {
      RoundThirds(hi.r * 3);
      RoundThirds(hi.g * 3);
      RoundThirds(hi.b * 3);
    }
  }

  /** When every alpha code of a block is the same code, every pixel shows that code's alpha,
      the aliased pixels included: all `maxA` for code 0, all `minA` for code 1. */
  lemma UniformAlpha(blk: Block, code: int)
    requires 0 <= code < 8
    requires forall i :: 0 <= i < 16 ==> AlphaCode(blk, i) == code
    ensures forall i :: 0 <= i < 16 ==> BlockPixels(blk)[i].a == AlphaValue(blk, code)
  {
    forall i | 0 <= i < 16
      ensures PixelOf(blk, i).a == AlphaValue(blk, code)
    {
      if ColourCode(blk, i) <= 1 {
        AliasedAlpha(blk, i);
      }
    }
  }

  /** Equal alpha endpoints give the same alpha for every code. */
  lemma SameAlphaEnds(blk: Block, code: int)
    requires 0 <= code < 8 && blk[0] == blk[1]
    ensures AlphaValue(blk, code) == Bits(blk[0])
  {
    if code >= 2 && blk[0].Some? {
      var v := blk[0].value;
      assert v * (8 - code) + v * (code - 1) == 7 * v;
    }
  }

  /** A block whose two colour endpoints are equal and whose two alpha endpoints are equal
      decodes to sixteen copies of one colour, the literal unpack of the endpoint with alpha
      `maxA`, whatever its codes are. */
  lemma UniformEndpoints(blk: Block)
    requires EndpointBits(blk, 8) == EndpointBits(blk, 10)
    requires blk[0] == blk[1]
    ensures forall i :: 0 <= i < 16 ==> BlockPixels(blk)[i] == MaxColour(blk).(a := Bits(blk[0]))
  {
    forall i | 0 <= i < 16
      ensures PixelOf(blk, i) == MaxColour(blk).(a := Bits(blk[0]))
    {
      var c := ColourCode(blk, i);
      var hi := MaxColour(blk);
      if c <= 1 {
        AliasedAlpha(blk, i);
        SameAlphaEnds(blk, AlphaCode(blk, LastWith(blk, c, 16)));
      } else {
        SameAlphaEnds(blk, AlphaCode(blk, i));
        RoundThirds(hi.r * 3);
        RoundThirds(hi.g * 3);
        RoundThirds(hi.b * 3);
      }
    }
  }
}
