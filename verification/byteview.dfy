/**
 * Fixed-width little-endian reads over an immutable byte buffer, as
 * JavaScript's `DataView` performs them, and `ArrayBuffer.prototype.slice`.
 *
 * A `DataView` read throws a `RangeError` when its offset is negative or the
 * read would run past the buffer end; `slice` never throws and clamps its
 * arguments, counting negative arguments from the end of the buffer.
 */
module ByteView {
  import opened Wrappers

  type byte = x: int | 0 <= x < 0x100
  type u32 = x: int | 0 <= x < 0x1_0000_0000
  type i32 = x: int | -0x8000_0000 <= x < 0x8000_0000

  /** The errors a decode can raise. */
  datatype DecodeError =
    | OutOfBounds            // a DataView read outside the buffer (RangeError)
    | MisalignedIndexTable   // `new Uint32Array(b)` on a length not a multiple of 4 (RangeError)
    | InflateFailed          // the gunzip collaborator rejected the compressed body

  function Min(a: int, b: int): int { if a <= b then a else b }
  function Max(a: int, b: int): int { if a <= b then b else a }

  predicate InBounds(buf: seq<byte>, off: int, width: nat) {
    0 <= off && off + width <= |buf|
  }

  /** The unsigned value of the four bytes at `o`, read little-endian (first byte least significant). */
  function WordAt(buf: seq<byte>, o: int): (v: u32)
    requires InBounds(buf, o, 4)
  {
    var b0: int, b1: int, b2: int, b3: int := buf[o], buf[o + 1], buf[o + 2], buf[o + 3];
    b0 + 0x100 * b1 + 0x1_0000 * b2 + 0x100_0000 * b3
  }

  /** The little-endian encoding of a 32-bit word. */
  function WordBytes(w: u32): (bs: seq<byte>)
    ensures |bs| == 4
  {
    var q1 := w / 0x100;
    var q2 := q1 / 0x100;
    [w % 0x100, q1 % 0x100, q2 % 0x100, q2 / 0x100]
  }

  /** Encoding then reading back a word gives it back. */
  lemma WordRoundTrip(w: u32)
    ensures WordAt(WordBytes(w), 0) == w
  {
    var q1 := w / 0x100;
    var q2 := q1 / 0x100;
    assert w == w % 0x100 + 0x100 * q1;
    assert q1 == q1 % 0x100 + 0x100 * q2;
    assert q2 == q2 % 0x100 + 0x100 * (q2 / 0x100);
  }

  /** The two's-complement reading of a 32-bit pattern. */
  function ToInt32(u: u32): (x: i32)
  {
    if u < 0x8000_0000 then u else u - 0x1_0000_0000
  }

  /** The 32-bit pattern of a signed value. */
  function ToUint32(x: i32): (u: u32)
  {
    if x < 0 then x + 0x1_0000_0000 else x
  }

  /** The two readings are inverse to each other. */
  lemma Int32RoundTrip(x: i32, u: u32)
    ensures ToInt32(ToUint32(x)) == x
    ensures ToUint32(ToInt32(u)) == u
  {
  }

  /** `DataView.getUint8`. */
  function ReadU8(buf: seq<byte>, off: int): (r: Result<byte, DecodeError>)
    ensures r.Success? <==> 0 <= off < |buf|
    ensures r.Success? ==> r.value == buf[off]
  {
    if 0 <= off < |buf| then Success(buf[off]) else Failure(OutOfBounds)
  }

  /** `DataView.getUint32(off, true)`. */
  function ReadU32(buf: seq<byte>, off: int): (r: Result<u32, DecodeError>)
    ensures r.Success? <==> InBounds(buf, off, 4)
    ensures r.Success? ==> r.value == WordAt(buf, off)
  {
    if InBounds(buf, off, 4) then Success(WordAt(buf, off)) else Failure(OutOfBounds)
  }

  /** `DataView.getInt32(off, true)`. */
  function ReadI32(buf: seq<byte>, off: int): (r: Result<i32, DecodeError>)
    ensures r.Success? <==> InBounds(buf, off, 4)
    ensures r.Success? ==> r.value == ToInt32(WordAt(buf, off))
  {
    var u :- ReadU32(buf, off);
    Success(ToInt32(u))
  }

  /** `ArrayBuffer.prototype.slice(start, end)`: arguments clamp to the buffer,
      a negative argument counts from the end, and a reversed range is empty. */
  function JsSlice(buf: seq<byte>, start: int, end: int): (r: seq<byte>)
    ensures |r| <= |buf|
  {
    var first := if start < 0 then Max(|buf| + start, 0) else Min(start, |buf|);
    var final := if end < 0 then Max(|buf| + end, 0) else Min(end, |buf|);
    if first < final then buf[first..final] else []
  }

  /** With non-negative arguments in order, `slice` is the subsequence between them, cut at the buffer end. */
  lemma JsSliceForward(buf: seq<byte>, start: int, end: int)
    requires 0 <= start <= end
    ensures JsSlice(buf, start, end) == buf[Min(start, |buf|)..Min(end, |buf|)]
  {
  }

  /** A negative start counts back from the end of the buffer: `slice(start, end)` begins at
      `|buf| + start`, and is empty unless that lies before the (clamped) end. */
  lemma JsSliceFromEnd(buf: seq<byte>, start: int, end: int)
    requires -|buf| <= start < 0 <= end
    ensures JsSlice(buf, start, end) ==
      if |buf| + start < Min(end, |buf|) then buf[|buf| + start..Min(end, |buf|)] else []
  {
  }

  /** A negative end counts back from the end of the buffer: `slice(start, end)` stops at
      `|buf| + end`, and is empty unless the (clamped) start lies before that. */
  lemma JsSliceEndFromEnd(buf: seq<byte>, start: int, end: int)
    requires 0 <= start && -|buf| <= end < 0
    ensures JsSlice(buf, start, end) ==
      if Min(start, |buf|) < |buf| + end then buf[Min(start, |buf|)..|buf| + end] else []
  {
  }

  /** An argument below `-|buf|` counts back past the start and clamps to 0. */
  lemma JsSliceBeforeStart(buf: seq<byte>, start: int, end: int)
    requires start < -|buf|
    ensures JsSlice(buf, start, end) == JsSlice(buf, 0, end)
  {
  }

  /** A word read from a slice is the word at the matching offset of the original. */
  lemma WordAtSlice(buf: seq<byte>, off: int, len: nat, o: int)
    requires InBounds(buf, off, len) && 0 <= o && o + 4 <= len
    ensures WordAt(buf[off..off + len], o) == WordAt(buf, off + o)
  {
    var s := buf[off..off + len];
    assert s[o] == buf[off + o] && s[o + 1] == buf[off + o + 1];
    assert s[o + 2] == buf[off + o + 2] && s[o + 3] == buf[off + o + 3];
  }

  /** The four bytes a writer emits for an int32 field. */
  function I32Bytes(x: i32): (bs: seq<byte>)
    ensures |bs| == 4
  {
    WordBytes(ToUint32(x))
  }
}
