/**
 * What `FSOF.prototype.read` promises about where each field comes from:
 * the header, the choice between the raw and the inflated body, the cursor
 * through the body, and the order of the two `readVerts` passes.
 */
module FsofProperties {
  import opened Wrappers
  import opened ByteView
  import opened FsofReader

  /** An uncompressed file is read from offset 9 of the buffer itself, and whatever
      the inflater would do makes no difference. */
  lemma ParseUncompressed(buf: seq<byte>, inflate: Inflate, other: Inflate)
    requires |buf| >= HeaderSize && buf[8] == 0
    ensures Parse(buf, inflate) == Parse(buf, other)
    ensures var body := ReadBody(buf, HeaderSize, Int32At(buf, 4), 0);
      && (Parse(buf, inflate).Success? <==> body.Success?)
      && (body.Success? ==> Parse(buf, inflate).value == body.value.value)
  {
  }

  /** A compressed file hands everything after byte 8 to the inflater and reads the
      body from offset 0 of what comes back; an inflater failure is the parse's failure. */
  lemma ParseCompressed(buf: seq<byte>, inflate: Inflate)
    requires |buf| >= HeaderSize && buf[8] != 0
    ensures inflate(buf[HeaderSize..]).None? ==> Parse(buf, inflate) == Failure(InflateFailed)
    ensures inflate(buf[HeaderSize..]).Some? ==>
      var body := ReadBody(inflate(buf[HeaderSize..]).value, 0, Int32At(buf, 4), buf[8]);
      && (Parse(buf, inflate).Success? <==> body.Success?)
      && (body.Success? ==> Parse(buf, inflate).value == body.value.value)
  {
  }

  /** In a compressed file the first four bytes are never looked at: two buffers that differ
      only there parse alike. */
  lemma MagicIgnoredCompressed(a: seq<byte>, b: seq<byte>, inflate: Inflate)
    requires |a| == |b| >= HeaderSize && a[4..] == b[4..]
    requires a[8] != 0
    ensures Parse(a, inflate) == Parse(b, inflate)
  {
    assert a[HeaderSize..] == a[4..][5..];
    assert b[HeaderSize..] == b[4..][5..];
    assert a[8] == a[4..][4] && b[8] == b[4..][4];
    assert WordAt(a, 4) == WordAt(b, 4) by {
      assert a[4] == a[4..][0] && a[5] == a[4..][1] && a[6] == a[4..][2] && a[7] == a[4..][3];
      assert b[4] == b[4..][0] && b[5] == b[4..][1] && b[6] == b[4..][2] && b[7] == b[4..][3];
    }
  }

  /** The fixed fields, the two texture blobs and their cursor: the floor blob is the slice
      of `floorSize` bytes after its size word at 21, the wall size word follows right after
      those bytes, and the optional night section starts after the `wallSize` bytes that follow
      it (each slice clamped at the buffer end). */
  lemma BodyCursor(buf: seq<byte>, off: int, version: i32, compressed: byte)
    requires ReadBody(buf, off, version, compressed).Success?
    ensures InBounds(buf, off, 25)
    ensures var floorSize := Int32At(buf, off + 21);
      && InBounds(buf, off + 25 + floorSize, 4)
      && var wallSize := Int32At(buf, off + 25 + floorSize);
      && NightAt(buf, off) == off + 25 + floorSize + 4 + wallSize
      && var doc := ReadBody(buf, off, version, compressed).value.value;
      && doc.floorTexData == JsSlice(buf, off + 25, off + 25 + floorSize)
      && doc.wallTexData == JsSlice(buf, off + 25 + floorSize + 4, NightAt(buf, off))
  {
    BodyBlobs(buf, off, version, compressed);
  }

  /** The two blobs of a body that reads, as `ReadBlob` gives them. */
  lemma BodyBlobs(buf: seq<byte>, off: int, version: i32, compressed: byte)
    requires ReadBody(buf, off, version, compressed).Success?
    ensures ReadBlob(buf, off + 21).Success?
    ensures ReadBlob(buf, ReadBlob(buf, off + 21).value.next).Success?
    ensures var doc := ReadBody(buf, off, version, compressed).value.value;
      && doc.floorTexData == ReadBlob(buf, off + 21).value.value
      && doc.wallTexData == ReadBlob(buf, ReadBlob(buf, off + 21).value.next).value.value
  {
  }

  /** Without a night section the floor geometry starts right after the wall blob; with one,
      it starts `4 + nf + 4 + nw + 4` bytes later. The wall geometry starts where the floor
      geometry ends. */
  lemma GeometryOrder(buf: seq<byte>, off: int, version: i32, compressed: byte)
    requires ReadBody(buf, off, version, compressed).Success?
    ensures var nightAt := NightAt(buf, off);
      var r := ReadBody(buf, off, version, compressed).value;
      && (buf[off + 20] == 0 ==> FloorAt(buf, off, nightAt) == nightAt)
      && (buf[off + 20] != 0 ==> NightSpan(buf, nightAt, FloorAt(buf, off, nightAt)))
      && ReadGeometry(buf, FloorAt(buf, off, nightAt)) == Success(Read(r.value.floor, WallAt(buf, off, nightAt)))
      && ReadGeometry(buf, WallAt(buf, off, nightAt)) == Success(Read(r.value.wall, r.next))
  {
    var nightAt := NightAt(buf, off);
    var night := ReadOptionalNight(buf, buf[off + 20], nightAt);
    if buf[off + 20] != 0 {
      NightShape(buf, nightAt);
    }
  }

  /** The cursor after the wall blob, where the optional night section starts. */
  function NightAt(buf: seq<byte>, off: int): int
    requires ReadBlob(buf, off + 21).Success? && ReadBlob(buf, ReadBlob(buf, off + 21).value.next).Success?
  {
    ReadBlob(buf, ReadBlob(buf, off + 21).value.next).value.next
  }

  /** The cursor where `readVerts` starts for the floor. */
  function FloorAt(buf: seq<byte>, off: int, nightAt: int): int
    requires 0 <= off + 20 < |buf| && ReadOptionalNight(buf, buf[off + 20], nightAt).Success?
  {
    ReadOptionalNight(buf, buf[off + 20], nightAt).value.next
  }

  /** The cursor where `readVerts` starts for the wall. */
  function WallAt(buf: seq<byte>, off: int, nightAt: int): int
    requires 0 <= off + 20 < |buf| && ReadOptionalNight(buf, buf[off + 20], nightAt).Success?
    requires ReadGeometry(buf, FloorAt(buf, off, nightAt)).Success?
  {
    ReadGeometry(buf, FloorAt(buf, off, nightAt)).value.next
  }

  /** The contents of a geometry: vertex `i` from the 32-byte record at `off + 4 + 32 * i`,
      index `j` the little-endian word `j` of the table after the index count when the whole
      table lies in the buffer, and a zero count an empty table rather than an error. */
  lemma GeometryContents(buf: seq<byte>, off: int)
    requires ReadGeometry(buf, off).Success?
    ensures var g := ReadGeometry(buf, off).value.value;
      var indexAt := IndexTableAt(buf, off);
      var m := Int32At(buf, indexAt);
      && (forall i :: 0 <= i < |g.vertices| ==>
            InBounds(buf, off + 4 + 32 * i, 32) && g.vertices[i] == VertexAt(buf, off + 4 + 32 * i))
      && (Int32At(buf, off) <= 0 ==> g.vertices == [])
      && (m == 0 ==> g.indices == [])
      && (0 <= m && InBounds(buf, indexAt + 4, 4 * m) ==> |g.indices| == m && WordsAt(buf, indexAt + 4, g.indices))
  {
    var n := Int32At(buf, off);
    var vs := ReadVertices(buf, off + 4, n).value;
    forall i | 0 <= i < |vs|
      ensures InBounds(buf, off + 4 + 32 * i, 32) && vs[i] == VertexAt(buf, off + 4 + 32 * i)
    {
      RecordAt(buf, off + 4, vs, i);
    }
  }

  /** The first four bytes are not ignored in every uncompressed file: when the floor blob
      declares the size -34 the cursor moves back to offset 0, and the wall blob's size word
      is read from those four bytes. */
  lemma MagicReadBack(buf: seq<byte>, inflate: Inflate)
    requires |buf| >= 34 && buf[8] == 0
    requires Int32At(buf, 30) == -34
    requires Parse(buf, inflate).Success?
    ensures Parse(buf, inflate).value.wallTexData == JsSlice(buf, 4, 4 + Int32At(buf, 0))
  {
    ParseUncompressed(buf, inflate, inflate);
    BodyCursor(buf, HeaderSize, Int32At(buf, 4), 0);
  }
}
