/**
 * The FSOF container reader (`FSOF.prototype.read`): a 9-byte header, an
 * optionally gzip-compressed body holding six fixed fields, length-prefixed
 * texture blobs (with an optional night section) and, for the floor and then
 * the wall, a vertex table of 32-byte records followed by a uint32 index table.
 *
 * The reader keeps an integer cursor; every fixed-width read goes through
 * `ByteView`, so a read outside the buffer is a failure, while blob and
 * index-table slices clamp as `ArrayBuffer.slice` does. Declared sizes are
 * signed int32 values used as they are, negative ones included.
 */
module FsofReader {
  import opened Wrappers
  import opened ByteView
  import HexFormat

  /** The raw IEEE-754 single-precision bit pattern of a float. */
  type F32 = u32
  type Vec3 = s: seq<F32> | |s| == 3 witness [0, 0, 0]
  type Vec2 = s: seq<F32> | |s| == 2 witness [0, 0]

  datatype Vertex = Vertex(pos: Vec3, texC: Vec2, normal: Vec3)

  /** One surface's vertex table and index table, in file order. */
  datatype Geometry = Geometry(vertices: seq<Vertex>, indices: seq<u32>)

  /** The optional night variant: two more texture blobs and the ambient light colour text. */
  datatype Night = Night(floorTexData: seq<byte>, wallTexData: seq<byte>, lightColor: string)

  /** The fields the reader sets on the FSOF object. `night` is present exactly when `hasNight != 0`. */
  datatype Document = Document(
    version: i32,
    compressed: byte,
    texCompressionType: i32,
    floorWidth: i32,
    floorHeight: i32,
    wallWidth: i32,
    wallHeight: i32,
    hasNight: byte,
    floorTexData: seq<byte>,
    wallTexData: seq<byte>,
    night: Option<Night>,
    floor: Geometry,
    wall: Geometry)

  /** A decoded value and the cursor just past the bytes it came from. */
  datatype Read<+T> = Read(value: T, next: int)

  /** The gunzip collaborator: the decompressed bytes, or `None` when it throws. */
  type Inflate = seq<byte> -> Option<seq<byte>>

  /** Size of the container header; the uncompressed body starts here. */
  const HeaderSize := 9

  /** The int32 at `o`, as `DataView.getInt32(o, true)` returns it. */
  function Int32At(buf: seq<byte>, o: int): i32
    requires InBounds(buf, o, 4)
  {
    ToInt32(WordAt(buf, o))
  }

  /** A length-prefixed blob: an int32 size `n` at `off`, then `buf.slice(off + 4, off + 4 + n)`.
      The cursor moves by `4 + n` whether or not the slice was clamped. */
  function ReadBlob(buf: seq<byte>, off: int): (r: Result<Read<seq<byte>>, DecodeError>)
    ensures r.Success? <==> InBounds(buf, off, 4)
    ensures r.Success? ==> r.value.next == off + 4 + Int32At(buf, off)
  {
    var size :- ReadI32(buf, off);
    var start := off + 4;
    Success(Read(JsSlice(buf, start, start + size), start + size))
  }

  /** A blob with a non-negative declared size holds the bytes after its prefix, up to the size or the
      buffer end, whichever comes first; a negative size yields an empty blob whenever the computed end
      lies before the start. */
  lemma BlobValue(buf: seq<byte>, off: int)
    requires InBounds(buf, off, 4)
    ensures var n := Int32At(buf, off);
      && (n >= 0 ==> ReadBlob(buf, off).value.value == buf[off + 4..Min(off + 4 + n, |buf|)])
      && (n < 0 && off + 4 + n >= 0 ==> ReadBlob(buf, off).value.value == [])
  {
    var n := Int32At(buf, off);
    if n >= 0 {
      JsSliceForward(buf, off + 4, off + 4 + n);
    }
  }

  /** One vertex: the eight `getFloat32` reads at `off`, `off + 4`, ..., `off + 28`
      all succeed exactly when the whole 32-byte record lies inside the buffer. */
  function ReadVertex(buf: seq<byte>, off: int): (r: Result<Vertex, DecodeError>)
    ensures r.Success? <==> InBounds(buf, off, 32)
    ensures r.Success? ==> r.value == VertexAt(buf, off)
  {
    if InBounds(buf, off, 32) then Success(VertexAt(buf, off)) else Failure(OutOfBounds)
  }

  /** The vertex loop of `readVerts`: `count` records from `off`, in file order.
      A non-positive count reads nothing. */
  function ReadVertices(buf: seq<byte>, off: int, count: int): (r: Result<seq<Vertex>, DecodeError>)
    ensures r.Success? <==> count <= 0 || InBounds(buf, off, 32 * count)
    ensures r.Success? ==> |r.value| == Max(count, 0)
    ensures r.Success? ==> RecordsAt(buf, off, r.value)
    decreases count
  {
    if count <= 0 then Success([])
    else
      var v :- ReadVertex(buf, off);
      var rest :- ReadVertices(buf, off + 32, count - 1);
      assert ([v] + rest)[1..] == rest;
      Success([v] + rest)
  }

  /** `vs` are the vertices of consecutive 32-byte records from `off`, in order. */
  predicate RecordsAt(buf: seq<byte>, off: int, vs: seq<Vertex>)
    decreases |vs|
  {
    |vs| == 0 || (InBounds(buf, off, 32) && vs[0] == VertexAt(buf, off) && RecordsAt(buf, off + 32, vs[1..]))
  }

  /** The `i`-th vertex came from the record at `off + 32 * i`. */
  lemma {:induction false} RecordAt(buf: seq<byte>, off: int, vs: seq<Vertex>, i: nat)
    requires RecordsAt(buf, off, vs) && i < |vs|
    ensures InBounds(buf, off + 32 * i, 32) && vs[i] == VertexAt(buf, off + 32 * i)
    decreases i
  {
    if i > 0 {
      RecordAt(buf, off + 32, vs[1..], i - 1);
    }
  }

  /** The vertex whose 32-byte record starts at `o`: position from bytes 0-11, texture coordinate
      from 12-19, normal from 20-31, each component a little-endian 4-byte word. */
  function VertexAt(buf: seq<byte>, o: int): Vertex
    requires InBounds(buf, o, 32)
  {
    Vertex([WordAt(buf, o), WordAt(buf, o + 4), WordAt(buf, o + 8)],
           [WordAt(buf, o + 12), WordAt(buf, o + 16)],
           [WordAt(buf, o + 20), WordAt(buf, o + 24), WordAt(buf, o + 28)])
  }

  /** The index table of `readVerts`: `new Uint32Array(buf.slice(off, count * 4 + off))`.
      A slice clamped to a length that is not a multiple of 4 makes the typed array throw. */
  function ReadIndices(buf: seq<byte>, off: int, count: int): (r: Result<seq<u32>, DecodeError>)
    ensures count == 0 ==> r == Success([])
    ensures 0 <= count && InBounds(buf, off, 4 * count) ==>
      r.Success? && |r.value| == count && WordsAt(buf, off, r.value)
  {
    var bytes := JsSlice(buf, off, count * 4 + off);
    if |bytes| % 4 != 0 then Failure(MisalignedIndexTable)
    else if 0 <= count && 0 <= off <= |buf| then
      JsSliceForward(buf, off, count * 4 + off);
      WordsOfSlice(buf, off, |bytes|);
      Success(Words(bytes))
    else
      Success(Words(bytes))
  }

  /** The words of a byte string whose length is a multiple of 4 (a little-endian `Uint32Array` view). */
  function Words(bytes: seq<byte>): (ws: seq<u32>)
    requires |bytes| % 4 == 0
    ensures |ws| == |bytes| / 4
  {
    seq(|bytes| / 4, j requires 0 <= j < |bytes| / 4 => WordAt(bytes, 4 * j))
  }

  /** `ws[j]` is the word at `off + 4 * j`. */
  predicate WordsAt(buf: seq<byte>, off: int, ws: seq<u32>) {
    forall j {:trigger ws[j]} :: 0 <= j < |ws| ==> InBounds(buf, off + 4 * j, 4) && ws[j] == WordAt(buf, off + 4 * j)
  }

  lemma WordsOfSlice(buf: seq<byte>, off: int, len: nat)
    requires InBounds(buf, off, len) && len % 4 == 0
    ensures WordsAt(buf, off, Words(buf[off..off + len]))
  {
    var ws := Words(buf[off..off + len]);
    forall j | 0 <= j < |ws|
      ensures InBounds(buf, off + 4 * j, 4) && ws[j] == WordAt(buf, off + 4 * j)
    {
      WordAtSlice(buf, off, len, 4 * j);
    }
  }

  /** An index table cut short by the end of the buffer: the slice clamps, so the
      table holds the whole words that remain when their byte count is a multiple
      of 4, and the typed-array constructor throws otherwise. */
  lemma IndicesClamp(buf: seq<byte>, off: int, count: int)
    requires 0 <= count && 0 <= off <= |buf|
    ensures var r := ReadIndices(buf, off, count);
      var avail := Min(4 * count, |buf| - off);
      && (r.Success? <==> avail % 4 == 0)
      && (r.Success? ==> |r.value| == avail / 4 && WordsAt(buf, off, r.value))
  {
    var avail := Min(4 * count, |buf| - off);
    JsSliceForward(buf, off, count * 4 + off);
    if avail % 4 == 0 {
      WordsOfSlice(buf, off, avail);
    }
  }

  /** `readVerts`: vertex count, vertex records, index count, index words. */
  function ReadGeometry(buf: seq<byte>, off: int): (r: Result<Read<Geometry>, DecodeError>)
    ensures r.Success? ==> GeometrySpan(buf, off, |r.value.value.vertices|, r.value.next)
    ensures r.Success? && InBounds(buf, off, 4) && Int32At(buf, IndexTableAt(buf, off)) == 0 ==>
      r.value.value.indices == []
  {
    var vertCount :- ReadI32(buf, off);
    var vertices :- ReadVertices(buf, off + 4, vertCount);
    var indexAt := off + 4 + 32 * Max(vertCount, 0);
    var indCount :- ReadI32(buf, indexAt);
    var indices :- ReadIndices(buf, indexAt + 4, indCount);
    Success(Read(Geometry(vertices, indices), indexAt + 4 + indCount * 4))
  }

  /** Where the index count of the geometry at `off` sits: after the count word and the vertex records. */
  function IndexTableAt(buf: seq<byte>, off: int): int
    requires InBounds(buf, off, 4)
  {
    off + 4 + 32 * Max(Int32At(buf, off), 0)
  }

  /** The geometry from `off` holds `vertexCount` vertices (the declared count, or none when it is
      negative) and ends at `next`: after the index count and `4 * indexCount` bytes. */
  predicate GeometrySpan(buf: seq<byte>, off: int, vertexCount: int, next: int) {
    && InBounds(buf, off, 4)
    && vertexCount == Max(Int32At(buf, off), 0)
    && var indexAt := IndexTableAt(buf, off);
    && InBounds(buf, indexAt, 4)
    && next == indexAt + 4 + 4 * Int32At(buf, indexAt)
  }

  /** The night section: two length-prefixed blobs, then the light colour as
      '#' and the lower-case hexadecimal text of a little-endian uint32. */
  function ReadNight(buf: seq<byte>, off: int): Result<Read<Night>, DecodeError>
  {
    var floorBlob :- ReadBlob(buf, off);
    var wallBlob :- ReadBlob(buf, floorBlob.next);
    var colour :- ReadU32(buf, wallBlob.next);
    Success(Read(Night(floorBlob.value, wallBlob.value, "#" + HexFormat.Hex(colour)), wallBlob.next + 4))
  }

  /** A night section that reads spans a floor blob, a wall blob and a 4-byte colour,
      and its light colour text denotes the little-endian colour word. */
  lemma NightShape(buf: seq<byte>, off: int)
    ensures var r := ReadNight(buf, off);
      r.Success? ==> NightSpan(buf, off, r.value.next) && ColourText(r.value.value.lightColor, WordAt(buf, r.value.next - 4))
  {
    var r := ReadNight(buf, off);
    if r.Success? {
      var wallAt := ReadBlob(buf, off).value.next;
      var colourAt := ReadBlob(buf, wallAt).value.next;
      NightSpanOf(buf, off, wallAt, colourAt);
      ColourTextOf(WordAt(buf, colourAt));
    }
  }

  lemma NightSpanOf(buf: seq<byte>, off: int, wallAt: int, colourAt: int)
    requires InBounds(buf, off, 4) && wallAt == off + 4 + Int32At(buf, off)
    requires InBounds(buf, wallAt, 4) && colourAt == wallAt + 4 + Int32At(buf, wallAt)
    requires InBounds(buf, colourAt, 4)
    ensures NightSpan(buf, off, colourAt + 4)
  {
  }

  /** The night section from `off` ends at `next`: a floor blob, a wall blob and a 4-byte colour. */
  predicate NightSpan(buf: seq<byte>, off: int, next: int) {
    && InBounds(buf, off, 4)
    && var wallAt := off + 4 + Int32At(buf, off);
    && InBounds(buf, wallAt, 4)
    && var colourAt := wallAt + 4 + Int32At(buf, wallAt);
    && InBounds(buf, colourAt, 4)
    && next == colourAt + 4
  }

  /** `text` is '#' followed by hexadecimal digits whose value is `colour`. */
  predicate ColourText(text: string, colour: nat) {
    |text| >= 2 && text[0] == '#' && HexFormat.HexValue(text[1..]) == colour
  }

  lemma ColourTextOf(colour: u32)
    ensures ColourText("#" + HexFormat.Hex(colour), colour)
  {
    var text := "#" + HexFormat.Hex(colour);
    assert text[1..] == HexFormat.Hex(colour);
    HexFormat.HexRoundTrip(colour);
  }

  /** `if (this.hasNight) { ... }`: the night section is consumed only when the flag is non-zero. */
  function ReadOptionalNight(buf: seq<byte>, hasNight: byte, off: int): (r: Result<Read<Option<Night>>, DecodeError>)
    ensures hasNight == 0 ==> r == Success(Read(None, off))
    ensures hasNight != 0 ==>
      && (r.Success? <==> ReadNight(buf, off).Success?)
      && (r.Success? ==> r.value.value == Some(ReadNight(buf, off).value.value)
                         && r.value.next == ReadNight(buf, off).value.next)
  {
    if hasNight != 0 then
      var night :- ReadNight(buf, off);
      Success(Read(Some(night.value), night.next))
    else
      Success(Read(None, off))
  }

  /** The body, starting at `off`: six fixed fields, the texture blobs, and the floor then wall geometry. */
  function ReadBody(buf: seq<byte>, off: int, version: i32, compressed: byte): (r: Result<Read<Document>, DecodeError>)
    ensures r.Success? ==>
      && InBounds(buf, off, 25)
      && r.value.value.version == version
      && r.value.value.compressed == compressed
      && r.value.value.texCompressionType == Int32At(buf, off)
      && r.value.value.floorWidth == Int32At(buf, off + 4)
      && r.value.value.floorHeight == Int32At(buf, off + 8)
      && r.value.value.wallWidth == Int32At(buf, off + 12)
      && r.value.value.wallHeight == Int32At(buf, off + 16)
      && r.value.value.hasNight == buf[off + 20]
      && (r.value.value.night.Some? <==> buf[off + 20] != 0)
  {
    var texCompressionType :- ReadI32(buf, off);
    var floorWidth :- ReadI32(buf, off + 4);
    var floorHeight :- ReadI32(buf, off + 8);
    var wallWidth :- ReadI32(buf, off + 12);
    var wallHeight :- ReadI32(buf, off + 16);
    var hasNight :- ReadU8(buf, off + 20);
    var floorTex :- ReadBlob(buf, off + 21);
    var wallTex :- ReadBlob(buf, floorTex.next);
    var night :- ReadOptionalNight(buf, hasNight, wallTex.next);
    var floor :- ReadGeometry(buf, night.next);
    var wall :- ReadGeometry(buf, floor.next);
    Success(Read(Document(version, compressed, texCompressionType, floorWidth, floorHeight,
                          wallWidth, wallHeight, hasNight, floorTex.value, wallTex.value,
                          night.value, floor.value, wall.value),
                 wall.next))
  }

  /** `FSOF.prototype.read`: the header, then the body from offset 9 of `buf`, or,
      when the compression flag is non-zero, from offset 0 of `inflate(buf[9..])`. */
  function Parse(buf: seq<byte>, inflate: Inflate): (r: Result<Document, DecodeError>)
    ensures |buf| < HeaderSize ==> r == Failure(OutOfBounds)
    ensures r.Success? ==>
      && r.value.version == Int32At(buf, 4)
      && r.value.compressed == buf[8]
  {
    var version :- ReadI32(buf, 4);
    var compressed :- ReadU8(buf, 8);
    if compressed > 0 then
      var body :- Inflated(inflate(buf[HeaderSize..]));
      var doc :- ReadBody(body, 0, version, compressed);
      Success(doc.value)
    else
      var doc :- ReadBody(buf, HeaderSize, version, compressed);
      Success(doc.value)
  }

  function Inflated(out: Option<seq<byte>>): Result<seq<byte>, DecodeError>
  {
    match out
    case Some(body) => Success(body)
    case None => Failure(InflateFailed)
  }
}
