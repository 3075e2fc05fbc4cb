/**
 * The byte layout the reader expects, written out as an encoder, and the
 * round trip: encoding a document with non-negative sizes and parsing the
 * bytes back gives the same header fields, byte-identical texture blobs and
 * bit-identical vertex and index data.
 */
module FsofLayout {
  import opened Wrappers
  import opened ByteView
  import opened FsofReader
  import HexFormat

  /** The night section as stored: the light colour is the raw uint32. */
  datatype NightLayout = NightLayout(floorTexData: seq<byte>, wallTexData: seq<byte>, lightColor: u32)

  /** Everything a file holds; every size prefix is derived from a length. */
  datatype Layout = Layout(
    magic: seq<byte>,
    version: i32,
    compressed: byte,
    texCompressionType: i32,
    floorWidth: i32,
    floorHeight: i32,
    wallWidth: i32,
    wallHeight: i32,
    hasNight: byte,
    floorTexData: seq<byte>,
    wallTexData: seq<byte>,
    night: Option<NightLayout>,
    floor: Geometry,
    wall: Geometry)

  const MaxInt32 := 0x7FFF_FFFF

  predicate GeometryFits(g: Geometry) {
    |g.vertices| <= MaxInt32 && |g.indices| <= MaxInt32
  }

  /** Sizes fit their int32 prefixes, the magic is four bytes, and the night
      section is present exactly when the flag says so. */
  predicate WellFormed(l: Layout) {
    && |l.magic| == 4
    && |l.floorTexData| <= MaxInt32
    && |l.wallTexData| <= MaxInt32
    && (l.hasNight != 0 <==> l.night.Some?)
    && (l.night.Some? ==>
          |l.night.value.floorTexData| <= MaxInt32 && |l.night.value.wallTexData| <= MaxInt32)
    && GeometryFits(l.floor)
    && GeometryFits(l.wall)
  }

  // Sizes of the encoded pieces, computed from the lengths alone.

  function GeometrySize(g: Geometry): nat {
    8 + 32 * |g.vertices| + 4 * |g.indices|
  }

  function NightSize(n: NightLayout): nat {
    12 + |n.floorTexData| + |n.wallTexData|
  }

  function OptionalNightSize(l: Layout): nat {
    if l.night.Some? then NightSize(l.night.value) else 0
  }

  function TextureSize(l: Layout): nat {
    8 + |l.floorTexData| + |l.wallTexData| + OptionalNightSize(l)
  }

  function BodySize(l: Layout): nat {
    21 + TextureSize(l) + GeometrySize(l.floor) + GeometrySize(l.wall)
  }

  function BlobBytes(blob: seq<byte>): (bs: seq<byte>)
    requires |blob| <= MaxInt32
    ensures |bs| == 4 + |blob|
  {
    I32Bytes(|blob|) + blob
  }


  function VertexRecord(v: Vertex): (bs: seq<byte>)
    ensures |bs| == 32
  {
    WordBytes(v.pos[0]) + WordBytes(v.pos[1]) + WordBytes(v.pos[2]) +
    WordBytes(v.texC[0]) + WordBytes(v.texC[1]) +
    WordBytes(v.normal[0]) + WordBytes(v.normal[1]) + WordBytes(v.normal[2])
  }

  function VertexTable(vs: seq<Vertex>): (bs: seq<byte>)
    ensures |bs| == 32 * |vs|
  {
    if |vs| == 0 then [] else VertexRecord(vs[0]) + VertexTable(vs[1..])
  }

  function IndexTable(ins: seq<u32>): (bs: seq<byte>)
    ensures |bs| == 4 * |ins|
  {
    if |ins| == 0 then [] else WordBytes(ins[0]) + IndexTable(ins[1..])
  }

  function GeometryBytes(g: Geometry): (bs: seq<byte>)
    requires GeometryFits(g)
    ensures |bs| == GeometrySize(g)
  {
    I32Bytes(|g.vertices|) + VertexTable(g.vertices) + I32Bytes(|g.indices|) + IndexTable(g.indices)
  }

  function NightBytes(n: NightLayout): (bs: seq<byte>)
    requires |n.floorTexData| <= MaxInt32 && |n.wallTexData| <= MaxInt32
    ensures |bs| == NightSize(n)
  {
    BlobBytes(n.floorTexData) + BlobBytes(n.wallTexData) + WordBytes(n.lightColor)
  }

  /** The container header: 4 ignored bytes, the version, the compression flag. */
  function HeaderBytes(l: Layout): (bs: seq<byte>)
    requires |l.magic| == 4
    ensures |bs| == HeaderSize
  {
    l.magic + I32Bytes(l.version) + [l.compressed]
  }

  /** The five int32 fields and the night flag at the start of the body. */
  function FieldBytes(l: Layout): (bs: seq<byte>)
    ensures |bs| == 21
  {
    I32Bytes(l.texCompressionType) + I32Bytes(l.floorWidth) + I32Bytes(l.floorHeight) +
    I32Bytes(l.wallWidth) + I32Bytes(l.wallHeight) + [l.hasNight]
  }

  /** The night section as stored, or nothing when the layout has none. */
  function OptionalNightBytes(l: Layout): (bs: seq<byte>)
    requires WellFormed(l)
    ensures |bs| == OptionalNightSize(l)
  {
    if l.night.Some? then NightBytes(l.night.value) else []
  }

  function TextureBytes(l: Layout): (bs: seq<byte>)
    requires WellFormed(l)
    ensures |bs| == TextureSize(l)
  {
    BlobBytes(l.floorTexData) + BlobBytes(l.wallTexData) + OptionalNightBytes(l)
  }

  /** The body: what follows the header, or what the compressed remainder inflates to. */
  function BodyBytes(l: Layout): (bs: seq<byte>)
    requires WellFormed(l)
    ensures |bs| == BodySize(l)
  {
    FieldBytes(l) + TextureBytes(l) + GeometryBytes(l.floor) + GeometryBytes(l.wall)
  }

  /** The document the reader is meant to produce for `l`. */
  function Decoded(l: Layout): Document {
    Document(l.version, l.compressed, l.texCompressionType, l.floorWidth, l.floorHeight,
             l.wallWidth, l.wallHeight, l.hasNight, l.floorTexData, l.wallTexData,
             match l.night
             case None => None
             case Some(n) => Some(Night(n.floorTexData, n.wallTexData, "#" + HexFormat.Hex(n.lightColor))),
             l.floor, l.wall)
  }

  // ---------------------------------------------------------------------------
  // Locating encoded pieces inside a buffer

  /** `x` occurs in `buf` at offset `p`, byte by byte. */
  predicate Holds(buf: seq<byte>, p: int, x: seq<byte>)
    decreases |x|
  {
    && 0 <= p && p + |x| <= |buf|
    && (|x| == 0 || (buf[p] == x[0] && Holds(buf, p + 1, x[1..])))
  }

  lemma {:induction false} HoldsAt(buf: seq<byte>, p: int, x: seq<byte>, i: int)
    requires Holds(buf, p, x) && 0 <= i < |x|
    ensures buf[p + i] == x[i]
    decreases i
  {
    if i > 0 {
      HoldsAt(buf, p + 1, x[1..], i - 1);
    }
  }

  lemma {:induction false} HoldsOf(buf: seq<byte>, p: int, x: seq<byte>)
    requires 0 <= p && p + |x| <= |buf|
    requires forall i :: 0 <= i < |x| ==> buf[p + i] == x[i]
    ensures Holds(buf, p, x)
    decreases |x|
  {
    if |x| > 0 {
      assert buf[p + 0] == x[0];
      forall i | 0 <= i < |x| - 1
        ensures buf[p + 1 + i] == x[1..][i]
      {
        assert buf[p + (i + 1)] == x[i + 1];
      }
      HoldsOf(buf, p + 1, x[1..]);
    }
  }

  lemma {:induction false} HoldsSplit(buf: seq<byte>, p: int, x: seq<byte>, y: seq<byte>)
    requires Holds(buf, p, x + y)
    ensures Holds(buf, p, x) && Holds(buf, p + |x|, y)
    decreases |x|
  {
    if |x| == 0 {
      assert x + y == y;
    } else {
      assert (x + y)[0] == x[0];
      assert (x + y)[1..] == x[1..] + y;
      HoldsSplit(buf, p + 1, x[1..], y);
    }
  }

  lemma HoldsSlice(buf: seq<byte>, p: int, x: seq<byte>)
    requires Holds(buf, p, x)
    ensures buf[p..p + |x|] == x
  {
    forall i | 0 <= i < |x|
      ensures buf[p..p + |x|][i] == x[i]
    {
      HoldsAt(buf, p, x, i);
    }
  }

  /** A buffer that starts with `x` holds it at offset 0. */
  lemma HoldsPrefix(x: seq<byte>, y: seq<byte>)
    ensures Holds(x + y, 0, x)
  {
    var xy := x + y;
    forall i | 0 <= i < |x|
      ensures xy[0 + i] == x[i]
    {
    }
    HoldsOf(xy, 0, x);
  }

  lemma WordAtHolds(buf: seq<byte>, p: int, w: u32)
    requires Holds(buf, p, WordBytes(w))
    ensures InBounds(buf, p, 4) && WordAt(buf, p) == w
  {
    var bs := WordBytes(w);
    WordRoundTrip(w);
    HoldsAt(buf, p, bs, 0);
    HoldsAt(buf, p, bs, 1);
    HoldsAt(buf, p, bs, 2);
    HoldsAt(buf, p, bs, 3);
  }

  lemma ReadI32Holds(buf: seq<byte>, p: int, x: i32)
    requires Holds(buf, p, I32Bytes(x))
    ensures ReadI32(buf, p) == Success(x)
  {
    WordAtHolds(buf, p, ToUint32(x));
    Int32RoundTrip(x, 0);
  }

  lemma ReadBlobHolds(buf: seq<byte>, p: int, blob: seq<byte>)
    requires |blob| <= MaxInt32
    requires Holds(buf, p, BlobBytes(blob))
    ensures ReadBlob(buf, p) == Success(Read(blob, p + 4 + |blob|))
  {
    HoldsSplit(buf, p, I32Bytes(|blob|), blob);
    ReadI32Holds(buf, p, |blob|);
    BlobValue(buf, p);
    HoldsSlice(buf, p + 4, blob);
  }

  lemma VertexAtHolds(buf: seq<byte>, p: int, v: Vertex)
    requires Holds(buf, p, VertexRecord(v))
    ensures InBounds(buf, p, 32) && VertexAt(buf, p) == v
  {
    var w0, w1, w2 := WordBytes(v.pos[0]), WordBytes(v.pos[1]), WordBytes(v.pos[2]);
    var w3, w4 := WordBytes(v.texC[0]), WordBytes(v.texC[1]);
    var w5, w6, w7 := WordBytes(v.normal[0]), WordBytes(v.normal[1]), WordBytes(v.normal[2]);
    HoldsSplit(buf, p, w0 + w1 + w2 + w3 + w4 + w5 + w6, w7);
    HoldsSplit(buf, p, w0 + w1 + w2 + w3 + w4 + w5, w6);
    HoldsSplit(buf, p, w0 + w1 + w2 + w3 + w4, w5);
    HoldsSplit(buf, p, w0 + w1 + w2 + w3, w4);
    HoldsSplit(buf, p, w0 + w1 + w2, w3);
    HoldsSplit(buf, p, w0 + w1, w2);
    HoldsSplit(buf, p, w0, w1);
    WordAtHolds(buf, p, v.pos[0]);
    WordAtHolds(buf, p + 4, v.pos[1]);
    WordAtHolds(buf, p + 8, v.pos[2]);
    WordAtHolds(buf, p + 12, v.texC[0]);
    WordAtHolds(buf, p + 16, v.texC[1]);
    WordAtHolds(buf, p + 20, v.normal[0]);
    WordAtHolds(buf, p + 24, v.normal[1]);
    WordAtHolds(buf, p + 28, v.normal[2]);
  }

  lemma {:induction false} ReadVerticesHolds(buf: seq<byte>, p: int, vs: seq<Vertex>)
    requires Holds(buf, p, VertexTable(vs))
    ensures ReadVertices(buf, p, |vs|) == Success(vs)
    decreases |vs|
  {
    if |vs| > 0 {
      HoldsSplit(buf, p, VertexRecord(vs[0]), VertexTable(vs[1..]));
      VertexAtHolds(buf, p, vs[0]);
      ReadVerticesHolds(buf, p + 32, vs[1..]);
      assert [vs[0]] + vs[1..] == vs;
    }
  }

  lemma {:induction false} IndexTableWords(buf: seq<byte>, p: int, ins: seq<u32>)
    requires Holds(buf, p, IndexTable(ins))
    ensures WordsAt(buf, p, ins)
    decreases |ins|
  {
    if |ins| > 0 {
      HoldsSplit(buf, p, WordBytes(ins[0]), IndexTable(ins[1..]));
      WordAtHolds(buf, p, ins[0]);
      IndexTableWords(buf, p + 4, ins[1..]);
      forall j | 1 <= j < |ins|
        ensures InBounds(buf, p + 4 * j, 4) && ins[j] == WordAt(buf, p + 4 * j)
      {
        var k := j - 1;
        assert InBounds(buf, p + 4 + 4 * k, 4) && ins[1..][k] == WordAt(buf, p + 4 + 4 * k);
      }
    }
  }

  lemma ReadIndicesHolds(buf: seq<byte>, p: int, ins: seq<u32>)
    requires Holds(buf, p, IndexTable(ins))
    ensures ReadIndices(buf, p, |ins|) == Success(ins)
  {
    IndexTableWords(buf, p, ins);
    ReadIndicesWords(buf, p, ins);
  }

  lemma ReadIndicesWords(buf: seq<byte>, p: int, ins: seq<u32>)
    requires InBounds(buf, p, 4 * |ins|) && WordsAt(buf, p, ins)
    ensures ReadIndices(buf, p, |ins|) == Success(ins)
  {
    var r := ReadIndices(buf, p, |ins|);
    assert r.Success? && |r.value| == |ins| && WordsAt(buf, p, r.value);
    forall j | 0 <= j < |ins|
      ensures r.value[j] == ins[j]
    {
      assert r.value[j] == WordAt(buf, p + 4 * j);
      assert ins[j] == WordAt(buf, p + 4 * j);
    }
    assert r.value == ins;
  }

  lemma ReadGeometryHolds(buf: seq<byte>, p: int, g: Geometry, next: int)
    requires GeometryFits(g)
    requires Holds(buf, p, GeometryBytes(g))
    requires next == p + GeometrySize(g)
    ensures ReadGeometry(buf, p) == Success(Read(g, next))
  {
    var countAt := p + 4 + 32 * |g.vertices|;
    var indexAt := countAt + 4;
    GeometryPieces(buf, p, g, countAt, indexAt);
    ReadI32Holds(buf, p, |g.vertices|);
    ReadVerticesHolds(buf, p + 4, g.vertices);
    ReadI32Holds(buf, countAt, |g.indices|);
    ReadIndicesHolds(buf, indexAt, g.indices);
    ReadGeometryFrom(buf, p, g, countAt, indexAt, next);
  }

  /** Where the two counts and the two tables sit inside an encoded geometry. */
  lemma GeometryPieces(buf: seq<byte>, p: int, g: Geometry, countAt: int, indexAt: int)
    requires GeometryFits(g)
    requires Holds(buf, p, GeometryBytes(g))
    requires countAt == p + 4 + 32 * |g.vertices| && indexAt == countAt + 4
    ensures Holds(buf, p, I32Bytes(|g.vertices|))
    ensures Holds(buf, p + 4, VertexTable(g.vertices))
    ensures Holds(buf, countAt, I32Bytes(|g.indices|))
    ensures Holds(buf, indexAt, IndexTable(g.indices))
  {
    var a := I32Bytes(|g.vertices|);
    var b := VertexTable(g.vertices);
    var c := I32Bytes(|g.indices|);
    var d := IndexTable(g.indices);
    HoldsSplit(buf, p, a + b + c, d);
    HoldsSplit(buf, p, a + b, c);
    HoldsSplit(buf, p, a, b);
  }

  /** `ReadGeometry` in terms of the four reads it performs. */
  lemma ReadGeometryFrom(buf: seq<byte>, p: int, g: Geometry, countAt: int, indexAt: int, next: int)
    requires countAt == p + 4 + 32 * |g.vertices| && indexAt == countAt + 4
    requires next == indexAt + 4 * |g.indices|
    requires ReadI32(buf, p) == Success(|g.vertices|)
    requires ReadVertices(buf, p + 4, |g.vertices|) == Success(g.vertices)
    requires ReadI32(buf, countAt) == Success(|g.indices|)
    requires ReadIndices(buf, indexAt, |g.indices|) == Success(g.indices)
    ensures ReadGeometry(buf, p) == Success(Read(g, next))
  {
    var vertCount := ReadI32(buf, p).value;
    assert p + 4 + 32 * Max(vertCount, 0) == countAt;
    assert indexAt + ReadI32(buf, countAt).value * 4 == next;
  }

  lemma ReadNightHolds(buf: seq<byte>, p: int, n: NightLayout, next: int)
    requires |n.floorTexData| <= MaxInt32 && |n.wallTexData| <= MaxInt32
    requires Holds(buf, p, NightBytes(n))
    requires next == p + NightSize(n)
    ensures ReadNight(buf, p) ==
      Success(Read(Night(n.floorTexData, n.wallTexData, "#" + HexFormat.Hex(n.lightColor)), next))
  {
    var a := BlobBytes(n.floorTexData);
    var b := BlobBytes(n.wallTexData);
    HoldsSplit(buf, p, a + b, WordBytes(n.lightColor));
    HoldsSplit(buf, p, a, b);
    ReadBlobHolds(buf, p, n.floorTexData);
    ReadBlobHolds(buf, p + |a|, n.wallTexData);
    WordAtHolds(buf, p + |a| + |b|, n.lightColor);
    ReadNightFrom(buf, p, n.floorTexData, n.wallTexData, n.lightColor);
  }

  /** `ReadNight` in terms of the three reads it performs. */
  lemma ReadNightFrom(buf: seq<byte>, p: int, floorTex: seq<byte>, wallTex: seq<byte>, colour: u32)
    requires ReadBlob(buf, p) == Success(Read(floorTex, p + 4 + |floorTex|))
    requires ReadBlob(buf, p + 4 + |floorTex|) == Success(Read(wallTex, p + 8 + |floorTex| + |wallTex|))
    requires InBounds(buf, p + 8 + |floorTex| + |wallTex|, 4)
    requires WordAt(buf, p + 8 + |floorTex| + |wallTex|) == colour
    ensures ReadNight(buf, p) ==
      Success(Read(Night(floorTex, wallTex, "#" + HexFormat.Hex(colour)), p + 12 + |floorTex| + |wallTex|))
  {
    var wallBlob := ReadBlob(buf, ReadBlob(buf, p).value.next);
    assert wallBlob.value.next == p + 8 + |floorTex| + |wallTex|;
    assert ReadU32(buf, wallBlob.value.next) == Success(colour);
  }

  lemma ReadFieldsHolds(buf: seq<byte>, p: int, l: Layout)
    requires Holds(buf, p, FieldBytes(l))
    ensures ReadI32(buf, p) == Success(l.texCompressionType)
    ensures ReadI32(buf, p + 4) == Success(l.floorWidth)
    ensures ReadI32(buf, p + 8) == Success(l.floorHeight)
    ensures ReadI32(buf, p + 12) == Success(l.wallWidth)
    ensures ReadI32(buf, p + 16) == Success(l.wallHeight)
    ensures ReadU8(buf, p + 20) == Success(l.hasNight)
  {
    var a := I32Bytes(l.texCompressionType);
    var b := I32Bytes(l.floorWidth);
    var c := I32Bytes(l.floorHeight);
    var d := I32Bytes(l.wallWidth);
    var e := I32Bytes(l.wallHeight);
    HoldsSplit(buf, p, a + b + c + d + e, [l.hasNight]);
    HoldsSplit(buf, p, a + b + c + d, e);
    HoldsSplit(buf, p, a + b + c, d);
    HoldsSplit(buf, p, a + b, c);
    HoldsSplit(buf, p, a, b);
    ReadI32Holds(buf, p, l.texCompressionType);
    ReadI32Holds(buf, p + 4, l.floorWidth);
    ReadI32Holds(buf, p + 8, l.floorHeight);
    ReadI32Holds(buf, p + 12, l.wallWidth);
    ReadI32Holds(buf, p + 16, l.wallHeight);
    HoldsAt(buf, p + 20, [l.hasNight], 0);
  }

  /** The night section of a decoded layout. */
  function DecodedNight(l: Layout): Option<Night> {
    Decoded(l).night
  }

  /** The texture blobs and the optional night section read back from `p`, each ending where the next starts. */
  lemma ReadTexturesHolds(buf: seq<byte>, p: int, l: Layout, wallTexAt: int, nightAt: int, next: int)
    requires WellFormed(l)
    requires Holds(buf, p, TextureBytes(l))
    requires wallTexAt == p + 4 + |l.floorTexData| && nightAt == wallTexAt + 4 + |l.wallTexData|
    requires next == p + TextureSize(l)
    ensures ReadBlob(buf, p) == Success(Read(l.floorTexData, wallTexAt))
    ensures ReadBlob(buf, wallTexAt) == Success(Read(l.wallTexData, nightAt))
    ensures ReadOptionalNight(buf, l.hasNight, nightAt) == Success(Read(DecodedNight(l), next))
  {
    assert next == nightAt + OptionalNightSize(l);
    TexturePieces(buf, p, l, wallTexAt, nightAt);
    ReadBlobHolds(buf, p, l.floorTexData);
    ReadBlobHolds(buf, wallTexAt, l.wallTexData);
    ReadOptionalNightHolds(buf, nightAt, l, next);
  }

  /** Where the texture blobs and the night section sit inside the texture bytes. */
  lemma TexturePieces(buf: seq<byte>, p: int, l: Layout, wallTexAt: int, nightAt: int)
    requires WellFormed(l)
    requires Holds(buf, p, TextureBytes(l))
    requires wallTexAt == p + 4 + |l.floorTexData| && nightAt == wallTexAt + 4 + |l.wallTexData|
    ensures Holds(buf, p, BlobBytes(l.floorTexData))
    ensures Holds(buf, wallTexAt, BlobBytes(l.wallTexData))
    ensures Holds(buf, nightAt, OptionalNightBytes(l))
  {
    var fb := BlobBytes(l.floorTexData);
    var wb := BlobBytes(l.wallTexData);
    var nb := OptionalNightBytes(l);
    assert TextureBytes(l) == fb + wb + nb;
    HoldsSplit(buf, p, fb + wb, nb);
    HoldsSplit(buf, p, fb, wb);
  }

  lemma ReadOptionalNightHolds(buf: seq<byte>, p: int, l: Layout, next: int)
    requires WellFormed(l)
    requires Holds(buf, p, OptionalNightBytes(l))
    requires next == p + OptionalNightSize(l)
    ensures ReadOptionalNight(buf, l.hasNight, p) == Success(Read(DecodedNight(l), next))
  {
    if l.night.Some? {
      var n := l.night.value;
      assert DecodedNight(l) == Some(Night(n.floorTexData, n.wallTexData, "#" + HexFormat.Hex(n.lightColor)));
      assert OptionalNightBytes(l) == NightBytes(n);
      ReadNightHolds(buf, p, n, next);
    } else {
      assert DecodedNight(l) == None;
    }
  }

  /** Reading the body of `l`, wherever it sits in a buffer, gives back its document and
      stops right after the body. */
  lemma ReadBodyHolds(buf: seq<byte>, p: int, l: Layout, next: int)
    requires WellFormed(l)
    requires Holds(buf, p, BodyBytes(l))
    requires next == p + BodySize(l)
    ensures ReadBody(buf, p, l.version, l.compressed) == Success(Read(Decoded(l), next))
  {
    var wallTexAt := p + 21 + 4 + |l.floorTexData|;
    var nightAt := wallTexAt + 4 + |l.wallTexData|;
    var floorAt := p + 21 + TextureSize(l);
    var wallAt := floorAt + GeometrySize(l.floor);
    assert next == wallAt + GeometrySize(l.wall);
    BodyReads(buf, p, l, wallTexAt, nightAt, floorAt, wallAt, next);
    ReadBodyFrom(buf, p, l.version, l.compressed, Decoded(l), wallTexAt, nightAt, floorAt, wallAt, next);
  }

  /** Every read `ReadBody` performs on the encoding of `l` gives back the matching part of `l`,
      and ends where the next piece starts. */
  lemma BodyReads(buf: seq<byte>, p: int, l: Layout, wallTexAt: int, nightAt: int, floorAt: int, wallAt: int, next: int)
    requires WellFormed(l)
    requires Holds(buf, p, BodyBytes(l))
    requires wallTexAt == p + 21 + 4 + |l.floorTexData| && nightAt == wallTexAt + 4 + |l.wallTexData|
    requires floorAt == p + 21 + TextureSize(l) && wallAt == floorAt + GeometrySize(l.floor)
    requires next == wallAt + GeometrySize(l.wall)
    ensures ReadI32(buf, p) == Success(l.texCompressionType)
    ensures ReadI32(buf, p + 4) == Success(l.floorWidth)
    ensures ReadI32(buf, p + 8) == Success(l.floorHeight)
    ensures ReadI32(buf, p + 12) == Success(l.wallWidth)
    ensures ReadI32(buf, p + 16) == Success(l.wallHeight)
    ensures ReadU8(buf, p + 20) == Success(l.hasNight)
    ensures ReadBlob(buf, p + 21) == Success(Read(l.floorTexData, wallTexAt))
    ensures ReadBlob(buf, wallTexAt) == Success(Read(l.wallTexData, nightAt))
    ensures ReadOptionalNight(buf, l.hasNight, nightAt) == Success(Read(DecodedNight(l), floorAt))
    ensures ReadGeometry(buf, floorAt) == Success(Read(l.floor, wallAt))
    ensures ReadGeometry(buf, wallAt) == Success(Read(l.wall, next))
  {
    BodyPieces(buf, p, l, floorAt, wallAt);
    ReadFieldsHolds(buf, p, l);
    ReadTexturesHolds(buf, p + 21, l, wallTexAt, nightAt, floorAt);
    ReadGeometryHolds(buf, floorAt, l.floor, wallAt);
    ReadGeometryHolds(buf, wallAt, l.wall, next);
  }

  /** Where the four pieces of a body sit inside it. */
  lemma BodyPieces(buf: seq<byte>, p: int, l: Layout, floorAt: int, wallAt: int)
    requires WellFormed(l)
    requires Holds(buf, p, BodyBytes(l))
    requires floorAt == p + 21 + TextureSize(l) && wallAt == floorAt + GeometrySize(l.floor)
    ensures Holds(buf, p, FieldBytes(l))
    ensures Holds(buf, p + 21, TextureBytes(l))
    ensures Holds(buf, floorAt, GeometryBytes(l.floor))
    ensures Holds(buf, wallAt, GeometryBytes(l.wall))
  {
    var fields := FieldBytes(l);
    var tex := TextureBytes(l);
    var floor := GeometryBytes(l.floor);
    var wall := GeometryBytes(l.wall);
    HoldsSplit(buf, p, fields + tex + floor, wall);
    HoldsSplit(buf, p, fields + tex, floor);
    HoldsSplit(buf, p, fields, tex);
  }

  /** `ReadBody` in terms of the reads it performs: when every piece reads back as the
      matching field of `doc`, ending where the next piece starts, the body reads back as `doc`. */
  lemma ReadBodyFrom(buf: seq<byte>, p: int, version: i32, compressed: byte, doc: Document, wallTexAt: int, nightAt: int, floorAt: int, wallAt: int, next: int)
    requires doc.version == version && doc.compressed == compressed
    requires ReadI32(buf, p) == Success(doc.texCompressionType)
    requires ReadI32(buf, p + 4) == Success(doc.floorWidth)
    requires ReadI32(buf, p + 8) == Success(doc.floorHeight)
    requires ReadI32(buf, p + 12) == Success(doc.wallWidth)
    requires ReadI32(buf, p + 16) == Success(doc.wallHeight)
    requires ReadU8(buf, p + 20) == Success(doc.hasNight)
    requires ReadBlob(buf, p + 21) == Success(Read(doc.floorTexData, wallTexAt))
    requires ReadBlob(buf, wallTexAt) == Success(Read(doc.wallTexData, nightAt))
    requires ReadOptionalNight(buf, doc.hasNight, nightAt) == Success(Read(doc.night, floorAt))
    requires ReadGeometry(buf, floorAt) == Success(Read(doc.floor, wallAt))
    requires ReadGeometry(buf, wallAt) == Success(Read(doc.wall, next))
    ensures ReadBody(buf, p, version, compressed) == Success(Read(doc, next))
  {
  }

  /** Round trip, uncompressed: the header followed by the body (and any trailing
      bytes) parses to the encoded document, and the inflater is never consulted. */
  lemma RoundTrip(l: Layout, trailer: seq<byte>, inflate: Inflate)
    requires WellFormed(l) && l.compressed == 0
    ensures Parse(HeaderBytes(l) + BodyBytes(l) + trailer, inflate) == Success(Decoded(l))
  {
    var buf := HeaderBytes(l) + BodyBytes(l) + trailer;
    HoldsPrefix(HeaderBytes(l) + BodyBytes(l), trailer);
    HoldsSplit(buf, 0, HeaderBytes(l), BodyBytes(l));
    ParseHeaderHolds(buf, l);
    ReadBodyHolds(buf, HeaderSize, l, HeaderSize + BodySize(l));
  }

  /** Round trip, compressed: when the remainder after the header inflates to the
      body (plus any trailing bytes), parsing gives the encoded document. */
  lemma RoundTripCompressed(l: Layout, packed: seq<byte>, trailer: seq<byte>, inflate: Inflate)
    requires WellFormed(l) && l.compressed != 0
    requires inflate(packed) == Some(BodyBytes(l) + trailer)
    ensures Parse(HeaderBytes(l) + packed, inflate) == Success(Decoded(l))
  {
    var buf := HeaderBytes(l) + packed;
    HoldsPrefix(HeaderBytes(l), packed);
    ParseHeaderHolds(buf, l);
    assert buf[HeaderSize..] == packed;
    var body := BodyBytes(l) + trailer;
    HoldsPrefix(BodyBytes(l), trailer);
    ReadBodyHolds(body, 0, l, BodySize(l));
  }

  lemma ParseHeaderHolds(buf: seq<byte>, l: Layout)
    requires |l.magic| == 4
    requires Holds(buf, 0, HeaderBytes(l))
    ensures ReadI32(buf, 4) == Success(l.version)
    ensures ReadU8(buf, 8) == Success(l.compressed)
  {
    HoldsSplit(buf, 0, l.magic + I32Bytes(l.version), [l.compressed]);
    HoldsSplit(buf, 0, l.magic, I32Bytes(l.version));
    ReadI32Holds(buf, 4, l.version);
    HoldsAt(buf, 8, [l.compressed], 0);
  }

  /** Nothing is lost in decoding: two layouts with the same header bytes after
      the magic decode to the same document only if they are the same layout. */
  lemma DecodedInjective(l1: Layout, l2: Layout)
    requires l1.magic == l2.magic
    requires Decoded(l1) == Decoded(l2)
    ensures l1 == l2
  {
    if l1.night.Some? {
      var c1 := "#" + HexFormat.Hex(l1.night.value.lightColor);
      var c2 := "#" + HexFormat.Hex(l2.night.value.lightColor);
      assert c1[1..] == HexFormat.Hex(l1.night.value.lightColor);
      assert c2[1..] == HexFormat.Hex(l2.night.value.lightColor);
      HexFormat.HexInjective(l1.night.value.lightColor, l2.night.value.lightColor);
    }
  }
}
