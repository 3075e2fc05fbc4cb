/**
 * Preparing a surface for rendering (`toGeometry` inside `asModel`): every
 * vertex whose first normal component is NaN gets the normal (0, 1, 0), and
 * the positions, texture coordinates and normals are flattened into three
 * float arrays of stride 3, 2 and 3.
 *
 * Floats stay raw IEEE-754 single-precision bit patterns; the only float
 * property the loop depends on is being NaN, which is decided on the bits.
 */
module SurfaceGeometry {
  import opened ByteView
  import opened FsofReader

  /** All exponent bits set and a non-zero mantissa. */
  predicate IsNaN(bits: F32) {
    (bits / 0x80_0000) % 0x100 == 0xFF && bits % 0x80_0000 != 0
  }

  /** The patterns of +0.0 and 1.0. */
  const PlusZero: F32 := 0
  const PlusOne: F32 := 0x3F80_0000

  /** The normal the loop substitutes for a broken one. */
  const Up: Vec3 := [PlusZero, PlusOne, PlusZero]

  /** The fix-up of one vertex. */
  function FixNormal(v: Vertex): (w: Vertex)
    ensures w.pos == v.pos && w.texC == v.texC
    ensures !IsNaN(w.normal[0])
  {
    if IsNaN(v.normal[0]) then v.(normal := Up) else v
  }

  /** The fix-up of a vertex table, vertex by vertex. */
  function FixNormals(vs: seq<Vertex>): (ws: seq<Vertex>)
    ensures |ws| == |vs|
    ensures forall i :: 0 <= i < |vs| ==> ws[i] == FixNormal(vs[i])
  {
    seq(|vs|, i requires 0 <= i < |vs| => FixNormal(vs[i]))
  }

  /** A vertex changes exactly when its first normal component is NaN, and then only its
      normal changes, to (0, 1, 0); NaN in the other components is left alone. */
  lemma FixNormalExact(v: Vertex)
    ensures FixNormal(v) != v <==> IsNaN(v.normal[0])
    ensures IsNaN(v.normal[0]) ==> FixNormal(v) == Vertex(v.pos, v.texC, [0, 0x3F80_0000, 0])
    ensures !IsNaN(v.normal[0]) ==> FixNormal(v).normal == v.normal
  {
    if IsNaN(v.normal[0]) {
      assert !IsNaN(PlusZero);
      assert FixNormal(v).normal[0] != v.normal[0];
    }
  }

  /** Fixing a second time changes nothing. */
  lemma FixNormalsIdempotent(vs: seq<Vertex>)
    ensures FixNormals(FixNormals(vs)) == FixNormals(vs)
  {
    var ws := FixNormals(vs);
    forall i | 0 <= i < |ws|
      ensures FixNormal(ws[i]) == ws[i]
    {
      FixNormalExact(ws[i]);
    }
  }

  /** The three attribute streams, vertex by vertex, as one concatenation each. */
  function Positions(vs: seq<Vertex>): (s: seq<F32>)
    ensures |s| == 3 * |vs|
  {
    if |vs| == 0 then [] else vs[0].pos + Positions(vs[1..])
  }

  function TexCoords(vs: seq<Vertex>): (s: seq<F32>)
    ensures |s| == 2 * |vs|
  {
    if |vs| == 0 then [] else vs[0].texC + TexCoords(vs[1..])
  }

  function Normals(vs: seq<Vertex>): (s: seq<F32>)
    ensures |s| == 3 * |vs|
  {
    if |vs| == 0 then [] else vs[0].normal + Normals(vs[1..])
  }

  /** Component `k` of vertex `i` sits at index `3 * i + k` of the position stream. */
  lemma {:induction false} PositionsAt(vs: seq<Vertex>, i: int, k: int)
    requires 0 <= i < |vs| && 0 <= k < 3
    ensures Positions(vs)[3 * i + k] == vs[i].pos[k]
    decreases i
  {
    if i > 0 {
      PositionsAt(vs[1..], i - 1, k);
    }
  }

  lemma {:induction false} TexCoordsAt(vs: seq<Vertex>, i: int, k: int)
    requires 0 <= i < |vs| && 0 <= k < 2
    ensures TexCoords(vs)[2 * i + k] == vs[i].texC[k]
    decreases i
  {
    if i > 0 {
      TexCoordsAt(vs[1..], i - 1, k);
    }
  }

  lemma {:induction false} NormalsAt(vs: seq<Vertex>, i: int, k: int)
    requires 0 <= i < |vs| && 0 <= k < 3
    ensures Normals(vs)[3 * i + k] == vs[i].normal[k]
    decreases i
  {
    if i > 0 {
      NormalsAt(vs[1..], i - 1, k);
    }
  }

  /** `buf[off + k] = xs[k]` for each `k`, as the loop writes the components one by one. */
  function Write(buf: seq<F32>, off: nat, xs: seq<F32>): (r: seq<F32>)
    requires off + |xs| <= |buf|
    ensures |r| == |buf|
    ensures forall j :: 0 <= j < |buf| ==> r[j] == if off <= j < off + |xs| then xs[j - off] else buf[j]
  {
    buf[..off] + xs + buf[off + |xs|..]
  }

  /** The loop of `toGeometry`: fixes each vertex in place, then appends its position, texture
      coordinates and (fixed) normal to three zero-filled buffers through running offsets.
      Returns the fixed vertex table and the three buffers. */
  method Flatten(verts: seq<Vertex>) returns (fixed: seq<Vertex>, vbuf: seq<F32>, tbuf: seq<F32>, nbuf: seq<F32>)
    ensures fixed == FixNormals(verts)
    ensures |vbuf| == 3 * |verts| && |tbuf| == 2 * |verts| && |nbuf| == 3 * |verts|
    ensures forall i, k :: 0 <= i < |verts| && 0 <= k < 3 ==> vbuf[3 * i + k] == verts[i].pos[k]
    ensures forall i, k :: 0 <= i < |verts| && 0 <= k < 2 ==> tbuf[2 * i + k] == verts[i].texC[k]
    ensures forall i, k :: 0 <= i < |verts| && 0 <= k < 3 ==> nbuf[3 * i + k] == fixed[i].normal[k]
    ensures vbuf == Positions(fixed) && tbuf == TexCoords(fixed) && nbuf == Normals(fixed)
  {
    fixed := verts;
    vbuf := seq(3 * |verts|, _ => PlusZero);
    tbuf := seq(2 * |verts|, _ => PlusZero);
    nbuf := seq(3 * |verts|, _ => PlusZero);
    var voff, toff, noff := 0, 0, 0;
    var i := 0;
    while i < |verts|
      invariant 0 <= i <= |verts|
      invariant voff == 3 * i && toff == 2 * i && noff == 3 * i
      invariant FixedUpTo(verts, i, fixed)
      invariant PositionsUpTo(verts, i, vbuf) && TexCoordsUpTo(verts, i, tbuf) && NormalsUpTo(verts, i, nbuf)
    {
      ghost var before := fixed;
      var vert := fixed[i];
      if IsNaN(vert.normal[0]) {
        vert := vert.(normal := Up);
        fixed := fixed[i := vert];
      }
      FixedStep(verts, i, before, fixed, vert);
      PositionsStep(verts, i, vbuf);
      TexCoordsStep(verts, i, tbuf);
      NormalsStep(verts, i, nbuf);
      vbuf := Write(vbuf, voff, vert.pos);
      voff := voff + 3;
      tbuf := Write(tbuf, toff, vert.texC);
      toff := toff + 2;
      nbuf := Write(nbuf, noff, vert.normal);
      noff := noff + 3;
      i := i + 1;
    }
    assert fixed == FixNormals(verts);
    PositionsOf(fixed, vbuf);
    TexCoordsOf(fixed, tbuf);
    NormalsOf(fixed, nbuf);
  }

  /** The first `i` vertices are fixed and the rest are as read. */
  predicate FixedUpTo(verts: seq<Vertex>, i: int, fixed: seq<Vertex>) {
    && 0 <= i <= |verts| && |fixed| == |verts|
    && (forall j :: 0 <= j < i ==> fixed[j] == FixNormal(verts[j]))
    && (forall j :: i <= j < |verts| ==> fixed[j] == verts[j])
  }

  /** The first `i` positions, texture coordinates and fixed normals are in place. */
  predicate PositionsUpTo(verts: seq<Vertex>, i: int, vbuf: seq<F32>) {
    && 0 <= i <= |verts| && |vbuf| == 3 * |verts|
    && forall j, k :: 0 <= j < i && 0 <= k < 3 ==> vbuf[3 * j + k] == verts[j].pos[k]
  }

  predicate TexCoordsUpTo(verts: seq<Vertex>, i: int, tbuf: seq<F32>) {
    && 0 <= i <= |verts| && |tbuf| == 2 * |verts|
    && forall j, k :: 0 <= j < i && 0 <= k < 2 ==> tbuf[2 * j + k] == verts[j].texC[k]
  }

  predicate NormalsUpTo(verts: seq<Vertex>, i: int, nbuf: seq<F32>) {
    && 0 <= i <= |verts| && |nbuf| == 3 * |verts|
    && forall j, k :: 0 <= j < i && 0 <= k < 3 ==> nbuf[3 * j + k] == FixNormal(verts[j]).normal[k]
  }

  /** Fixing vertex `i` in place extends the fixed prefix by one. */
  lemma FixedStep(verts: seq<Vertex>, i: int, before: seq<Vertex>, fixed: seq<Vertex>, vert: Vertex)
    requires 0 <= i < |verts| && FixedUpTo(verts, i, before)
    requires vert == FixNormal(before[i])
    requires fixed == if IsNaN(before[i].normal[0]) then before[i := vert] else before
    ensures FixedUpTo(verts, i + 1, fixed)
    ensures vert == FixNormal(verts[i])
  {
  }

  lemma PositionsStep(verts: seq<Vertex>, i: int, vbuf: seq<F32>)
    requires 0 <= i < |verts| && PositionsUpTo(verts, i, vbuf)
    ensures PositionsUpTo(verts, i + 1, Write(vbuf, 3 * i, verts[i].pos))
  {
  }

  lemma TexCoordsStep(verts: seq<Vertex>, i: int, tbuf: seq<F32>)
    requires 0 <= i < |verts| && TexCoordsUpTo(verts, i, tbuf)
    ensures TexCoordsUpTo(verts, i + 1, Write(tbuf, 2 * i, verts[i].texC))
  {
  }

  lemma NormalsStep(verts: seq<Vertex>, i: int, nbuf: seq<F32>)
    requires 0 <= i < |verts| && NormalsUpTo(verts, i, nbuf)
    ensures NormalsUpTo(verts, i + 1, Write(nbuf, 3 * i, FixNormal(verts[i]).normal))
  {
  }

  /** A buffer laid out vertex by vertex with stride 3 is the position stream. */
  lemma PositionsOf(vs: seq<Vertex>, vbuf: seq<F32>)
    requires |vbuf| == 3 * |vs|
    requires forall i, k :: 0 <= i < |vs| && 0 <= k < 3 ==> vbuf[3 * i + k] == vs[i].pos[k]
    ensures vbuf == Positions(vs)
  {
    forall n | 0 <= n < |vbuf|
      ensures vbuf[n] == Positions(vs)[n]
    {
      var i, k := n / 3, n % 3;
      assert n == 3 * i + k && i < |vs|;
      PositionsAt(vs, i, k);
    }
  }

  lemma TexCoordsOf(vs: seq<Vertex>, tbuf: seq<F32>)
    requires |tbuf| == 2 * |vs|
    requires forall i, k :: 0 <= i < |vs| && 0 <= k < 2 ==> tbuf[2 * i + k] == vs[i].texC[k]
    ensures tbuf == TexCoords(vs)
  {
    forall n | 0 <= n < |tbuf|
      ensures tbuf[n] == TexCoords(vs)[n]
    {
      var i, k := n / 2, n % 2;
      assert n == 2 * i + k && i < |vs|;
      TexCoordsAt(vs, i, k);
    }
  }

  lemma NormalsOf(vs: seq<Vertex>, nbuf: seq<F32>)
    requires |nbuf| == 3 * |vs|
    requires forall i, k :: 0 <= i < |vs| && 0 <= k < 3 ==> nbuf[3 * i + k] == vs[i].normal[k]
    ensures nbuf == Normals(vs)
  {
    forall n | 0 <= n < |nbuf|
      ensures nbuf[n] == Normals(vs)[n]
    {
      var i, k := n / 3, n % 3;
      assert n == 3 * i + k && i < |vs|;
      NormalsAt(vs, i, k);
    }
  }
}
