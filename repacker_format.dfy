/** The byte layout side of the meshlet writer in `tools/repacker.cpp`: the
    growable `write_vector` buffer, the per-meshlet vertex format (position
    and texture-coordinate widths, padding, alignment), the record each
    meshlet gets in the meshlet table and the final patch of that table's
    data offsets. Floats arrive here already quantised: the rounding done
    by `packFloat16`, `lroundf` and `float16` is not part of this model. */
module RepackerFormat {
  import opened DreamStream

  // ---------------------------------------------------------------------------
  // Small index helpers

  /** A `uint16_t`. */
  type Half = h: int | 0 <= h < 0x1_0000

  /** An undirected edge, its two vertex indices in ascending order. */
  datatype Edge = Edge(a: int, b: int)

  /** The `Edge(v0, v1)` constructor: the same edge whichever way round the
      two indices are given. */
  function MakeEdge(v0: int, v1: int): (e: Edge)
    ensures e.a <= e.b
    ensures multiset{e.a, e.b} == multiset{v0, v1}
  {
    if v0 < v1 then Edge(v0, v1) else Edge(v1, v0)
  }

  /** Two edges compare equal exactly when they join the same two vertices. */
  lemma EdgeEquality(v0: int, v1: int, w0: int, w1: int)
    ensures MakeEdge(v0, v1) == MakeEdge(w0, w1) <==> (v0 == w0 && v1 == w1) || (v0 == w1 && v1 == w0)
  {
  }

  /** `isDegenerateByIndex`: the triangle uses fewer than three distinct
      vertices. */
  function IsDegenerateByIndex(idx1: Half, idx2: Half, idx3: Half): (r: bool)
    ensures r <==> |{idx1, idx2, idx3}| < 3
  {
    idx1 == idx2 || idx1 == idx3 || idx2 == idx3
  }

  // ---------------------------------------------------------------------------
  // Fixed-width little-endian values, truncated the way a C++ conversion does

  // `write<T>` of an integer converted to a `sizeof(T)`-byte type appends
  // its low bytes, low byte first; `/` and `%` here round towards minus
  // infinity, so a negative value gives its two's complement bytes.

  /** `write<uint8_t>` / `write<int8_t>`. */
  function U8(v: int): (r: seq<Byte>)
    ensures |r| == 1
  {
    [v % 0x100]
  }

  /** `write<uint16_t>` / `write<int16_t>`. */
  function U16(v: int): (r: seq<Byte>)
    ensures |r| == 2
  {
    [v % 0x100, (v / 0x100) % 0x100]
  }

  /** `write<uint32_t>`. */
  function U32(v: int): (r: seq<Byte>)
    ensures |r| == 4
  {
    [v % 0x100, (v / 0x100) % 0x100, (v / 0x100 / 0x100) % 0x100, (v / 0x100 / 0x100 / 0x100) % 0x100]
  }

  /** A written `uint32_t` reads back as the value modulo 2^32. */
  lemma U32Word(v: int)
    ensures Word32(U32(v)) == v % 0x1_0000_0000
  {
    var q0 := v / 0x100;
    var q1 := q0 / 0x100;
    var q2 := q1 / 0x100;
    var q3 := q2 / 0x100;
    var low := v % 0x100 + 0x100 * (q0 % 0x100) + 0x1_0000 * (q1 % 0x100) + 0x100_0000 * (q2 % 0x100);
    assert v == low + 0x1_0000_0000 * q3;
  }

  /** A written `uint16_t` reads back as the value modulo 2^16. */
  lemma U16Half(v: int)
    ensures (U16(v)[0] as int) + 0x100 * (U16(v)[1] as int) == v % 0x1_0000
  {
    var q0 := v / 0x100;
    assert v == v % 0x100 + 0x100 * (q0 % 0x100) + 0x1_0000 * (q0 / 0x100);
  }

  // ---------------------------------------------------------------------------
  // Vertex layout

  /** The three layout flags a meshlet's vertices share. */
  datatype Layout = Layout(bigVertex: bool, bigUv: bool, padXyz: bool)

  /** `adjustFlagsForAlingment`: with texture coordinates, a float position
      forces half-float coordinates, and a 16-bit position with half-float
      coordinates gets a padding halfword. */
  function AdjustFlagsForAlignment(textured: bool, bigVertex: bool, bigUv: bool): (r: Layout)
    ensures r.bigVertex == bigVertex
    ensures r.padXyz <==> textured && !bigVertex && bigUv
    ensures !textured ==> r.bigUv == bigUv
    ensures textured ==> (r.bigUv <==> bigVertex || bigUv)
  {
    var bigUv' := if textured && bigVertex && !bigUv then true else bigUv;
    var padXyz := textured && !bigVertex && bigUv';
    Layout(bigVertex, bigUv', padXyz)
  }

  /** The width of one position component. */
  function PositionUnit(l: Layout): nat { if l.bigVertex then 4 else 2 }

  /** The width of the texture-coordinate field's unit: one `uint32_t` of two
      halves, or single bytes. */
  function UvUnit(l: Layout): nat { if l.bigUv then 4 else 1 }

  /** Where the texture coordinates start in a vertex. */
  function UvOffset(l: Layout): nat
  {
    if l.bigVertex then 12 else if l.padXyz then 8 else 6
  }

  /** `caluclateVertexAlignment`: the widest of the position and (when there
      are any) texture-coordinate units. */
  function VertexAlignment(textured: bool, normaled: bool, colored: bool, l: Layout): (r: nat)
    ensures r == (if textured && UvUnit(l) > PositionUnit(l) then UvUnit(l) else PositionUnit(l))
  {
    if l.bigVertex then 4
    else if textured && l.bigUv then 4
    else 2
  }

  /** `caluclateVertexSize`. */
  function VertexSize(textured: bool, normaled: bool, colored: bool, l: Layout): nat
  {
    var xyz := if l.bigVertex then 4 * 3 else 2 * 3 + (if l.padXyz then 2 else 0);
    var uv := if textured then (if l.bigUv then 4 else 2) else 0;
    xyz + uv + (if normaled then 4 else 0) + (if colored then 4 else 0)
  }

  /** After `adjustFlagsForAlingment` the vertex size is a multiple of the
      alignment (the assertion before the vertices are written), and both the
      position components and the texture coordinates sit at offsets that
      are multiples of their own width, so a vertex that starts aligned has
      naturally aligned fields and so does the next one. */
  lemma AdjustedLayoutAligned(textured: bool, normaled: bool, colored: bool, bigVertex: bool, bigUv: bool)
    ensures var l := AdjustFlagsForAlignment(textured, bigVertex, bigUv);
      var align := VertexAlignment(textured, normaled, colored, l);
      && VertexSize(textured, normaled, colored, l) % align == 0
      && align % PositionUnit(l) == 0
      && (textured ==> align % UvUnit(l) == 0 && UvOffset(l) % UvUnit(l) == 0)
  {
  }

  /** Without the adjustment a 16-bit position with half-float coordinates
      puts the coordinate word at offset 6, off its 4-byte alignment. */
  lemma UnadjustedLayoutMisaligned()
    ensures UvOffset(Layout(false, true, false)) % UvUnit(Layout(false, true, false)) != 0
  {
  }

  /** An RGBA colour of `uint8_t` channels. */
  datatype Rgba = Rgba(red: Byte, green: Byte, blue: Byte, alpha: Byte)

  /** `c ^ 128` on a byte: bit 7 flipped. */
  function Flip(c: Byte): (r: Byte)
    ensures r / 0x80 != c / 0x80 && r % 0x80 == c % 0x80
  {
    (c + 0x80) % 0x100
  }

  lemma FlipTwice(c: Byte)
    ensures Flip(Flip(c)) == c
  {
  }

  /** The colour word: blue in the low byte, alpha in the high one, each
      channel with bit 7 flipped. */
  function ColorWord(c: Rgba): (r: nat)
    ensures r < 0x1_0000_0000
  {
    Flip(c.blue) + 0x100 * Flip(c.green) + 0x1_0000 * Flip(c.red) + 0x100_0000 * Flip(c.alpha)
  }

  /** Splitting a number into its low byte and the rest. */
  lemma ByteSplit(lo: Byte, hi: nat)
    ensures (lo + 0x100 * hi) % 0x100 == lo && (lo + 0x100 * hi) / 0x100 == hi
  {
  }

  /** The colour word's bytes are the four flipped channels, blue first. */
  lemma ColorBytes(c: Rgba)
    ensures U32(ColorWord(c)) == [Flip(c.blue), Flip(c.green), Flip(c.red), Flip(c.alpha)]
  {
    var q1 := Flip(c.red) + 0x100 * Flip(c.alpha);
    var q0 := Flip(c.green) + 0x100 * q1;
    var w := Flip(c.blue) + 0x100 * q0;
    assert w == ColorWord(c);
    ByteSplit(Flip(c.blue), q0);
    ByteSplit(Flip(c.green), q1);
    ByteSplit(Flip(c.red), Flip(c.alpha));
    assert w / 0x100 == q0 && w / 0x100 / 0x100 == q1 && w / 0x100 / 0x100 / 0x100 == Flip(c.alpha);
  }

  /** The values the branches of `packVertex` write for one vertex once its
      floats are quantised: the raw `float` words of the position, its
      `packFloat16` components, the `float16` bits of the texture
      coordinates, their rounded byte values, the rounded normal and the
      colour. */
  datatype QuantisedVertex = QuantisedVertex(
    floatXyz: (nat, nat, nat), shortXyz: (int, int, int),
    halfUv: (Half, Half), byteUv: (int, int),
    normal: (int, int, int), color: Rgba)

  /** The position: three `float`s, or three `int16_t`s and the optional
      padding halfword. */
  function PositionBytes(v: QuantisedVertex, l: Layout): (r: seq<Byte>)
    ensures |r| == UvOffset(l)
  {
    if l.bigVertex then U32(v.floatXyz.0) + U32(v.floatXyz.1) + U32(v.floatXyz.2)
    else U16(v.shortXyz.0) + U16(v.shortXyz.1) + U16(v.shortXyz.2) + (if l.padXyz then U16(0) else [])
  }

  /** The texture coordinates: one word of two halves, or two bytes. */
  function UvBytes(v: QuantisedVertex, textured: bool, l: Layout): (r: seq<Byte>)
    ensures |r| == (if !textured then 0 else if l.bigUv then 4 else 2)
  {
    if !textured then []
    else if l.bigUv then U32(v.halfUv.0 * 0x1_0000 + v.halfUv.1)
    else U8(v.byteUv.0) + U8(v.byteUv.1)
  }

  function NormalBytes(v: QuantisedVertex, normaled: bool): (r: seq<Byte>)
    ensures |r| == (if normaled then 4 else 0)
  {
    if normaled then U8(v.normal.0) + U8(v.normal.1) + U8(v.normal.2) + U8(0) else []
  }

  function ColorField(v: QuantisedVertex, colored: bool): (r: seq<Byte>)
    ensures |r| == (if colored then 4 else 0)
  {
    if colored then U32(ColorWord(v.color)) else []
  }

  /** The bytes `packVertex` appends: as many as `caluclateVertexSize` says. */
  function VertexBytes(v: QuantisedVertex, textured: bool, normaled: bool, colored: bool, l: Layout): (r: seq<Byte>)
    ensures |r| == VertexSize(textured, normaled, colored, l)
  {
    PositionBytes(v, l) + UvBytes(v, textured, l) + NormalBytes(v, normaled) + ColorField(v, colored)
  }

  /** With half-float coordinates the word at the coordinate offset holds
      `u` in its high half and `v` in its low half. */
  lemma HalfUvAt(v: QuantisedVertex, normaled: bool, colored: bool, l: Layout)
    requires l.bigUv
    ensures var r := VertexBytes(v, true, normaled, colored, l);
      Word32(r[UvOffset(l)..UvOffset(l) + 4]) / 0x1_0000 == v.halfUv.0
      && Word32(r[UvOffset(l)..UvOffset(l) + 4]) % 0x1_0000 == v.halfUv.1
  {
    var p, u := PositionBytes(v, l), UvBytes(v, true, l);
    var n, c := NormalBytes(v, normaled), ColorField(v, colored);
    var w := v.halfUv.0 * 0x1_0000 + v.halfUv.1;
    assert u == U32(w);
    SliceLeft(p + u + n, c, |p|, 4);
    SliceLeft(p + u, n, |p|, 4);
    SliceRight(p, u, 0, 4);
    assert u[0..4] == u;
    U32Word(w);
    assert w % 0x1_0000_0000 == w;
  }

  // ---------------------------------------------------------------------------
  // The meshlet table

  function FlagBit(c: bool): nat { if c then 1 else 0 }

  /** The 16-bit flags word of a meshlet record: textured, normaled, colored,
      16-bit position, padded position and byte coordinates, from bit 0 up. */
  function MeshletFlags(textured: bool, normaled: bool, colored: bool, l: Layout): (r: nat)
    ensures r < 0x40
  {
    FlagBit(textured) + 2 * (FlagBit(normaled) + 2 * (FlagBit(colored)
      + 2 * (FlagBit(!l.bigVertex) + 2 * (FlagBit(l.padXyz) + 2 * FlagBit(!l.bigUv)))))
  }

  /** Bit `k` of a word. */
  function Bit(w: nat, k: nat): bool
  {
    if k == 0 then w % 2 == 1 else Bit(w / 2, k - 1)
  }

  lemma BitSplit(c: bool, hi: nat)
    ensures (FlagBit(c) + 2 * hi) % 2 == FlagBit(c) && (FlagBit(c) + 2 * hi) / 2 == hi
  {
  }

  /** Each flag can be read back from its own bit. */
  lemma MeshletFlagsDecode(textured: bool, normaled: bool, colored: bool, l: Layout)
    ensures var f := MeshletFlags(textured, normaled, colored, l);
      && (Bit(f, 0) <==> textured) && (Bit(f, 1) <==> normaled) && (Bit(f, 2) <==> colored)
      && (Bit(f, 3) <==> !l.bigVertex) && (Bit(f, 4) <==> l.padXyz) && (Bit(f, 5) <==> !l.bigUv)
  {
    var h4 := FlagBit(l.padXyz) + 2 * FlagBit(!l.bigUv);
    var h3 := FlagBit(!l.bigVertex) + 2 * h4;
    var h2 := FlagBit(colored) + 2 * h3;
    var h1 := FlagBit(normaled) + 2 * h2;
    var f := FlagBit(textured) + 2 * h1;
    BitSplit(textured, h1);
    BitSplit(normaled, h2);
    BitSplit(colored, h3);
    BitSplit(!l.bigVertex, h4);
    BitSplit(l.padXyz, FlagBit(!l.bigUv));
    BitSplit(!l.bigUv, 0);
    assert Bit(f, 2) == Bit(h1, 1) == Bit(h2, 0);
    assert Bit(f, 3) == Bit(h1, 2) == Bit(h2, 1) == Bit(h3, 0);
    assert Bit(f, 4) == Bit(h1, 3) == Bit(h2, 2) == Bit(h3, 1) == Bit(h4, 0);
    assert Bit(f, 5) == Bit(h1, 4) == Bit(h2, 3) == Bit(h3, 2) == Bit(h4, 1) == Bit(FlagBit(!l.bigUv), 0);
  }

  /** One meshlet's entry: its bounding sphere as four raw `float` words, then
      the flags, a zero byte, the vertex size, the vertex and index counts,
      and the vertex and index data offsets. */
  datatype MeshletHeader = MeshletHeader(
    sphere: (nat, nat, nat, nat), flags: nat, vertexSize: nat,
    vertexCount: nat, totalIndexes: nat, vertexDataOffset: nat, indexDataOffset: nat)

  /** The bytes the meshlet loop appends to `meshletData` for one meshlet:
      32 of them, the vertex data offset at 24 and the index data offset at
      28. */
  function HeaderBytes(h: MeshletHeader): (r: seq<Byte>)
    ensures |r| == 32
  {
    HeaderFront(h) + U32(h.vertexDataOffset) + U32(h.indexDataOffset)
  }

  /** The fields before the two offsets. */
  function HeaderFront(h: MeshletHeader): (r: seq<Byte>)
    ensures |r| == 24
  {
    U32(h.sphere.0) + U32(h.sphere.1) + U32(h.sphere.2) + U32(h.sphere.3)
      + U16(h.flags) + U8(0) + U8(h.vertexSize) + U16(h.vertexCount) + U16(h.totalIndexes)
  }

  /** The two offsets sit at 24 and 28. */
  lemma HeaderOffsets(h: MeshletHeader)
    ensures HeaderBytes(h)[24..28] == U32(h.vertexDataOffset)
    ensures HeaderBytes(h)[28..32] == U32(h.indexDataOffset)
  {
  }

  /** The records of a whole meshlet table, one after another. */
  function HeadersBytes(hs: seq<MeshletHeader>): (r: seq<Byte>)
    ensures |r| == 32 * |hs|
    decreases |hs|
  {
    if |hs| == 0 then [] else HeadersBytes(hs[..|hs| - 1]) + HeaderBytes(hs[|hs| - 1])
  }

  /** Where a meshlet's two offsets were written, and what they were before
      the patch (`rewriteOffsetVDO`, `rewriteOffsetIDO`). */
  datatype Slot = Slot(vdoAt: nat, vertexDataOffset: nat, idoAt: nat, indexDataOffset: nat)

  /** The slot of record `k` of a table that starts at `start`. */
  function SlotOf(start: nat, k: nat, h: MeshletHeader): Slot
  {
    Slot(start + 32 * k + 24, h.vertexDataOffset,
         start + 32 * k + 28, h.indexDataOffset)
  }

  function SlotsOf(start: nat, hs: seq<MeshletHeader>): (r: seq<Slot>)
    ensures |r| == |hs|
  {
    seq(|hs|, k requires 0 <= k < |hs| => SlotOf(start, k, hs[k]))
  }

  /** Every slot lies inside a buffer of `size` bytes. */
  ghost predicate SlotsFit(slots: seq<Slot>, size: nat)
  {
    forall k :: 0 <= k < |slots| ==> slots[k].vdoAt + 4 <= size && slots[k].idoAt + 4 <= size
  }

  /** The slots fit, each index slot right after its vertex slot, in
      increasing order without overlap. */
  ghost predicate SlotsInOrder(slots: seq<Slot>, size: nat)
  {
    && SlotsFit(slots, size)
    && (forall k :: 0 <= k < |slots| ==> slots[k].idoAt == slots[k].vdoAt + 4)
    && (forall k, m :: 0 <= k < m < |slots| ==> slots[k].idoAt + 4 <= slots[m].vdoAt)
  }

  /** Byte `p` lies in none of the slots' words. */
  ghost predicate OutsideSlots(slots: seq<Slot>, p: nat)
  {
    forall k :: 0 <= k < |slots| ==>
      (p < slots[k].vdoAt || slots[k].vdoAt + 4 <= p) && (p < slots[k].idoAt || slots[k].idoAt + 4 <= p)
  }

  /** A table written at `start` has its slots in order. */
  lemma HeaderSlotsInOrder(start: nat, hs: seq<MeshletHeader>, size: nat)
    requires start + 32 * |hs| <= size
    ensures SlotsInOrder(SlotsOf(start, hs), size)
  {
    var slots := SlotsOf(start, hs);
    forall k | 0 <= k < |slots|
      ensures slots[k].vdoAt + 4 <= size && slots[k].idoAt + 4 <= size
    {
      assert 32 * k + 32 <= 32 * |hs|;
    }
    forall k, m | 0 <= k < m < |slots|
      ensures slots[k].idoAt + 4 <= slots[m].vdoAt
    {
      assert 32 * k + 32 <= 32 * m;
    }
  }

  /** Before the patch each slot of a freshly written table holds the
      meshlet's own offset. */
  lemma {:induction false} HeaderSlotsHold(b: seq<Byte>, hs: seq<MeshletHeader>, k: nat)
    requires k < |hs|
    ensures var r := b + HeadersBytes(hs); var s := SlotOf(|b|, k, hs[k]);
      && s.idoAt + 4 <= |r|
      && r[s.vdoAt..s.vdoAt + 4] == U32(hs[k].vertexDataOffset)
      && r[s.idoAt..s.idoAt + 4] == U32(hs[k].indexDataOffset)
    decreases |hs|
  {
    var n := |hs| - 1;
    var front := b + HeadersBytes(hs[..n]);
    var h := HeaderBytes(hs[n]);
    var s := SlotOf(|b|, k, hs[k]);
    AppendAssoc(b, HeadersBytes(hs[..n]), h);
    if k == n {
      HeaderOffsets(hs[n]);
      SliceRight(front, h, 24, 4);
      SliceRight(front, h, 28, 4);
    } else {
      assert hs[..n][k] == hs[k];
      HeaderSlotsHold(b, hs[..n], k);
      SliceLeft(front, h, s.vdoAt, 4);
      SliceLeft(front, h, s.idoAt, 4);
    }
  }

  /** The 32-bit little-endian word at `at`. */
  function WordAt(bytes: seq<Byte>, at: nat): nat
    requires at + 4 <= |bytes|
  {
    Word32(bytes[at..at + 4])
  }

  /** Before the patch the slots of a freshly written table read back as the
      meshlets' offsets, truncated to 32 bits. */
  lemma HeaderSlotsRead(b: seq<Byte>, hs: seq<MeshletHeader>, k: nat)
    requires k < |hs|
    ensures var r := b + HeadersBytes(hs); var s := SlotOf(|b|, k, hs[k]);
      && s.idoAt + 4 <= |r|
      && WordAt(r, s.vdoAt) == hs[k].vertexDataOffset % 0x1_0000_0000
      && WordAt(r, s.idoAt) == hs[k].indexDataOffset % 0x1_0000_0000
  {
    HeaderSlotsHold(b, hs, k);
    U32Word(hs[k].vertexDataOffset);
    U32Word(hs[k].indexDataOffset);
  }

  lemma AppendAssoc<T>(a: seq<T>, b: seq<T>, c: seq<T>)
    ensures a + (b + c) == a + b + c
  {
  }

  lemma SliceLeft<T>(a: seq<T>, b: seq<T>, at: nat, n: nat)
    requires at + n <= |a|
    ensures (a + b)[at..at + n] == a[at..at + n]
  {
  }

  lemma SliceRight<T>(a: seq<T>, b: seq<T>, at: nat, n: nat)
    requires at + n <= |b|
    ensures (a + b)[|a| + at..|a| + at + n] == b[at..at + n]
  {
  }

  /** One more turn of the table loop. */
  lemma HeadersSnoc(b: seq<Byte>, hs: seq<MeshletHeader>, i: nat)
    requires i < |hs|
    ensures b + HeadersBytes(hs[..i + 1]) == b + HeadersBytes(hs[..i]) + HeaderBytes(hs[i])
    ensures SlotsOf(|b|, hs[..i + 1]) == SlotsOf(|b|, hs[..i]) + [SlotOf(|b|, i, hs[i])]
  {
    assert hs[..i + 1][..i] == hs[..i];
    AppendAssoc(b, HeadersBytes(hs[..i]), HeaderBytes(hs[i]));
  }

  // ---------------------------------------------------------------------------
  // In-place copies

  /** `std::copy` of `v` over `b` from `at` on. */
  function Splice<T>(b: seq<T>, at: nat, v: seq<T>): (r: seq<T>)
    requires at + |v| <= |b|
    ensures |r| == |b|
  {
    b[..at] + v + b[at + |v|..]
  }

  lemma SpliceHere<T>(b: seq<T>, at: nat, v: seq<T>)
    requires at + |v| <= |b|
    ensures Splice(b, at, v)[at..at + |v|] == v
  {
  }

  lemma SpliceElsewhere<T>(b: seq<T>, at: nat, v: seq<T>, t: nat, n: nat)
    requires at + |v| <= |b| && t + n <= |b| && (t + n <= at || at + |v| <= t)
    ensures Splice(b, at, v)[t..t + n] == b[t..t + n]
  {
  }

  /** Every copy of `cs` lands inside a buffer of `size` elements. */
  ghost predicate CopiesFit<T>(cs: seq<(nat, seq<T>)>, size: nat)
  {
    forall k :: 0 <= k < |cs| ==> cs[k].0 + |cs[k].1| <= size
  }

  /** The copies fit and go to increasing, non-overlapping places. */
  ghost predicate CopiesInOrder<T>(cs: seq<(nat, seq<T>)>, size: nat)
  {
    CopiesFit(cs, size) && forall k, m :: 0 <= k < m < |cs| ==> cs[k].0 + |cs[k].1| <= cs[m].0
  }

  lemma CopiesPrefix<T>(cs: seq<(nat, seq<T>)>, n: nat, size: nat)
    requires n <= |cs|
    ensures CopiesFit(cs, size) ==> CopiesFit(cs[..n], size)
    ensures CopiesInOrder(cs, size) ==> CopiesInOrder(cs[..n], size)
  {
    assert forall k :: 0 <= k < n ==> cs[..n][k] == cs[k];
  }

  /** A buffer after the copies of `cs`, made one after another. */
  function SpliceAll<T>(b: seq<T>, cs: seq<(nat, seq<T>)>): (r: seq<T>)
    requires CopiesFit(cs, |b|)
    ensures |r| == |b|
    decreases |cs|
  {
    if |cs| == 0 then b
    else
      var n := |cs| - 1;
      CopiesPrefix(cs, n, |b|);
      Splice(SpliceAll(b, cs[..n]), cs[n].0, cs[n].1)
  }

  lemma SpliceAllSnoc<T>(b: seq<T>, cs: seq<(nat, seq<T>)>, i: nat)
    requires CopiesFit(cs, |b|) && i < |cs|
    ensures CopiesFit(cs[..i], |b|) && CopiesFit(cs[..i + 1], |b|)
    ensures SpliceAll(b, cs[..i + 1]) == Splice(SpliceAll(b, cs[..i]), cs[i].0, cs[i].1)
  {
    CopiesPrefix(cs, i, |b|);
    CopiesPrefix(cs, i + 1, |b|);
    assert cs[..i + 1][..i] == cs[..i];
  }

  /** After copies in order, each copy's place holds what it wrote. */
  lemma {:induction false} SpliceAllHere<T>(b: seq<T>, cs: seq<(nat, seq<T>)>, k: nat)
    requires CopiesInOrder(cs, |b|) && k < |cs|
    ensures SpliceAll(b, cs)[cs[k].0..cs[k].0 + |cs[k].1|] == cs[k].1
    decreases |cs|
  {
    var n := |cs| - 1;
    CopiesPrefix(cs, n, |b|);
    var before := SpliceAll(b, cs[..n]);
    if k == n {
      SpliceHere(before, cs[n].0, cs[n].1);
    } else {
      assert cs[..n][k] == cs[k];
      SpliceAllHere(b, cs[..n], k);
      SpliceElsewhere(before, cs[n].0, cs[n].1, cs[k].0, |cs[k].1|);
    }
  }

  /** Copies leave every element outside their places alone. */
  lemma {:induction false} SpliceAllOutside<T>(b: seq<T>, cs: seq<(nat, seq<T>)>, p: nat)
    requires CopiesFit(cs, |b|) && p < |b|
    requires forall k :: 0 <= k < |cs| ==> p < cs[k].0 || cs[k].0 + |cs[k].1| <= p
    ensures SpliceAll(b, cs)[p] == b[p]
    decreases |cs|
  {
    if |cs| > 0 {
      var n := |cs| - 1;
      CopiesPrefix(cs, n, |b|);
      assert forall k :: 0 <= k < n ==> cs[..n][k] == cs[k];
      SpliceAllOutside(b, cs[..n], p);
    }
  }

  // ---------------------------------------------------------------------------
  // The offset patch

  /** The copies the patch loop makes, two per meshlet: copy `2k` puts
      meshlet `k`'s vertex offset plus `vertexBase` in its vertex slot, copy
      `2k + 1` its index offset plus `indexBase` in its index slot. */
  function PatchCopies(slots: seq<Slot>, vertexBase: nat, indexBase: nat): (cs: seq<(nat, seq<Byte>)>)
    ensures |cs| == 2 * |slots|
  {
    seq(2 * |slots|, j requires 0 <= j < 2 * |slots| =>
      var s := slots[j / 2];
      if j % 2 == 0 then (s.vdoAt, U32(s.vertexDataOffset + vertexBase))
      else (s.idoAt, U32(s.indexDataOffset + indexBase)))
  }

  lemma PatchCopiesInOrder(slots: seq<Slot>, vertexBase: nat, indexBase: nat, size: nat)
    requires SlotsInOrder(slots, size)
    ensures CopiesInOrder(PatchCopies(slots, vertexBase, indexBase), size)
  {
    var cs := PatchCopies(slots, vertexBase, indexBase);
    forall k | 0 <= k < |cs| ensures cs[k].0 + |cs[k].1| <= size {
      assert 0 <= k / 2 < |slots|;
    }
    forall k, m | 0 <= k < m < |cs| ensures cs[k].0 + |cs[k].1| <= cs[m].0 {
      assert 0 <= k / 2 <= m / 2 < |slots|;
      if k / 2 == m / 2 {
        assert k % 2 == 0 && m % 2 == 1;
      }
    }
  }

  /** The meshlet table after the patch loop has run over `slots`. */
  function Patch(b: seq<Byte>, slots: seq<Slot>, vertexBase: nat, indexBase: nat): (r: seq<Byte>)
    requires SlotsInOrder(slots, |b|)
    ensures |r| == |b|
  {
    PatchCopiesInOrder(slots, vertexBase, indexBase, |b|);
    SpliceAll(b, PatchCopies(slots, vertexBase, indexBase))
  }

  /** After the patch every slot holds its meshlet's offset plus the base of
      its section, truncated to 32 bits. */
  lemma PatchReads(b: seq<Byte>, slots: seq<Slot>, vertexBase: nat, indexBase: nat, k: nat)
    requires SlotsInOrder(slots, |b|) && k < |slots|
    ensures WordAt(Patch(b, slots, vertexBase, indexBase), slots[k].vdoAt)
      == (slots[k].vertexDataOffset + vertexBase) % 0x1_0000_0000
    ensures WordAt(Patch(b, slots, vertexBase, indexBase), slots[k].idoAt)
      == (slots[k].indexDataOffset + indexBase) % 0x1_0000_0000
  {
    var cs := PatchCopies(slots, vertexBase, indexBase);
    PatchCopiesInOrder(slots, vertexBase, indexBase, |b|);
    PatchCopyAt(slots, vertexBase, indexBase, k);
    CopyReads(b, cs, 2 * k, slots[k].vdoAt, slots[k].vertexDataOffset + vertexBase);
    CopyReads(b, cs, 2 * k + 1, slots[k].idoAt, slots[k].indexDataOffset + indexBase);
  }

  lemma PatchCopyAt(slots: seq<Slot>, vertexBase: nat, indexBase: nat, k: nat)
    requires k < |slots|
    ensures var cs := PatchCopies(slots, vertexBase, indexBase);
      && cs[2 * k] == (slots[k].vdoAt, U32(slots[k].vertexDataOffset + vertexBase))
      && cs[2 * k + 1] == (slots[k].idoAt, U32(slots[k].indexDataOffset + indexBase))
  {
    var j := 2 * k;
    assert j / 2 == k && j % 2 == 0 && (j + 1) / 2 == k && (j + 1) % 2 == 1;
  }

  /** A copy of a 32-bit word, in order with the others, reads back. */
  lemma CopyReads(b: seq<Byte>, cs: seq<(nat, seq<Byte>)>, j: nat, at: nat, v: nat)
    requires CopiesInOrder(cs, |b|) && j < |cs| && cs[j] == (at, U32(v))
    ensures at + 4 <= |SpliceAll(b, cs)|
    ensures WordAt(SpliceAll(b, cs), at) == v % 0x1_0000_0000
  {
    SpliceAllHere(b, cs, j);
    U32Word(v);
  }

  /** The patch touches nothing outside the slots. */
  lemma PatchOutside(b: seq<Byte>, slots: seq<Slot>, vertexBase: nat, indexBase: nat, p: nat)
    requires SlotsInOrder(slots, |b|) && p < |b| && OutsideSlots(slots, p)
    ensures Patch(b, slots, vertexBase, indexBase)[p] == b[p]
  {
    var cs := PatchCopies(slots, vertexBase, indexBase);
    PatchCopiesInOrder(slots, vertexBase, indexBase, |b|);
    forall k | 0 <= k < |cs| ensures p < cs[k].0 || cs[k].0 + |cs[k].1| <= p {
      assert 0 <= k / 2 < |slots|;
    }
    SpliceAllOutside(b, cs, p);
  }

  /** Patching a meshlet table written at `start`: whatever the table held
      before, each meshlet's vertex and index offsets come out as its local
      offset plus the section base, truncated to 32 bits. */
  lemma MeshletTablePatched(table: seq<Byte>, start: nat, hs: seq<MeshletHeader>,
                            vertexBase: nat, indexBase: nat, k: nat)
    requires start + 32 * |hs| <= |table| && k < |hs|
    ensures SlotsInOrder(SlotsOf(start, hs), |table|)
    ensures WordAt(Patch(table, SlotsOf(start, hs), vertexBase, indexBase), start + 32 * k + 24)
      == (hs[k].vertexDataOffset + vertexBase) % 0x1_0000_0000
    ensures WordAt(Patch(table, SlotsOf(start, hs), vertexBase, indexBase), start + 32 * k + 28)
      == (hs[k].indexDataOffset + indexBase) % 0x1_0000_0000
  {
    var slots := SlotsOf(start, hs);
    assert slots[k] == SlotOf(start, k, hs[k]);
    HeaderSlotsInOrder(start, hs, |table|);
    PatchReads(table, slots, vertexBase, indexBase, k);
  }

  /** A `std::vector<uint8_t>` that values are appended to byte by byte. */
  class WriteVector {
    var bytes: seq<Byte>

    constructor ()
      ensures bytes == []
    {
      bytes := [];
    }

    /** `write<T>(val)`, with `val` the `sizeof(T)` bytes of the value. */
    method Write(val: seq<Byte>)
      modifies this
      ensures bytes == old(bytes) + val
    {
      bytes := bytes + val;
    }

    /** `rewrite<T>(offset, val)`: the bytes at `offset` are overwritten in
        place, the length stays. Copying past the end is undefined
        behaviour in the source. */
    method Rewrite(offset: nat, val: seq<Byte>)
      requires offset + |val| <= |bytes|
      modifies this
      ensures bytes == Splice(old(bytes), offset, val)
    {
      bytes := bytes[..offset] + val + bytes[offset + |val|..];
    }

    /** `packVertex`, given the quantised values. */
    method PackVertex(v: QuantisedVertex, textured: bool, normaled: bool, colored: bool, l: Layout)
      modifies this
      ensures bytes == old(bytes) + VertexBytes(v, textured, normaled, colored, l)
    {
      WritePosition(v, l);
      WriteUv(v, textured, l);
      if normaled {
        WriteNormal(v);
      }
      if colored {
        Write(U32(ColorWord(v.color)));
      }
      var pos, uv, nrm, col := PositionBytes(v, l), UvBytes(v, textured, l), NormalBytes(v, normaled), ColorField(v, colored);
      AppendAssoc(old(bytes), pos + uv + nrm, col);
      AppendAssoc(old(bytes), pos + uv, nrm);
      AppendAssoc(old(bytes), pos, uv);
    }

    method WritePosition(v: QuantisedVertex, l: Layout)
      modifies this
      ensures bytes == old(bytes) + PositionBytes(v, l)
    {
      if l.bigVertex {
        Write(U32(v.floatXyz.0));
        Write(U32(v.floatXyz.1));
        Write(U32(v.floatXyz.2));
      } else {
        Write(U16(v.shortXyz.0));
        Write(U16(v.shortXyz.1));
        Write(U16(v.shortXyz.2));
        if l.padXyz {
          Write(U16(0));
        }
      }
    }

    method WriteUv(v: QuantisedVertex, textured: bool, l: Layout)
      modifies this
      ensures bytes == old(bytes) + UvBytes(v, textured, l)
    {
      if textured {
        if l.bigUv {
          Write(U32(v.halfUv.0 * 0x1_0000 + v.halfUv.1));
        } else {
          Write(U8(v.byteUv.0));
          Write(U8(v.byteUv.1));
        }
      }
    }

    method WriteNormal(v: QuantisedVertex)
      modifies this
      ensures bytes == old(bytes) + NormalBytes(v, true)
    {
      Write(U8(v.normal.0));
      Write(U8(v.normal.1));
      Write(U8(v.normal.2));
      Write(U8(0));
    }

    /** One meshlet's record, returning where its two offsets went. The
        fields are appended one by one, in the order `HeaderBytes` lays
        them out. */
    method WriteHeader(h: MeshletHeader) returns (vdoAt: nat, idoAt: nat)
      modifies this
      ensures bytes == old(bytes) + HeaderBytes(h)
      ensures vdoAt == old(|bytes|) + 24 && idoAt == vdoAt + 4
    {
      vdoAt := |bytes| + 24;
      idoAt := |bytes| + 28;
      Write(HeaderBytes(h));
    }

    /** The meshlet table: every record in turn, with the slot of each. */
    method WriteHeaders(hs: seq<MeshletHeader>) returns (slots: seq<Slot>)
      modifies this
      ensures bytes == old(bytes) + HeadersBytes(hs)
      ensures slots == SlotsOf(old(|bytes|), hs)
    {
      ghost var b := bytes;
      slots := [];
      var i := 0;
      while i < |hs|
        invariant 0 <= i <= |hs|
        invariant bytes == b + HeadersBytes(hs[..i])
        invariant slots == SlotsOf(|b|, hs[..i])
      {
        var vdoAt, idoAt := WriteHeader(hs[i]);
        slots := slots + [Slot(vdoAt, hs[i].vertexDataOffset, idoAt, hs[i].indexDataOffset)];
        HeadersSnoc(b, hs, i);
        i := i + 1;
      }
      assert hs[..i] == hs;
    }

    /** The patch after all data is laid out: `rewrite<uint32_t>` of both
        offsets of every meshlet. */
    method PatchOffsets(slots: seq<Slot>, vertexBase: nat, indexBase: nat)
      requires SlotsInOrder(slots, |bytes|)
      modifies this
      ensures bytes == Patch(old(bytes), slots, vertexBase, indexBase)
    {
      ghost var cs := PatchCopies(slots, vertexBase, indexBase);
      PatchCopiesInOrder(slots, vertexBase, indexBase, |bytes|);
      var i := 0;
      while i < |slots|
        invariant 0 <= i <= |slots|
        invariant CopiesFit(cs[..2 * i], |old(bytes)|)
        invariant bytes == SpliceAll(old(bytes), cs[..2 * i])
      {
        ghost var j := 2 * i;
        assert j / 2 == i && j % 2 == 0 && (j + 1) / 2 == i && (j + 1) % 2 == 1;
        assert cs[j] == (slots[i].vdoAt, U32(slots[i].vertexDataOffset + vertexBase));
        assert cs[j + 1] == (slots[i].idoAt, U32(slots[i].indexDataOffset + indexBase));
        Rewrite(slots[i].vdoAt, U32(slots[i].vertexDataOffset + vertexBase));
        SpliceAllSnoc(old(bytes), cs, j);
        Rewrite(slots[i].idoAt, U32(slots[i].indexDataOffset + indexBase));
        SpliceAllSnoc(old(bytes), cs, j + 1);
        assert 2 * (i + 1) == j + 2;
        i := i + 1;
      }
      assert cs[..2 * i] == cs;
    }
  }
}
