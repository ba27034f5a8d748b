/** The twiddled outputs of the texture converter: `packColorsTo*`, which
    stores a row-major image as 16-bit texels in twiddled order, and
    `compressToVQ`, which cuts the image into 2x2 blocks, chooses a codebook
    of blocks and writes the codebook followed by one index byte per block. */
module VqCompress {
  import opened Twiddle
  import opened VqColor
  import opened VqImage

  // ---------------------------------------------------------------------------
  // Row-major rank of a twiddled index
  // ---------------------------------------------------------------------------

  /** The row-major position of the texel that twiddled index `t` stands for
      in a `2^a` by `2^b` texture. */
  function Rank(t: nat, a: nat, b: nat): nat
  {
    Untwiddled(t, a, b).y * Pow2(a) + Untwiddled(t, a, b).x
  }

  lemma RankTwiddled(x: nat, y: nat, a: nat, b: nat)
    requires x < Pow2(a) && y < Pow2(b)
    ensures Rank(Twiddled(x, y, a, b), a, b) == y * Pow2(a) + x
  {
    UntwiddleTwiddle(x, y, a, b);
  }

  lemma RankBound(t: nat, a: nat, b: nat)
    ensures Rank(t, a, b) < Pow2(a) * Pow2(b)
  {
    var p := Untwiddled(t, a, b);
    RowMajorIndex(p.y, p.x, Pow2(a), Pow2(b));
  }

  /** Distinct twiddled indices stand for distinct row-major positions. */
  lemma RankInjective(t1: nat, t2: nat, a: nat, b: nat)
    requires t1 < Pow2(a + b) && t2 < Pow2(a + b) && Rank(t1, a, b) == Rank(t2, a, b)
    ensures t1 == t2
  {
    var p1, p2 := Untwiddled(t1, a, b), Untwiddled(t2, a, b);
    DivUnique(Rank(t1, a, b), Pow2(a), p1.y, p1.x);
    DivUnique(Rank(t2, a, b), Pow2(a), p2.y, p2.x);
    TwiddleUntwiddle(t1, a, b);
    TwiddleUntwiddle(t2, a, b);
  }

  // ---------------------------------------------------------------------------
  // packColorsTo*
  // ---------------------------------------------------------------------------

  /** Bytes `2 * t` and `2 * t + 1` of `s` hold texel `p`, low byte first. */
  predicate PackedAt(s: seq<bv8>, t: nat, p: bv16)
  {
    2 * t + 1 < |s| && s[2 * t] == Lo(p) && s[2 * t + 1] == Hi(p)
  }

  /** Twiddled slot `t` of `s` holds the packed colour of the pixel it
      stands for. */
  predicate Slot(f: Format, colors: seq<Color>, a: nat, b: nat, s: seq<bv8>, t: nat)
  {
    Rank(t, a, b) < |colors| && PackedAt(s, t, Pack(f, colors[Rank(t, a, b)]))
  }

  /** Twiddled slots `0 .. n - 1` of `s` hold their packed colours, as
      `PackColors` ensures for `n == width * height`. */
  ghost predicate Slots(f: Format, colors: seq<Color>, a: nat, b: nat, s: seq<bv8>, n: nat)
  {
    forall t :: 0 <= t < n ==> Slot(f, colors, a, b, s, t)
  }

  /** Every twiddled texel whose row-major position is below `n` holds its
      packed colour. */
  predicate Packed(f: Format, colors: seq<Color>, a: nat, b: nat, s: seq<bv8>, n: nat)
  {
    forall t :: 0 <= t < Pow2(a + b) && Rank(t, a, b) < n ==> Slot(f, colors, a, b, s, t)
  }

  /** Writing pixel `n` to the twiddled slot `t0` that stands for it extends
      `Packed` to `n + 1`. */
  lemma PackedStep(f: Format, colors: seq<Color>, a: nat, b: nat, s: seq<bv8>, t0: nat, n: nat)
    requires t0 < Pow2(a + b) && Rank(t0, a, b) == n && n < |colors| && 2 * Pow2(a + b) <= |s|
    requires Packed(f, colors, a, b, s, n)
    ensures var p := Pack(f, colors[n]);
      2 * t0 + 1 < |s| && Packed(f, colors, a, b, s[2 * t0 := Lo(p)][2 * t0 + 1 := Hi(p)], n + 1)
  {
    var p := Pack(f, colors[n]);
    var s' := s[2 * t0 := Lo(p)][2 * t0 + 1 := Hi(p)];
    forall t | 0 <= t < Pow2(a + b) && Rank(t, a, b) < n + 1
      ensures Slot(f, colors, a, b, s', t)
    {
      if t != t0 && Rank(t, a, b) == n {
        RankInjective(t, t0, a, b);
      }
    }
  }

  /** `packColorsTo{ARGB4444,ARGB1555,RGB565}`: row-major pixel `i` at
      `(x, y)`, packed, lands at bytes `2 * twiddle(x, y)` (low byte) and
      `2 * twiddle(x, y) + 1` (high byte) of a buffer of `2 * |colors|` zero
      bytes. */
  method PackColors(f: Format, colors: seq<Color>, width: nat, height: nat, ghost a: nat, ghost b: nat)
    returns (packed: seq<bv8>)
    requires width == Pow2(a) && height == Pow2(b) && width * height <= |colors|
    ensures |packed| == 2 * |colors|
    ensures forall t :: 0 <= t < width * height ==> Slot(f, colors, a, b, packed, t)
    ensures forall k :: 2 * (width * height) <= k < |packed| ==> packed[k] == 0
  {
    Pow2Add(a, b);
    var packedData := new bv8[2 * |colors|](_ => 0);
    var j := 0;
    for y := 0 to height
      invariant j == y * width && j <= width * height
      invariant Packed(f, colors, a, b, packedData[..], j)
      invariant ZeroFrom(packedData[..], 2 * (width * height))
    {
      NextRow(y, width, height);
      j := PackRow(f, colors, width, height, a, b, y, j, packedData);
    }
    packed := packedData[..];
    PackedAll(f, colors, a, b, packed, j);
  }

  /** Once every row-major position is written, every slot is. */
  lemma PackedAll(f: Format, colors: seq<Color>, a: nat, b: nat, s: seq<bv8>, n: nat)
    requires n == Pow2(a) * Pow2(b) && Packed(f, colors, a, b, s, n)
    ensures forall t :: 0 <= t < n ==> Slot(f, colors, a, b, s, t)
  {
    Pow2Add(a, b);
    forall t | 0 <= t < n
      ensures Slot(f, colors, a, b, s, t)
    {
      RankBound(t, a, b);
    }
  }

  /** The inner loop of `packColorsTo*`: packs row `y`, whose first pixel is
      row-major pixel `j0`. */
  method PackRow(f: Format, colors: seq<Color>, width: nat, height: nat, ghost a: nat, ghost b: nat, y: nat, j0: nat,
                 packedData: array<bv8>)
    returns (j: nat)
    requires width == Pow2(a) && height == Pow2(b) && width * height <= |colors| && width * height == Pow2(a + b)
    requires y < height && j0 == y * width && j0 + width <= width * height && packedData.Length == 2 * |colors|
    requires Packed(f, colors, a, b, packedData[..], j0) && ZeroFrom(packedData[..], 2 * (width * height))
    modifies packedData
    ensures j == j0 + width
    ensures Packed(f, colors, a, b, packedData[..], j) && ZeroFrom(packedData[..], 2 * (width * height))
  {
    j := j0;
    for x := 0 to width
      invariant j == j0 + x
      invariant Packed(f, colors, a, b, packedData[..], j)
      invariant ZeroFrom(packedData[..], 2 * (width * height))
    {
      var i := j;
      j := j + 1;
      var idx := TwiddleSlow(x, y, width, height);
      InterleavePow2(x, y, a, b);
      TwiddledBound(x, y, a, b);
      RankTwiddled(x, y, a, b);
      var packedColor := Pack(f, colors[i]);
      ghost var s := packedData[..];
      PackedStep(f, colors, a, b, s, idx, i);
      ZeroStep(s, 2 * (width * height), 2 * idx, Lo(packedColor), Hi(packedColor));
      packedData[idx * 2] := Lo(packedColor);
      packedData[idx * 2 + 1] := Hi(packedColor);
      assert packedData[..] == s[2 * idx := Lo(packedColor)][2 * idx + 1 := Hi(packedColor)];
    }
  }

  /** Every byte of `s` from position `m` on is zero. */
  predicate ZeroFrom(s: seq<bv8>, m: nat)
  {
    forall k :: m <= k < |s| ==> s[k] == 0
  }

  lemma ZeroStep(s: seq<bv8>, m: nat, k: nat, lo: bv8, hi: bv8)
    requires ZeroFrom(s, m) && k + 1 < m && k + 1 < |s|
    ensures ZeroFrom(s[k := lo][k + 1 := hi], m)
  {
  }

  /** The 16-bit texel at twiddled slot `t`, low byte first. */
  function Word(s: seq<bv8>, t: nat): bv16
    requires 2 * t + 1 < |s|
  {
    (s[2 * t + 1] as bv16 << 8) | s[2 * t] as bv16
  }

  /** Reading a packed texture back: the texel at `2 * twiddle(x, y)` unpacks
      to the quantised colour of row-major pixel `(x, y)`. */
  lemma PackedTexel(f: Format, colors: seq<Color>, width: nat, height: nat, a: nat, b: nat, packed: seq<bv8>,
                     x: nat, y: nat)
    requires width == Pow2(a) && height == Pow2(b) && width * height <= |colors|
    requires Slots(f, colors, a, b, packed, width * height)
    requires x < width && y < height
    ensures y * width + x < |colors| && 2 * Twiddled(x, y, a, b) + 1 < |packed|
    ensures var c := Convert(f, colors[y * width + x]);
      Unpack(f, Word(packed, Twiddled(x, y, a, b))) == if f == RGB565 then c.(a := 0xFF) else c
  {
    var t := Twiddled(x, y, a, b);
    TexelSlot(width, height, a, b, x, y);
    assert Slot(f, colors, a, b, packed, t);
    SlotUnpack(f, colors, a, b, packed, t);
  }

  /** Pixel `(x, y)` stands for a twiddled slot below `width * height`. */
  lemma TexelSlot(width: nat, height: nat, a: nat, b: nat, x: nat, y: nat)
    requires width == Pow2(a) && height == Pow2(b) && x < width && y < height
    ensures Twiddled(x, y, a, b) < width * height && y * width + x < width * height
    ensures Rank(Twiddled(x, y, a, b), a, b) == y * width + x
  {
    NextRow(y, width, height);
    TwiddledBound(x, y, a, b);
    Pow2Add(a, b);
    RankTwiddled(x, y, a, b);
  }

  /** A slot holding its packed colour unpacks to the quantised colour. */
  lemma SlotUnpack(f: Format, colors: seq<Color>, a: nat, b: nat, packed: seq<bv8>, t: nat)
    requires Slot(f, colors, a, b, packed, t)
    ensures Rank(t, a, b) < |colors| && 2 * t + 1 < |packed|
    ensures var c := Convert(f, colors[Rank(t, a, b)]);
      Unpack(f, Word(packed, t)) == if f == RGB565 then c.(a := 0xFF) else c
  {
    var c := colors[Rank(t, a, b)];
    var p := Pack(f, c);
    assert PackedAt(packed, t, p);
    WordOf(packed, t, p);
    UnpackPack(f, c);
  }

  /** A slot holding the two bytes of `p` reads back as `p`. */
  lemma WordOf(s: seq<bv8>, t: nat, p: bv16)
    requires PackedAt(s, t, p)
    ensures Word(s, t) == p
  {
    LoHi(p);
  }

  // ---------------------------------------------------------------------------
  // compressToVQ: the 2x2 blocks
  // ---------------------------------------------------------------------------

  /** A `std::array<Color, 4>` block of `compressToVQ`, holding the texels
      `(x, y)`, `(x, y + 1)`, `(x + 1, y)` and `(x + 1, y + 1)` in that
      order, which is their twiddled order. */
  datatype Block = Block(c0: Color, c1: Color, c2: Color, c3: Color)

  function Colors(q: Block): seq<Color>
  {
    [q.c0, q.c1, q.c2, q.c3]
  }

  /** A value-initialised block: four transparent black texels. */
  const ZeroBlock := Block(Color(0, 0, 0, 0), Color(0, 0, 0, 0), Color(0, 0, 0, 0), Color(0, 0, 0, 0))

  /** A `2^a` by `2^b` texture has `2^(a-1) * 2^(b-1)` blocks. */
  lemma Quarter(a: nat, b: nat)
    requires 0 < a && 0 < b
    ensures Pow2(a + b) == 4 * Pow2(a - 1 + (b - 1)) && Pow2(a) * Pow2(b) / 4 == Pow2(a - 1 + (b - 1))
    ensures Pow2(a) == 2 * Pow2(a - 1) && Pow2(b) == 2 * Pow2(b - 1)
  {
    Pow2Add(a, b);
    assert Pow2(a + b) == 2 * (2 * Pow2(a - 1 + (b - 1)));
  }

  /** The converted 2x2 block whose first texel is `(2 * p.x, 2 * p.y)`. */
  function BlockAt(f: Format, image: seq<Color>, width: nat, height: nat, p: Texel): Block
    requires width * height <= |image| && 2 * p.x + 1 < width && 2 * p.y + 1 < height
  {
    var x, y := 2 * p.x, 2 * p.y;
    RowMajorIndex(y, x + 1, width, height);
    RowMajorIndex(y + 1, x + 1, width, height);
    Block(Convert(f, image[x + y * width]), Convert(f, image[x + (y + 1) * width]),
          Convert(f, image[x + 1 + y * width]), Convert(f, image[x + 1 + (y + 1) * width]))
  }

  /** The blocks `compressToVQ` extracts: block `k` is the converted block
      at the position that `k`, as a twiddled index of the half-size
      texture, stands for. */
  function Blocks(f: Format, image: seq<Color>, width: nat, height: nat, a: nat, b: nat): (blocks: seq<Block>)
    requires 0 < a && 0 < b && width == Pow2(a) && height == Pow2(b) && width * height <= |image|
    ensures |blocks| == width * height / 4
  {
    Quarter(a, b);
    seq(Pow2(a - 1 + (b - 1)), k requires 0 <= k < Pow2(a - 1 + (b - 1)) =>
      BlockAt(f, image, width, height, Untwiddled(k, a - 1, b - 1)))
  }

  /** The VQ decoding of the blocks: texel `t` of the twiddled texture is
      element `t % 4` of block `t / 4`, and holds the converted colour of the
      row-major pixel that `t` stands for. */
  lemma BlockTexel(f: Format, image: seq<Color>, width: nat, height: nat, a: nat, b: nat, t: nat)
    requires 0 < a && 0 < b && width == Pow2(a) && height == Pow2(b) && width * height <= |image|
    requires t < Pow2(a + b)
    ensures t / 4 < |Blocks(f, image, width, height, a, b)| && Rank(t, a, b) < |image|
    ensures Colors(Blocks(f, image, width, height, a, b)[t / 4])[t % 4] == Convert(f, image[Rank(t, a, b)])
  {
    Quarter(a, b);
    RankBound(t, a, b);
    var k, m := t / 4, t % 4;
    QuarterDigits(t);
    var r := Untwiddled(k, a - 1, b - 1);
    var q := Untwiddled(t, a, b);
    assert q == Texel(2 * r.x + m / 2, 2 * r.y + m % 2);
    assert Rank(t, a, b) == q.y * width + q.x;
    assert Blocks(f, image, width, height, a, b)[k] == BlockAt(f, image, width, height, r);
    BlockColor(f, image, width, height, r, m);
  }

  /** Texel `m` of the block at half-size position `r` is the pixel `m / 2`
      columns and `m % 2` rows past its corner. */
  lemma BlockColor(f: Format, image: seq<Color>, width: nat, height: nat, r: Texel, m: nat)
    requires width * height <= |image| && 2 * r.x + 1 < width && 2 * r.y + 1 < height && m < 4
    ensures (2 * r.y + m % 2) * width + (2 * r.x + m / 2) < |image|
    ensures Colors(BlockAt(f, image, width, height, r))[m] ==
      Convert(f, image[(2 * r.y + m % 2) * width + (2 * r.x + m / 2)])
  {
    var x, y := 2 * r.x, 2 * r.y;
    SameRow(y, width);
    RowMajorIndex(y + 1, x + 1, width, height);
  }

  /** The two low bits of `t`, one at a time. */
  lemma QuarterDigits(t: nat)
    ensures t / 2 / 2 == t / 4 && t % 2 == t % 4 % 2 && t / 2 % 2 == t % 4 / 2
  {
    var q, r := t / 4, t % 4;
    assert t == 4 * q + r;
    assert t / 2 == 2 * q + r / 2;
    assert t % 2 == r % 2;
  }

  /** The row after `y` starts `width` texels later. */
  lemma SameRow(y: nat, width: nat)
    ensures (y + 1) * width == y * width + width
  {
  }

  /** Every block whose half-size row-major position is below `n` is in
      place. */
  predicate Extracted(f: Format, image: seq<Color>, width: nat, height: nat, a: nat, b: nat, s: seq<Block>, n: nat)
    requires 0 < a && 0 < b && width == Pow2(a) && height == Pow2(b) && width * height <= |image|
  {
    Quarter(a, b);
    |s| == width * height / 4 &&
    forall k :: 0 <= k < |s| && Rank(k, a - 1, b - 1) < n ==>
      s[k] == BlockAt(f, image, width, height, Untwiddled(k, a - 1, b - 1))
  }

  lemma ExtractedStep(f: Format, image: seq<Color>, width: nat, height: nat, a: nat, b: nat, s: seq<Block>,
                      k0: nat, n: nat, block: Block)
    requires 0 < a && 0 < b && width == Pow2(a) && height == Pow2(b) && width * height <= |image|
    requires Extracted(f, image, width, height, a, b, s, n) && k0 < |s| && Rank(k0, a - 1, b - 1) == n
    requires block == Blocks(f, image, width, height, a, b)[k0]
    ensures Extracted(f, image, width, height, a, b, s[k0 := block], n + 1)
  {
    Quarter(a, b);
    var a', b' := a - 1, b - 1;
    forall k | 0 <= k < |s| && Rank(k, a', b') == n
      ensures k == k0
    {
      RankInjective(k, k0, a', b');
    }
  }

  /** Once every half-size position is written, the buffer holds `Blocks`. */
  lemma ExtractedAll(f: Format, image: seq<Color>, width: nat, height: nat, a: nat, b: nat, s: seq<Block>, n: nat)
    requires 0 < a && 0 < b && width == Pow2(a) && height == Pow2(b) && width * height <= |image|
    requires n == Pow2(b) / 2 * Pow2(a - 1) && Extracted(f, image, width, height, a, b, s, n)
    ensures s == Blocks(f, image, width, height, a, b)
  {
    Quarter(a, b);
    Pow2Add(a - 1, b - 1);
    assert Pow2(b) / 2 == Pow2(b - 1);
    assert n == Pow2(a - 1) * Pow2(b - 1);
    forall k | 0 <= k < |s|
      ensures s[k] == Blocks(f, image, width, height, a, b)[k]
    {
      RankBound(k, a - 1, b - 1);
    }
  }

  /** The first loop nest of `compressToVQ`: for even `x` and `y`, the
      converted block at `(x, y)` goes to `blocks[twiddle_slow(x, y) >> 2]`. */
  method ExtractBlocks(f: Format, image: seq<Color>, width: nat, height: nat, ghost a: nat, ghost b: nat)
    returns (blocks: seq<Block>)
    requires 0 < a && 0 < b && width == Pow2(a) && height == Pow2(b) && width * height <= |image|
    ensures blocks == Blocks(f, image, width, height, a, b)
  {
    Quarter(a, b);
    var buffer := new Block[width * height / 4](_ => ZeroBlock);
    ghost var row, r, half := 0, 0, Pow2(a - 1);
    var y := 0;
    while y < height
      invariant y == 2 * r && r <= Pow2(b - 1) && row == r * half
      invariant Extracted(f, image, width, height, a, b, buffer[..], row)
    {
      assert y / 2 == r;
      NextRow(r, half, Pow2(b - 1));
      ExtractRow(f, image, width, height, a, b, y, row, buffer);
      y, r := y + 2, r + 1;
      row := row + half;
    }
    assert Pow2(b) / 2 == r;
    blocks := buffer[..];
    ExtractedAll(f, image, width, height, a, b, blocks, row);
  }

  /** The four texels of the block at `(x, y)` lie inside the image. */
  lemma BlockIndices(x: nat, y: nat, width: nat, height: nat)
    requires x + 1 < width && y + 1 < height
    ensures x + y * width < width * height && x + (y + 1) * width < width * height
    ensures x + 1 + y * width < width * height && x + 1 + (y + 1) * width < width * height
  {
    RowMajorIndex(y, x + 1, width, height);
    RowMajorIndex(y + 1, x + 1, width, height);
  }

  /** `twiddle_slow(x, y) >> 2` at even `(x, y)` is the block that stands for
      half-size position `row + x / 2`, and holds the block at `(x, y)`. */
  lemma BlockSlot(f: Format, image: seq<Color>, width: nat, height: nat, a: nat, b: nat, x: nat, y: nat, row: nat)
    requires 0 < a && 0 < b && width == Pow2(a) && height == Pow2(b) && width * height <= |image|
    requires x % 2 == 0 && x < width && y % 2 == 0 && y < height && row == y / 2 * Pow2(a - 1)
    ensures var k := Interleave(x, y, width / 2, height / 2) / 4;
      k < width * height / 4 && Rank(k, a - 1, b - 1) == row + x / 2 &&
      x + 1 + (y + 1) * width < width * height &&
      2 * (x / 2) + 1 < width && 2 * (y / 2) + 1 < height &&
      Blocks(f, image, width, height, a, b)[k] == BlockAt(f, image, width, height, Texel(x / 2, y / 2))
  {
    var t := SlotIndex(x, y, width, height, a, b);
    RankTwiddled(x / 2, y / 2, a - 1, b - 1);
    BlockIndices(x, y, width, height);
    SlotContent(f, image, width, height, a, b, x, y, t);
  }

  /** The block index of even `(x, y)` is its half-size twiddled index. */
  lemma SlotIndex(x: nat, y: nat, width: nat, height: nat, a: nat, b: nat) returns (t: nat)
    requires 0 < a && 0 < b && width == Pow2(a) && height == Pow2(b)
    requires x % 2 == 0 && x < width && y % 2 == 0 && y < height
    ensures t == Twiddled(x / 2, y / 2, a - 1, b - 1) && Interleave(x, y, width / 2, height / 2) / 4 == t
    ensures t < width * height / 4 && x / 2 < Pow2(a - 1) && y / 2 < Pow2(b - 1)
  {
    Quarter(a, b);
    t := Twiddled(x / 2, y / 2, a - 1, b - 1);
    InterleavePow2(x, y, a, b);
    TwiddledBlock(x, y, a, b);
    TwiddledBound(x / 2, y / 2, a - 1, b - 1);
  }

  lemma SlotContent(f: Format, image: seq<Color>, width: nat, height: nat, a: nat, b: nat, x: nat, y: nat, t: nat)
    requires 0 < a && 0 < b && width == Pow2(a) && height == Pow2(b) && width * height <= |image|
    requires x % 2 == 0 && x < width && y % 2 == 0 && y < height
    requires t == Twiddled(x / 2, y / 2, a - 1, b - 1) && t < width * height / 4
    requires x + 1 + (y + 1) * width < width * height
    ensures 2 * (x / 2) + 1 < width && 2 * (y / 2) + 1 < height
    ensures Blocks(f, image, width, height, a, b)[t] == BlockAt(f, image, width, height, Texel(x / 2, y / 2))
  {
    Quarter(a, b);
    UntwiddleTwiddle(x / 2, y / 2, a - 1, b - 1);
    assert 2 * (x / 2) == x && 2 * (y / 2) == y;
  }

  /** The inner loop of the first loop nest of `compressToVQ`, over the even
      columns of row `y`. */
  method ExtractRow(f: Format, image: seq<Color>, width: nat, height: nat, ghost a: nat, ghost b: nat, y: nat,
                    ghost row: nat, buffer: array<Block>)
    requires 0 < a && 0 < b && width == Pow2(a) && height == Pow2(b) && width * height <= |image|
    requires y % 2 == 0 && y < height && row == y / 2 * Pow2(a - 1)
    requires Extracted(f, image, width, height, a, b, buffer[..], row)
    modifies buffer
    ensures Extracted(f, image, width, height, a, b, buffer[..], row + Pow2(a - 1))
  {
    Quarter(a, b);
    ghost var half, c := Pow2(a - 1), 0;
    var x := 0;
    while x < width
      invariant x == 2 * c && c <= half
      invariant Extracted(f, image, width, height, a, b, buffer[..], row + c)
    {
      assert x / 2 == c;
      ExtractBlock(f, image, width, height, a, b, x, y, row, buffer);
      x, c := x + 2, c + 1;
    }
  }

  /** The body of the first loop nest of `compressToVQ`: the converted block
      at even `(x, y)` goes to `blocks[twiddle_slow(x, y) >> 2]`. */
  method ExtractBlock(f: Format, image: seq<Color>, width: nat, height: nat, ghost a: nat, ghost b: nat,
                      x: nat, y: nat, ghost row: nat, buffer: array<Block>)
    requires 0 < a && 0 < b && width == Pow2(a) && height == Pow2(b) && width * height <= |image|
    requires x % 2 == 0 && x < width && y % 2 == 0 && y < height && row == y / 2 * Pow2(a - 1)
    requires Extracted(f, image, width, height, a, b, buffer[..], row + x / 2)
    modifies buffer
    ensures Extracted(f, image, width, height, a, b, buffer[..], row + x / 2 + 1)
  {
    var blockIndex := TwiddleSlow(x, y, width, height);
    BlockSlot(f, image, width, height, a, b, x, y, row);
    var block := BlockAt(f, image, width, height, Texel(x / 2, y / 2));
    ghost var s := buffer[..];
    ExtractedStep(f, image, width, height, a, b, s, blockIndex / 4, row + x / 2, block);
    buffer[blockIndex / 4] := block;
    assert buffer[..] == s[blockIndex / 4 := block];
  }

  // ---------------------------------------------------------------------------
  // createCodebook
  // ---------------------------------------------------------------------------

  /** The average `createCodebook` computes AS WRITTEN: `Color average = {}`
      has `uint8_t` channels, so each `+=` wraps modulo 256 before the
      division by 4. */
  function AverageAsWritten(q: Block): Color
  {
    Color((q.c0.r + q.c1.r + q.c2.r + q.c3.r) / 4, (q.c0.g + q.c1.g + q.c2.g + q.c3.g) / 4,
          (q.c0.b + q.c1.b + q.c2.b + q.c3.b) / 4, (q.c0.a + q.c1.a + q.c2.a + q.c3.a) / 4)
  }

  /** A block of four mid-grey texels averages to transparent black as
      written. */
  lemma AverageOverflow()
    ensures var g := Color(128, 128, 128, 128);
      AverageAsWritten(Block(g, g, g, g)) == Color(0, 0, 0, 0) && Average(Block(g, g, g, g)) == g
  {
    var g := Color(128, 128, 128, 128);
    MeanOfFour(128, 128, 128, 128);
    assert Mean4(128, 128, 128, 128) == 128;
  }

  /** The floor of the mean of four channel values. */
  function Mean4(n0: nat, n1: nat, n2: nat, n3: nat): bv8
  {
    Narrow((n0 + n1 + n2 + n3) / 4)
  }

  /** The average `createCodebook` evidently means: the per-channel floor of
      the four-texel mean.  This is the definition the model sorts by. */
  function Average(q: Block): Color
  {
    Color(Mean4(q.c0.r as nat, q.c1.r as nat, q.c2.r as nat, q.c3.r as nat),
          Mean4(q.c0.g as nat, q.c1.g as nat, q.c2.g as nat, q.c3.g as nat),
          Mean4(q.c0.b as nat, q.c1.b as nat, q.c2.b as nat, q.c3.b as nat),
          Mean4(q.c0.a as nat, q.c1.a as nat, q.c2.a as nat, q.c3.a as nat))
  }

  /** For channel values, `Mean4` is the exact floor of the mean, and lies
      between the smallest and the largest of the four values. */
  lemma MeanOfFour(n0: nat, n1: nat, n2: nat, n3: nat)
    requires n0 <= 255 && n1 <= 255 && n2 <= 255 && n3 <= 255
    ensures var m, sum := Mean4(n0, n1, n2, n3) as nat, n0 + n1 + n2 + n3;
      m == sum / 4 && 4 * m <= sum < 4 * m + 4
    ensures var m := Mean4(n0, n1, n2, n3) as nat;
      (m >= n0 || m >= n1 || m >= n2 || m >= n3) && (m <= n0 || m <= n1 || m <= n2 || m <= n3)
  {
    QuotientByte(n0 + n1 + n2 + n3, 4);
  }

  /** The sort key of `createCodebook`'s comparator: the channel sum of the
      average. */
  function Key(q: Block): nat
  {
    var c := Average(q);
    c.r as nat + c.g as nat + c.b as nat + c.a as nat
  }

  /** `order` lists every block position exactly once. */
  predicate IsPermutation(order: seq<nat>, n: nat)
  {
    |order| == n && (forall i :: 0 <= i < n ==> order[i] < n) &&
    (forall i, j :: 0 <= i < j < n ==> order[i] != order[j])
  }

  /** The result of `std::sort` on the blocks with their averages, as block
      positions: a permutation in non-decreasing key order; the order of
      equal keys is unspecified. */
  predicate SortedOrder(blocks: seq<Block>, order: seq<nat>)
  {
    IsPermutation(order, |blocks|) &&
    forall i, j :: 0 <= i < j < |order| ==> KeyAt(blocks, order, i) <= KeyAt(blocks, order, j)
  }

  /** The key of the block at sorted position `i`. */
  function KeyAt(blocks: seq<Block>, order: seq<nat>, i: nat): nat
    requires i < |order| && order[i] < |blocks|
  {
    Key(blocks[order[i]])
  }

  /** The sorted position `createCodebook` takes for entry `firstEntry + j`:
      `j * (n / codebookSize)`, where `n` is the number of blocks. */
  function Pick(j: nat, n: nat, cs: nat): (k: nat)
    requires j < cs && 0 < n
    ensures k < n
  {
    PickBound(j, n, cs);
    j * (n / cs)
  }

  lemma PickBound(j: nat, n: nat, cs: nat)
    requires j < cs && 0 < n
    ensures j * (n / cs) < n
  {
    if n / cs > 0 {
      MulMonotone(j + 1, cs, n / cs);
      assert cs * (n / cs) <= n;
    }
  }

  /** The codebook `createCodebook` returns: 256 entries, the first
      `256 - cs` value-initialised, entry `256 - cs + j` the block at sorted
      position `Pick(j)`. */
  function Codebook(blocks: seq<Block>, order: seq<nat>, cs: nat): (cb: seq<Block>)
    requires 0 < cs <= 256 && 0 < |blocks| && IsPermutation(order, |blocks|)
    ensures |cb| == 256
  {
    seq(256, i requires 0 <= i < 256 =>
      if i < 256 - cs then ZeroBlock else blocks[order[Pick(i - (256 - cs), |blocks|, cs)]])
  }

  /** `createCodebook`: the codebook entries `256 - cs .. 255` are blocks
      taken at evenly spaced positions of the blocks sorted by average. */
  method CreateCodebook(blocks: seq<Block>, cs: nat, order: seq<nat>) returns (codebook: seq<Block>)
    requires 0 < cs <= 256 && 0 < |blocks| && SortedOrder(blocks, order)
    ensures codebook == Codebook(blocks, order, cs)
  {
    var book := new Block[256](_ => ZeroBlock);
    var firstEntry := 256 - cs;
    ghost var cb := Codebook(blocks, order, cs);
    for i := firstEntry to 256
      invariant forall k :: 0 <= k < i ==> book[k] == cb[k]
      invariant forall k :: i <= k < 256 ==> book[k] == ZeroBlock
    {
      var entry := blocks[order[Pick(i - firstEntry, |blocks|, cs)]];
      assert entry == cb[i];
      book[i] := entry;
    }
    codebook := book[..];
  }

  /** Later codebook entries take later sorted positions, strictly later
      when there are at least `cs` blocks. */
  lemma PickMonotone(i: nat, j: nat, n: nat, cs: nat)
    requires i < j < cs && 0 < n
    ensures Pick(i, n, cs) <= Pick(j, n, cs)
    ensures cs <= n ==> Pick(i, n, cs) < Pick(j, n, cs)
  {
    var w := n / cs;
    MulMonotone(i, j, w);
    if cs <= n {
      assert w * cs == n - n % cs && n % cs < cs;
      assert w * cs > 0;
      MulMonotone(i + 1, j, w);
      assert (i + 1) * w == i * w + w;
    }
  }

  /** The selected entries are in non-decreasing key order, each is one of
      the blocks, and when there are at least `cs` blocks no block is taken
      twice. */
  lemma CodebookSorted(blocks: seq<Block>, order: seq<nat>, cs: nat, i: nat, j: nat)
    requires 0 < cs <= 256 && 0 < |blocks| && SortedOrder(blocks, order)
    requires 256 - cs <= i < j < 256
    ensures Key(Codebook(blocks, order, cs)[i]) <= Key(Codebook(blocks, order, cs)[j])
    ensures Codebook(blocks, order, cs)[i] in blocks
    ensures cs <= |blocks| ==> order[Pick(i - (256 - cs), |blocks|, cs)] != order[Pick(j - (256 - cs), |blocks|, cs)]
  {
    var n, first := |blocks|, 256 - cs;
    var p, q := Pick(i - first, n, cs), Pick(j - first, n, cs);
    PickMonotone(i - first, j - first, n, cs);
    CodebookEntry(blocks, order, cs, i);
    CodebookEntry(blocks, order, cs, j);
    SortedKeys(blocks, order, p, q);
    if cs <= n {
      PermutationDistinct(order, n, p, q);
    }
  }

  /** Entry `i` of the codebook, from slot `256 - cs` on, is a block. */
  lemma CodebookEntry(blocks: seq<Block>, order: seq<nat>, cs: nat, i: nat)
    requires 0 < cs <= 256 && 0 < |blocks| && IsPermutation(order, |blocks|) && 256 - cs <= i < 256
    ensures Codebook(blocks, order, cs)[i] == blocks[order[Pick(i - (256 - cs), |blocks|, cs)]]
    ensures Codebook(blocks, order, cs)[i] in blocks
  {
  }

  lemma SortedKeys(blocks: seq<Block>, order: seq<nat>, p: nat, q: nat)
    requires SortedOrder(blocks, order) && p <= q < |order|
    ensures Key(blocks[order[p]]) <= Key(blocks[order[q]])
  {
    if p < q {
      assert KeyAt(blocks, order, p) <= KeyAt(blocks, order, q);
    }
  }

  lemma PermutationDistinct(order: seq<nat>, n: nat, p: nat, q: nat)
    requires IsPermutation(order, n) && p < q < n
    ensures order[p] != order[q]
  {
  }

  // ---------------------------------------------------------------------------
  // findNearestBlock
  // ---------------------------------------------------------------------------

  /** `std::numeric_limits<float>::max()`. */
  const FltMax: real := 340282346638528859811704183484516925440.0

  /** The sum of the colour distances of two blocks, texel by texel. */
  function BlockDistance(distance: (Color, Color) -> real, p: Block, q: Block): real
  {
    PartialDistance(distance, Colors(p), Colors(q), 4)
  }

  /** The first `j` terms of `findNearestBlock`'s inner sum. */
  function PartialDistance(distance: (Color, Color) -> real, ps: seq<Color>, qs: seq<Color>, j: nat): real
    requires j <= |ps| && j <= |qs|
  {
    if j == 0 then 0.0 else PartialDistance(distance, ps, qs, j - 1) + distance(ps[j - 1], qs[j - 1])
  }

  /** Whether `i` is a candidate of `findNearestBlock`: `i` runs from
      `firstEntry` while `i < codebook.size()`, a comparison made unsigned,
      so a negative `firstEntry` gives no candidate. */
  predicate Candidate(first: int, i: int, n: nat)
  {
    0 <= first <= i < n
  }

  /** `idx` is what `findNearestBlock` returns: the first candidate of least
      distance below `FLT_MAX`, or 0 when there is none. */
  ghost predicate IsNearest(distance: (Color, Color) -> real, block: Block, codebook: seq<Block>, first: int, idx: nat)
  {
    if exists i :: Candidate(first, i, |codebook|) && BlockDistance(distance, block, codebook[i]) < FltMax then
      Candidate(first, idx, |codebook|) && BlockDistance(distance, block, codebook[idx]) < FltMax &&
      (forall i :: Candidate(first, i, |codebook|) ==>
         BlockDistance(distance, block, codebook[idx]) <= BlockDistance(distance, block, codebook[i])) &&
      (forall i :: Candidate(first, i, |codebook|) && i < idx ==>
         BlockDistance(distance, block, codebook[idx]) < BlockDistance(distance, block, codebook[i]))
    else idx == 0
  }

  /** The loop state of `findNearestBlock` after the candidates below `i`. */
  ghost predicate NearestSoFar(distance: (Color, Color) -> real, block: Block, codebook: seq<Block>, first: int, i: int,
                         idx: nat, best: real)
  {
    if exists k :: Candidate(first, k, |codebook|) && k < i && BlockDistance(distance, block, codebook[k]) < FltMax then
      Candidate(first, idx, |codebook|) && idx < i && best == BlockDistance(distance, block, codebook[idx]) &&
      best < FltMax &&
      (forall k :: Candidate(first, k, |codebook|) && k < i ==> best <= BlockDistance(distance, block, codebook[k])) &&
      (forall k :: Candidate(first, k, |codebook|) && k < idx ==> best < BlockDistance(distance, block, codebook[k]))
    else idx == 0 && best == FltMax
  }

  /** `findNearestBlock`, with `colorDistance` a parameter and real
      arithmetic in place of `float`. */
  method FindNearestBlock(distance: (Color, Color) -> real, block: Block, codebook: seq<Block>, codebookSize: int)
    returns (nearestIndex: nat)
    ensures IsNearest(distance, block, codebook, 256 - codebookSize, nearestIndex)
  {
    nearestIndex := 0;
    var nearestDistance := FltMax;
    var firstEntry := 256 - codebookSize;
    var i := firstEntry;
    while 0 <= i < |codebook|
      invariant i == firstEntry || (0 <= firstEntry < i <= |codebook|)
      invariant NearestSoFar(distance, block, codebook, firstEntry, i, nearestIndex, nearestDistance)
      decreases |codebook| - i
    {
      var d := 0.0;
      for j := 0 to 4
        invariant d == PartialDistance(distance, Colors(block), Colors(codebook[i]), j)
      {
        d := d + distance(Colors(block)[j], Colors(codebook[i])[j]);
      }
      NearestStep(distance, block, codebook, firstEntry, i, nearestIndex, nearestDistance);
      if d < nearestDistance {
        nearestDistance := d;
        nearestIndex := i;
      }
      i := i + 1;
    }
    NearestDone(distance, block, codebook, firstEntry, i, nearestIndex, nearestDistance);
  }

  /** One candidate of `findNearestBlock`: a strictly smaller distance
      replaces the best so far. */
  lemma NearestStep(distance: (Color, Color) -> real, block: Block, codebook: seq<Block>, first: int, i: int,
                    idx: nat, best: real)
    requires Candidate(first, i, |codebook|)
    requires NearestSoFar(distance, block, codebook, first, i, idx, best)
    ensures var d := BlockDistance(distance, block, codebook[i]);
      if d < best then NearestSoFar(distance, block, codebook, first, i + 1, i, d)
      else NearestSoFar(distance, block, codebook, first, i + 1, idx, best)
  {
    var d := BlockDistance(distance, block, codebook[i]);
    if exists k :: Candidate(first, k, |codebook|) && k < i && BlockDistance(distance, block, codebook[k]) < FltMax {
    } else {
      assert best == FltMax;
      if d < best {
        assert forall k :: Candidate(first, k, |codebook|) && k < i ==> FltMax <= BlockDistance(distance, block, codebook[k]);
      }
    }
  }

  /** After the last candidate the loop state is the specification. */
  lemma NearestDone(distance: (Color, Color) -> real, block: Block, codebook: seq<Block>, first: int, i: int,
                    idx: nat, best: real)
    requires !(0 <= i < |codebook|) && (i == first || (0 <= first < i <= |codebook|))
    requires NearestSoFar(distance, block, codebook, first, i, idx, best)
    ensures IsNearest(distance, block, codebook, first, idx)
  {
    if exists k :: Candidate(first, k, |codebook|) && BlockDistance(distance, block, codebook[k]) < FltMax {
      var k :| Candidate(first, k, |codebook|) && BlockDistance(distance, block, codebook[k]) < FltMax;
      assert k < i;
    }
  }

  /** `colorDistance` is a Euclidean distance of byte channels, between 0
      and `sqrt(4 * 255^2) = 510`. */
  ghost predicate DistanceBounded(distance: (Color, Color) -> real)
  {
    forall c1, c2 :: 0.0 <= distance(c1, c2) <= 510.0
  }

  /** With such a distance and at least one candidate, the index is a
      candidate: it lies in `[256 - codebookSize, codebook.size())`. */
  lemma NearestInRange(distance: (Color, Color) -> real, block: Block, codebook: seq<Block>, first: int, idx: nat)
    requires DistanceBounded(distance) && 0 <= first < |codebook|
    requires IsNearest(distance, block, codebook, first, idx)
    ensures first <= idx < |codebook|
  {
    var q := codebook[first];
    var ps, qs := Colors(block), Colors(q);
    assert PartialDistance(distance, ps, qs, 1) <= 510.0 by {
      assert distance(ps[0], qs[0]) <= 510.0;
    }
    assert PartialDistance(distance, ps, qs, 2) <= 1020.0 by {
      assert distance(ps[1], qs[1]) <= 510.0;
    }
    assert PartialDistance(distance, ps, qs, 3) <= 1530.0 by {
      assert distance(ps[2], qs[2]) <= 510.0;
    }
    assert BlockDistance(distance, block, q) <= 2040.0 by {
      assert distance(ps[3], qs[3]) <= 510.0;
    }
    assert Candidate(first, first, |codebook|);
  }

  /** The index `findNearestBlock` returns for a 256-entry codebook fits the
      `uint8_t` index table, so the conversion never truncates. */
  lemma NearestByte(distance: (Color, Color) -> real, block: Block, codebook: seq<Block>, first: int, idx: nat)
    requires |codebook| == 256 && IsNearest(distance, block, codebook, first, idx)
    ensures idx < 256
  {
  }

  // ---------------------------------------------------------------------------
  // compressToVQ: the output bytes
  // ---------------------------------------------------------------------------

  /** The two bytes `compressToVQ` pushes for one texel: the packed value's
      low byte, then its high byte. */
  function TexelBytes(f: Format, c: Color): seq<bv8>
  {
    [Lo(Pack(f, c)), Hi(Pack(f, c))]
  }

  /** The bytes of the first `j` texels of a block. */
  function PrefixBytes(f: Format, texels: seq<Color>, j: nat): (r: seq<bv8>)
    requires j <= |texels|
    ensures |r| == 2 * j
  {
    if j == 0 then [] else PrefixBytes(f, texels, j - 1) + TexelBytes(f, texels[j - 1])
  }

  /** The eight bytes of one codebook entry. */
  function EntryBytes(f: Format, e: Block): (r: seq<bv8>)
    ensures |r| == 8
  {
    PrefixBytes(f, Colors(e), 4)
  }

  /** The bytes of a run of codebook entries, entry after entry. */
  function CodebookBytes(f: Format, entries: seq<Block>): (r: seq<bv8>)
    ensures |r| == 8 * |entries|
  {
    if |entries| == 0 then [] else CodebookBytes(f, entries[..|entries| - 1]) + EntryBytes(f, entries[|entries| - 1])
  }

  /** Texel `k` of a prefix sits at bytes `2k` and `2k + 1`. */
  lemma {:induction false} PrefixBytesAt(f: Format, texels: seq<Color>, j: nat, k: nat)
    requires k < j <= |texels|
    ensures PrefixBytes(f, texels, j)[2 * k] == Lo(Pack(f, texels[k]))
    ensures PrefixBytes(f, texels, j)[2 * k + 1] == Hi(Pack(f, texels[k]))
  {
    if k < j - 1 {
      PrefixBytesAt(f, texels, j - 1, k);
    }
  }

  /** Decoding the 16-bit word of texel `k` of an entry gives what
      `unpack` gives for the colour: the codebook stores each texel so that
      it reads back. */
  lemma EntryTexel(f: Format, e: Block, k: nat)
    requires k < 4
    ensures Word(EntryBytes(f, e), k) == Pack(f, Colors(e)[k])
    ensures Unpack(f, Word(EntryBytes(f, e), k)) ==
      if f == RGB565 then Convert(f, Colors(e)[k]).(a := 0xFF) else Convert(f, Colors(e)[k])
  {
    PrefixBytesAt(f, Colors(e), 4, k);
    LoHi(Pack(f, Colors(e)[k]));
    UnpackPack(f, Colors(e)[k]);
  }

  /** Entry `j` of a run occupies bytes `8j .. 8j + 8`. */
  lemma {:induction false} CodebookBytesAt(f: Format, entries: seq<Block>, j: nat)
    requires j < |entries|
    ensures CodebookBytes(f, entries)[8 * j..8 * j + 8] == EntryBytes(f, entries[j])
  {
    var n := |entries| - 1;
    var init := entries[..n];
    assert CodebookBytes(f, entries) == CodebookBytes(f, init) + EntryBytes(f, entries[n]);
    if j < n {
      CodebookBytesAt(f, init, j);
      assert CodebookBytes(f, entries)[8 * j..8 * j + 8] == CodebookBytes(f, init)[8 * j..8 * j + 8];
    }
  }

  /** `compressToVQ`: the codebook entries `256 - codebookSize .. 255`, each
      as four packed texels of two bytes, low byte first, then one index
      byte per block in twiddled block order.  Each index is the entry
      `findNearestBlock` chooses; with a bounded distance it always lies in
      the emitted range.  `order` is the outcome of `createCodebook`'s
      `std::sort` and `distance` is `colorDistance`. */
  method CompressToVQ(f: Format, image: seq<Color>, width: nat, height: nat, cs: nat, ghost a: nat, ghost b: nat,
                      order: seq<nat>, distance: (Color, Color) -> real)
    returns (output: seq<bv8>)
    requires 0 < a && 0 < b && width == Pow2(a) && height == Pow2(b) && width * height <= |image|
    requires 0 < cs <= 256
    requires SortedOrder(Blocks(f, image, width, height, a, b), order)
    ensures 0 < |Blocks(f, image, width, height, a, b)|
    ensures |output| == 8 * cs + width * height / 4
    ensures var entries := Codebook(Blocks(f, image, width, height, a, b), order, cs)[256 - cs..];
      forall j :: 0 <= j < cs ==> output[8 * j..8 * j + 8] == EntryBytes(f, entries[j])
    ensures var blocks, table := Blocks(f, image, width, height, a, b), output[8 * cs..];
      |table| == |blocks| &&
      forall k :: 0 <= k < |table| ==> IsNearest(distance, blocks[k], Codebook(blocks, order, cs), 256 - cs, table[k] as nat)
    ensures DistanceBounded(distance) ==> forall k :: 8 * cs <= k < |output| ==> 256 - cs <= output[k] as nat
  {
    Quarter(a, b);
    var blocks := ExtractBlocks(f, image, width, height, a, b);
    var codebook := CreateCodebook(blocks, cs, order);
    var indexTable := IndexTable(distance, blocks, codebook, cs);
    var entryBytes := EmitCodebook(f, codebook, cs);
    output := entryBytes + indexTable;
    ghost var entries := codebook[256 - cs..];
    forall j | 0 <= j < cs
      ensures output[8 * j..8 * j + 8] == EntryBytes(f, entries[j])
    {
      CodebookBytesAt(f, entries, j);
      assert output[8 * j..8 * j + 8] == entryBytes[8 * j..8 * j + 8];
    }
    assert output[8 * cs..] == indexTable;
    IndexRange(distance, blocks, codebook, cs, output, indexTable);
  }

  /** The index table of `compressToVQ`: for each block, the codebook entry
      `findNearestBlock` chooses, as a byte. */
  method IndexTable(distance: (Color, Color) -> real, blocks: seq<Block>, codebook: seq<Block>, cs: nat)
    returns (table: seq<bv8>)
    requires |codebook| == 256
    ensures |table| == |blocks|
    ensures forall k :: 0 <= k < |table| ==> IsNearest(distance, blocks[k], codebook, 256 - cs, table[k] as nat)
  {
    var indexTable := new bv8[|blocks|](_ => 0);
    for i := 0 to |blocks|
      invariant AllNearest(distance, blocks, codebook, 256 - cs, indexTable[..], i)
    {
      var nearest := NearestEntry(distance, blocks[i], codebook, cs);
      ghost var t := indexTable[..];
      indexTable[i] := nearest;
      assert indexTable[..] == t[i := nearest];
      AllNearestStep(distance, blocks, codebook, 256 - cs, t, i, nearest);
    }
    table := indexTable[..];
  }

  /** `findNearestBlock`'s result for one block, stored as an index byte. */
  method NearestEntry(distance: (Color, Color) -> real, block: Block, codebook: seq<Block>, cs: nat)
    returns (idx: bv8)
    requires |codebook| == 256
    ensures IsNearest(distance, block, codebook, 256 - cs, idx as nat)
  {
    var nearest := FindNearestBlock(distance, block, codebook, cs);
    NearestByte(distance, block, codebook, 256 - cs, nearest);
    ByteRoundTrip(nearest);
    idx := nearest as bv8;
  }

  /** Entries `0 .. n - 1` of `t` are the nearest codebook indices of the
      corresponding blocks. */
  ghost predicate AllNearest(distance: (Color, Color) -> real, blocks: seq<Block>, codebook: seq<Block>, first: int,
                             t: seq<bv8>, n: nat)
  {
    n <= |t| == |blocks| && forall k :: 0 <= k < n ==> IsNearest(distance, blocks[k], codebook, first, t[k] as nat)
  }

  lemma AllNearestStep(distance: (Color, Color) -> real, blocks: seq<Block>, codebook: seq<Block>, first: int,
                       t: seq<bv8>, n: nat, idx: bv8)
    requires AllNearest(distance, blocks, codebook, first, t, n) && n < |t|
    requires IsNearest(distance, blocks[n], codebook, first, idx as nat)
    ensures AllNearest(distance, blocks, codebook, first, t[n := idx], n + 1)
  {
    var t' := t[n := idx];
    forall k | 0 <= k < n + 1
      ensures IsNearest(distance, blocks[k], codebook, first, t'[k] as nat)
    {
      if k < n {
        assert t'[k] == t[k];
      }
    }
  }

  lemma ByteRoundTrip(x: nat)
    requires x < 256
    ensures (x as bv8) as nat == x
  {
    ByteMod(x);
  }

  lemma ByteMod(x: nat)
    requires x < 256
    ensures x % 256 == x
  {
  }

  /** The codebook part of `compressToVQ`'s output: entries
      `256 - cs .. 255`, texel by texel. */
  method EmitCodebook(f: Format, codebook: seq<Block>, cs: nat) returns (output: seq<bv8>)
    requires |codebook| == 256 && 0 < cs <= 256
    ensures output == CodebookBytes(f, codebook[256 - cs..])
  {
    var firstEntry := 256 - cs;
    output := [];
    for i := firstEntry to 256
      invariant output == CodebookBytes(f, codebook[firstEntry..i])
    {
      output := EmitEntry(f, codebook[i], output);
      assert codebook[firstEntry..i + 1][..i - firstEntry] == codebook[firstEntry..i];
    }
    assert codebook[firstEntry..256] == codebook[firstEntry..];
  }

  /** The inner loop of the codebook output: the four texels of one entry,
      each as its two bytes, appended to `output0`. */
  method EmitEntry(f: Format, entry: Block, output0: seq<bv8>) returns (output: seq<bv8>)
    ensures output == output0 + EntryBytes(f, entry)
  {
    var texels := Colors(entry);
    output := output0;
    for j := 0 to 4
      invariant output == output0 + PrefixBytes(f, texels, j)
    {
      var packed := Pack(f, texels[j]);
      output := output + [Lo(packed), Hi(packed)];
    }
  }

  /** The index bytes after the codebook: with a bounded distance each
      names an emitted entry. */
  lemma IndexRange(distance: (Color, Color) -> real, blocks: seq<Block>, codebook: seq<Block>, cs: nat,
                   output: seq<bv8>, table: seq<bv8>)
    requires |codebook| == 256 && 0 < cs <= 256 && 8 * cs <= |output| && output[8 * cs..] == table
    requires |table| == |blocks|
    requires forall k :: 0 <= k < |table| ==> IsNearest(distance, blocks[k], codebook, 256 - cs, table[k] as nat)
    ensures DistanceBounded(distance) ==> forall k :: 8 * cs <= k < |output| ==> 256 - cs <= output[k] as nat
  {
    if DistanceBounded(distance) {
      forall k | 8 * cs <= k < |output|
        ensures 256 - cs <= output[k] as nat
      {
        assert output[k] == table[k - 8 * cs];
        NearestInRange(distance, blocks[k - 8 * cs], codebook, 256 - cs, table[k - 8 * cs] as nat);
      }
    }
  }
}
