/** The integer pixel helpers of the reference renderer
    (vendor/emu/refsw/refsw_tile.cpp): texture-coordinate clamping and
    flipping, the 8-bit-to-256 scale, the colour combiner and the blend
    coefficients. */
module RefswPixel {

  type u8 = x: nat | x < 256

  /** `union Color`: the four channels in `bgra` order (blue, green, red,
      alpha). */
  type Color = c: seq<u8> | |c| == 4 witness [0, 0, 0, 0]

  const Blue: nat := 0
  const Alpha: nat := 3

  // ---------------------------------------------------------------------
  // ClampFlip

  ghost predicate IsPow2(n: nat)
    decreases n
  {
    n == 1 || (n > 1 && n % 2 == 0 && IsPow2(n / 2))
  }

  /** `ClampFlip<pp_Clamp, pp_Flip>(coord, size)`. Texture sizes are
      powers of two, so masking with `size - 1` (or `2 * size - 1`) keeps
      the two's complement residue, which is Euclidean `%`; and
      `coord ^= size * 2 - 1` on a residue with the `size` bit set is
      `2 * size - 1 - coord`. */
  function ClampFlip(clamp: bool, flip: bool, coord: int, size: nat): (r: int)
    requires !clamp ==> IsPow2(size)
    ensures clamp && size > 0 ==> 0 <= r < size
    ensures !clamp ==> 0 <= r < size
  {
    if clamp then
      (if coord < 0 then 0 else if coord >= size then size - 1 else coord)
    else if flip then
      var m := coord % (size * 2);
      if m >= size then size * 2 - 1 - m else m
    else
      coord % size
  }

  /** Every mode leaves a coordinate inside the texture unchanged. */
  lemma ClampFlipInside(clamp: bool, flip: bool, coord: int, size: nat)
    requires !clamp ==> IsPow2(size)
    requires 0 <= coord < size
    ensures ClampFlip(clamp, flip, coord, size) == coord
  {
    if !clamp {
      DivModUnique(coord, size, 0, coord);
      DivModUnique(coord, size * 2, 0, coord);
    }
  }

  /** Clamping saturates: below the texture it gives the first texel, past
      it the last. */
  lemma ClampEdges(coord: int, size: nat)
    requires size > 0
    ensures coord < 0 ==> ClampFlip(true, false, coord, size) == 0
    ensures coord >= size ==> ClampFlip(true, false, coord, size) == size - 1
  {
  }

  /** Wrapping repeats the texture every `size` texels. */
  lemma WrapPeriodic(coord: int, size: nat)
    requires IsPow2(size)
    ensures ClampFlip(false, false, coord + size, size) == ClampFlip(false, false, coord, size)
  {
    assert (coord + size) % size == coord % size by {
      ModPeriod(coord, size);
    }
  }

  /** Flipping mirrors the texture at its edges: texel `-1 - c` reads the
      same texel as `c`, and the pattern repeats every `2 * size`. */
  lemma FlipMirror(coord: int, size: nat)
    requires IsPow2(size)
    ensures ClampFlip(false, true, -1 - coord, size) == ClampFlip(false, true, coord, size)
    ensures ClampFlip(false, true, coord + 2 * size, size) == ClampFlip(false, true, coord, size)
  {
    var n := size * 2;
    assert coord + 2 * size == coord + n;
    ModPeriod(coord, n);
    ModNegate(coord, n);
  }

  // ---------------------------------------------------------------------
  // to_u8_256

  /** `to_u8_256`: an 8-bit weight stretched to 0..256. */
  function ToU8_256(v: u8): (r: nat)
    ensures r == v || r == v + 1
    ensures r <= 256
  {
    v + v / 128
  }

  /** The ends map to 0 and 256 and the stretch keeps the order strictly. */
  lemma ToU8_256Ends(v: u8, w: u8)
    ensures ToU8_256(0) == 0 && ToU8_256(255) == 256
    ensures ToU8_256(v) == 0 <==> v == 0
    ensures ToU8_256(v) == 256 <==> v == 255
    ensures v < w ==> ToU8_256(v) < ToU8_256(w)
  {
  }

  /** A weight and its complement `255 - v` stretch to weights summing to
      256. */
  lemma ToU8_256Complement(v: u8)
    ensures ToU8_256(v) + ToU8_256(255 - v) == 256
  {
  }

  // ---------------------------------------------------------------------
  // ColorCombiner

  /** `x * w / 256` for a channel and a stretched weight, which stays a
      channel. */
  function Scale(x: u8, w: nat): (r: u8)
    requires w <= 256
    ensures r <= x && (w == 256 ==> r == x)
  {
    MulBounded(x, w, 256);
    x * w / 256
  }

  /** `(t * tb + b * (256 - tb)) / 256`: a mix of two channels. */
  function Mix(t: u8, b: u8, tb: nat): (r: u8)
    requires tb <= 256
    ensures (if t <= b then t <= r <= b else b <= r <= t)
    ensures tb == 256 ==> r == t
    ensures tb == 0 ==> r == b
  {
    MixBetween(t, b, tb);
    (t * tb + b * (256 - tb)) / 256
  }

  /** `std::min(x + y, 255)`: never below either operand nor above their
      sum, exact when the sum fits a byte, and pinned at 255 exactly when
      the sum reaches it. */
  function AddSat(x: u8, y: u8): (r: u8)
    ensures x <= r && y <= r && r <= x + y
    ensures r == x + y <==> x + y <= 255
    ensures r == 255 <==> x + y >= 255
  {
    if x + y < 255 then x + y else 255
  }

  /** The shading instruction applied to the texel and the base colour,
      before the offset colour. */
  function Shade(shadInstr: nat, base: Color, textel: Color): Color
    requires shadInstr < 4
  {
    if shadInstr == 0 then textel
    else if shadInstr == 1 then
      seq(4, i requires 0 <= i < 4 => if i < 3 then Scale(textel[i], ToU8_256(base[i])) else textel[Alpha])
    else if shadInstr == 2 then
      var tb := ToU8_256(textel[Alpha]);
      seq(4, i requires 0 <= i < 4 => if i < 3 then Mix(textel[i], base[i], tb) else base[Alpha])
    else
      seq(4, i requires 0 <= i < 4 => Scale(textel[i], ToU8_256(base[i])))
  }

  /** `ColorCombiner<pp_Texture, pp_Offset, pp_ShadInstr>`. */
  function ColorCombiner(texture: bool, offset: bool, shadInstr: nat, base: Color, textel: Color, offs: Color): (rv: Color)
    requires shadInstr < 4
    ensures !texture ==> rv == base
    ensures texture && offset ==>
      (rv[Alpha] == Shade(shadInstr, base, textel)[Alpha]
       && forall i :: 0 <= i < 3 ==> Shade(shadInstr, base, textel)[i] <= rv[i])
  {
    if !texture then base
    else
      var rv := Shade(shadInstr, base, textel);
      if offset then seq(4, i requires 0 <= i < 4 => if i < 3 then AddSat(rv[i], offs[i]) else rv[i]) else rv
  }

  const White: Color := [255, 255, 255, 255]
  const Black: Color := [0, 0, 0, 0]

  /** Decal copies the texel; modulating by a white base copies it too;
      a black offset changes nothing. */
  lemma CombinerIdentities(base: Color, textel: Color, shadInstr: nat)
    requires shadInstr < 4
    ensures ColorCombiner(true, false, 0, base, textel, Black) == textel
    ensures ColorCombiner(true, false, 3, White, textel, Black) == textel
    ensures base[0] == base[1] == base[2] == 255 ==> ColorCombiner(true, false, 1, base, textel, Black) == textel
    ensures ColorCombiner(true, true, shadInstr, base, textel, Black) == ColorCombiner(true, false, shadInstr, base, textel, Black)
  {
    var s1 := ColorCombiner(true, false, 1, base, textel, Black);
    if base[0] == base[1] == base[2] == 255 {
      assert s1 == textel by {
        assert s1[0] == textel[0] && s1[1] == textel[1] && s1[2] == textel[2] && s1[3] == textel[3];
      }
    }
    var w := ColorCombiner(true, false, 3, White, textel, Black);
    assert w[0] == textel[0] && w[1] == textel[1] && w[2] == textel[2] && w[3] == textel[3];
    var on := ColorCombiner(true, true, shadInstr, base, textel, Black);
    var off := ColorCombiner(true, false, shadInstr, base, textel, Black);
    assert on[0] == off[0] && on[1] == off[1] && on[2] == off[2] && on[3] == off[3];
  }

  /** Decal with alpha: an opaque texel replaces the colour and a fully
      transparent one leaves the base; the alpha is the base's. */
  lemma DecalAlpha(base: Color, textel: Color)
    ensures var c := ColorCombiner(true, false, 2, base, textel, Black);
      c[Alpha] == base[Alpha]
      && (textel[Alpha] == 255 ==> c[..3] == textel[..3])
      && (textel[Alpha] == 0 ==> c == base)
  {
    var c := ColorCombiner(true, false, 2, base, textel, Black);
    ToU8_256Ends(textel[Alpha], 0);
    if textel[Alpha] == 0 {
      assert c[0] == base[0] && c[1] == base[1] && c[2] == base[2] && c[3] == base[3];
    }
  }

  // ---------------------------------------------------------------------
  // BlendCoefs and the blending channel

  /** `BlendCoefs<pp_AlphaInst, srcOther>`: `inst >> 1` picks zero, the
      other colour, the source alpha or the destination alpha; an odd
      `inst` takes the complement `255 - x` of every channel. */
  function BlendCoefs(inst: nat, srcOther: bool, src: Color, dst: Color): (rv: Color)
    requires inst < 8
  {
    var pick: Color :=
      if inst / 2 == 0 then Black
      else if inst / 2 == 1 then (if srcOther then src else dst)
      else if inst / 2 == 2 then [src[Alpha], src[Alpha], src[Alpha], src[Alpha]]
      else [dst[Alpha], dst[Alpha], dst[Alpha], dst[Alpha]];
    if inst % 2 == 1 then seq(4, i requires 0 <= i < 4 => 255 - pick[i]) else pick
  }

  /** An odd instruction is the complement of the even one below it. */
  lemma BlendCoefsComplement(inst: nat, srcOther: bool, src: Color, dst: Color)
    requires inst < 8 && inst % 2 == 0
    ensures forall i :: 0 <= i < 4 ==>
      BlendCoefs(inst + 1, srcOther, src, dst)[i] == 255 - BlendCoefs(inst, srcOther, src, dst)[i]
  {
  }

  /** One channel of `BlendingUnit`: `min((src * s + dst * d) >> 8, 255)`
      with the stretched coefficients. */
  function BlendChannel(s: u8, sc: u8, d: u8, dc: u8): (r: u8)
  {
    var sum: nat := (Product(s, ToU8_256(sc)) + Product(d, ToU8_256(dc))) / 256;
    if sum < 255 then sum else 255
  }

  /** A weight of 255 passes a channel through unchanged and a weight of
      0 drops it. */
  lemma BlendChannelUnit(x: u8, y: u8)
    ensures BlendChannel(x, 255, y, 0) == x
    ensures BlendChannel(y, 0, x, 255) == x
  {
    DivModUnique(x * 256, 256, x, 0);
  }

  /** The blended colour of a source and a destination. */
  function Blend(srcInst: nat, dstInst: nat, src: Color, dst: Color): (rv: Color)
    requires srcInst < 8 && dstInst < 8
  {
    var sb := BlendCoefs(srcInst, false, src, dst);
    var db := BlendCoefs(dstInst, true, src, dst);
    seq(4, j requires 0 <= j < 4 => BlendChannel(src[j], sb[j], dst[j], db[j]))
  }

  /** One-zero blending copies the source; zero-one keeps the
      destination. */
  lemma BlendCopies(src: Color, dst: Color)
    ensures Blend(1, 0, src, dst) == src
    ensures Blend(0, 1, src, dst) == dst
  {
    forall j | 0 <= j < 4
      ensures Blend(1, 0, src, dst)[j] == src[j] && Blend(0, 1, src, dst)[j] == dst[j]
    {
      BlendChannelUnit(src[j], dst[j]);
      BlendChannelUnit(dst[j], src[j]);
    }
  }

  /** A channel blended with weight `a` against its complement is the
      mix of the two channels. */
  lemma BlendChannelMix(s: u8, d: u8, a: u8)
    ensures BlendChannel(s, a, d, 255 - a) == Mix(s, d, ToU8_256(a))
  {
    ToU8_256Complement(a);
    var w := ToU8_256(a);
    assert Product(s, w) + Product(d, ToU8_256(255 - a)) == s * w + d * (256 - w);
  }

  /** Source-alpha over inverse-source-alpha blending lands every channel
      between the source and the destination channel; an opaque source
      replaces the destination and a transparent one keeps it. */
  lemma AlphaBlend(src: Color, dst: Color)
    ensures var c := Blend(4, 5, src, dst);
      (forall j :: 0 <= j < 4 ==> (if src[j] <= dst[j] then src[j] <= c[j] <= dst[j] else dst[j] <= c[j] <= src[j]))
      && (src[Alpha] == 255 ==> c == src)
      && (src[Alpha] == 0 ==> c == dst)
  {
    var a := src[Alpha];
    ToU8_256Ends(a, 0);
    var c := Blend(4, 5, src, dst);
    forall j | 0 <= j < 4
      ensures c[j] == Mix(src[j], dst[j], ToU8_256(a))
    {
      BlendChannelMix(src[j], dst[j], a);
    }
    if a == 255 {
      assert c[0] == src[0] && c[1] == src[1] && c[2] == src[2] && c[3] == src[3];
    }
    if a == 0 {
      assert c[0] == dst[0] && c[1] == dst[1] && c[2] == dst[2] && c[3] == dst[3];
    }
  }

  // ---------------------------------------------------------------------
  // The stencil bits of the modifier-volume passes.

  /** A modifier face that passes the depth test: flip bit 1, mark bit 2. */
  function ModifierHit(s: bv8): (r: bv8)
    ensures r & 4 == 4 && r & 2 == (s & 2) ^ 2 && r & 0xF9 == s & 0xF9
  {
    (s ^ 2) | 4
  }

  /** `SummarizeStencilOr` on one pixel: a marked pixel keeps only
      bit0 OR bit1. */
  function SummaryOr(s: bv8): (r: bv8)
    ensures s & 4 != 0 ==> r == (if s & 3 != 0 then 1 else 0)
    ensures s & 4 == 0 ==> r == s
  {
    if s & 4 != 0 then (s | (s >> 1)) & 1 else s
  }

  /** `SummarizeStencilAnd` on one pixel: a marked pixel keeps only
      bit0 AND bit1. */
  function SummaryAnd(s: bv8): (r: bv8)
    ensures s & 4 != 0 ==> r == (if s & 3 == 3 then 1 else 0)
    ensures s & 4 == 0 ==> r == s
  {
    if s & 4 != 0 then (s & (s >> 1)) & 1 else s
  }

  /** The stencil after `k` modifier faces pass at one pixel. */
  function Hits(s: bv8, k: nat): bv8
  {
    if k == 0 then s else ModifierHit(Hits(s, k - 1))
  }

  lemma {:induction false} HitsParity(s: bv8, k: nat)
    ensures Hits(s, k) & 2 == (if k % 2 == 0 then s & 2 else (s & 2) ^ 2)
    ensures Hits(s, k) & 1 == s & 1
    ensures k > 0 ==> Hits(s, k) & 4 == 4
  {
    if k > 0 {
      HitsParity(s, k - 1);
    }
  }

  /** From a cleared stencil, a pixel ends inside the volume exactly when
      an odd number of its faces passed: the OR summary of `k` hits is
      `k mod 2`. */
  lemma InsideByParity(k: nat)
    requires k > 0
    ensures SummaryOr(Hits(0, k)) == (if k % 2 == 1 then 1 else 0)
    ensures SummaryAnd(Hits(0, k)) == 0
  {
    HitsParity(0, k);
  }

  // ---------------------------------------------------------------------
  // Arithmetic facts the helpers need.

  lemma {:induction false} AtLeastOnce(k: nat, d: nat)
    requires k >= 1
    ensures k * d >= d
  {
    if k > 1 {
      AtLeastOnce(k - 1, d);
      assert k * d == (k - 1) * d + d;
    }
  }

  /** Euclidean division is unique: any quotient with a remainder in
      `0 .. n - 1` is the one `/` and `%` give. */
  lemma DivModUnique(x: int, n: nat, q: int, r: int)
    requires 0 <= r < n && x == q * n + r
    ensures x / n == q && x % n == r
  {
    var q0, r0 := x / n, x % n;
    assert x == q0 * n + r0;
    if q > q0 {
      assert (q - q0) * n == r0 - r;
      AtLeastOnce(q - q0, n);
    } else if q < q0 {
      assert (q0 - q) * n == r - r0;
      AtLeastOnce(q0 - q, n);
    }
  }

  /** `a * b`, a natural. */
  function Product(a: nat, b: nat): (r: nat)
  {
    a * b
  }

  lemma MulLe(a: nat, b: nat, c: nat)
    requires a <= b
    ensures a * c <= b * c
  {
    assert b * c - a * c == (b - a) * c;
  }

  lemma MulBounded(x: nat, w: nat, d: nat)
    requires w <= d && d > 0
    ensures x * w / d <= x
    ensures w == d ==> x * w / d == x
  {
    MulLe(w, d, x);
    assert w * x == x * w && d * x == x * d;
    DivLe(x * w, x * d, d);
    DivModUnique(x * d, d, x, 0);
  }

  lemma DivLe(a: nat, b: nat, d: nat)
    requires a <= b && d > 0
    ensures a / d <= b / d
  {
    var qa, qb := a / d, b / d;
    assert a == qa * d + a % d && b == qb * d + b % d;
    if qa > qb {
      assert (qa - qb) * d == qa * d - qb * d;
      AtLeastOnce(qa - qb, d);
    }
  }

  /** A weighted mix of two values lies between them. */
  lemma MixBetween(t: nat, b: nat, w: nat)
    requires w <= 256
    ensures var r := (t * w + b * (256 - w)) / 256;
      (if t <= b then t <= r <= b else b <= r <= t)
      && (w == 256 ==> r == t) && (w == 0 ==> r == b)
  {
    var lo, hi := if t <= b then t else b, if t <= b then b else t;
    var sum := t * w + b * (256 - w);
    MulLe(lo, t, w);
    MulLe(t, hi, w);
    MulLe(lo, b, 256 - w);
    MulLe(b, hi, 256 - w);
    assert lo * w + lo * (256 - w) == lo * 256;
    assert hi * w + hi * (256 - w) == hi * 256;
    DivLe(lo * 256, sum, 256);
    DivLe(sum, hi * 256, 256);
    DivModUnique(lo * 256, 256, lo, 0);
    DivModUnique(hi * 256, 256, hi, 0);
  }

  /** Adding the modulus keeps the residue. */
  lemma ModPeriod(x: int, n: nat)
    requires n > 0
    ensures (x + n) % n == x % n
  {
    assert (x / n + 1) * n == x / n * n + n;
    DivModUnique(x + n, n, x / n + 1, x % n);
  }

  /** `-1 - x` has the mirrored residue `n - 1 - x mod n`. */
  lemma ModNegate(x: int, n: nat)
    requires n > 0
    ensures (-1 - x) % n == n - 1 - x % n
  {
    assert (-(x / n) - 1) * n == -(x / n * n) - n;
    DivModUnique(-1 - x, n, -(x / n) - 1, n - 1 - x % n);
  }
}
