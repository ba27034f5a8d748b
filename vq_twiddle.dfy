/** The PowerVR twiddled texel order of the texture converter
    (`twiddle_slow`): the bits of `y` and `x` interleaved, lowest first, a
    `y` bit before an `x` bit while both dimensions still have bits left. */
module Twiddle {

  function Pow2(n: nat): (p: nat)
    ensures p >= 1
  {
    if n == 0 then 1 else 2 * Pow2(n - 1)
  }

  lemma Pow2Add(a: nat, b: nat)
    ensures Pow2(a + b) == Pow2(a) * Pow2(b)
  {
    if a > 0 {
      Pow2Add(a - 1, b);
    }
  }

  /** The index `twiddle_slow(x, y, _, _)` builds once the sizes have been
      halved to `xs` and `ys`: bit 0 of `y` while `ys` is nonzero, then bit 0
      of `x` while `xs` is nonzero, then the same for the halved values. */
  function Interleave(x: nat, y: nat, xs: nat, ys: nat): nat
    decreases xs + ys, 0
  {
    if xs == 0 && ys == 0 then 0
    else if ys > 0 then y % 2 + 2 * XThen(x, y / 2, xs, ys / 2)
    else x % 2 + 2 * Interleave(x / 2, y, xs / 2, ys)
  }

  /** The rest of the index after a `y` bit: the `x` bit if `xs` is still
      nonzero, then the next round. */
  function XThen(x: nat, y: nat, xs: nat, ys: nat): nat
    decreases xs + ys, 1
  {
    if xs > 0 then x % 2 + 2 * Interleave(x / 2, y, xs / 2, ys) else Interleave(x, y, xs, ys)
  }

  /** `twiddle_slow(x, y, x_sz, y_sz)`.  `rv |= temp << sh` sets bit `sh`,
      which is still clear, so it adds `temp * 2^sh`. */
  method TwiddleSlow(x: nat, y: nat, xSize: nat, ySize: nat) returns (rv: nat)
    ensures rv == Interleave(x, y, xSize / 2, ySize / 2)
  {
    rv := 0;
    var sh: nat := 0;
    var xs: nat, ys: nat, x': nat, y': nat := xSize / 2, ySize / 2, x, y;
    while xs != 0 || ys != 0
      invariant rv < Pow2(sh)
      invariant rv + Pow2(sh) * Interleave(x', y', xs, ys) == Interleave(x, y, xSize / 2, ySize / 2)
      decreases xs + ys
    {
      ghost var rest := XThen(x', y', xs, ys);
      if ys != 0 {
        var temp: nat := y' % 2;
        Shift(rv, sh, temp, XThen(x', y' / 2, xs, ys / 2));
        rv := rv + temp * Pow2(sh);
        ys := ys / 2;
        y' := y' / 2;
        sh := sh + 1;
        rest := XThen(x', y', xs, ys);
      }
      assert rv + Pow2(sh) * rest == Interleave(x, y, xSize / 2, ySize / 2);
      if xs != 0 {
        var temp: nat := x' % 2;
        Shift(rv, sh, temp, Interleave(x' / 2, y', xs / 2, ys));
        rv := rv + temp * Pow2(sh);
        xs := xs / 2;
        x' := x' / 2;
        sh := sh + 1;
      }
    }
  }

  /** Setting bit `sh` of a value below `2^sh`. */
  lemma Shift(rv: nat, sh: nat, bit: nat, rest: nat)
    requires rv < Pow2(sh) && bit < 2
    ensures 0 <= bit * Pow2(sh) && rv + bit * Pow2(sh) < Pow2(sh + 1)
    ensures rv + Pow2(sh) * (bit + 2 * rest) == rv + bit * Pow2(sh) + Pow2(sh + 1) * rest
  {
  }

  // ---------------------------------------------------------------------------
  // Power-of-two sizes
  // ---------------------------------------------------------------------------

  /** The twiddled index of `(x, y)` in a `2^a` by `2^b` texture. */
  function Twiddled(x: nat, y: nat, a: nat, b: nat): nat
    decreases a + b
  {
    if a == 0 && b == 0 then 0
    else if a > 0 && b > 0 then y % 2 + 2 * (x % 2 + 2 * Twiddled(x / 2, y / 2, a - 1, b - 1))
    else if b > 0 then y % 2 + 2 * Twiddled(x, y / 2, a, b - 1)
    else x % 2 + 2 * Twiddled(x / 2, y, a - 1, b)
  }

  /** For power-of-two sizes `twiddle_slow` computes `Twiddled`. */
  lemma {:induction false} InterleavePow2(x: nat, y: nat, a: nat, b: nat)
    ensures Interleave(x, y, Pow2(a) / 2, Pow2(b) / 2) == Twiddled(x, y, a, b)
    decreases a + b
  {
    if a > 0 {
      assert Pow2(a) / 2 == Pow2(a - 1) && Pow2(a) / 2 / 2 == Pow2(a - 1) / 2;
    }
    if b > 0 {
      assert Pow2(b) / 2 == Pow2(b - 1) && Pow2(b) / 2 / 2 == Pow2(b - 1) / 2;
    }
    if a > 0 && b > 0 {
      InterleavePow2(x / 2, y / 2, a - 1, b - 1);
    } else if b > 0 {
      InterleavePow2(x, y / 2, a, b - 1);
    } else if a > 0 {
      InterleavePow2(x / 2, y, a - 1, b);
    }
  }

  /** A twiddled index lies inside the texture. */
  lemma {:induction false} TwiddledBound(x: nat, y: nat, a: nat, b: nat)
    ensures Twiddled(x, y, a, b) < Pow2(a + b)
    decreases a + b
  {
    if a > 0 && b > 0 {
      TwiddledBound(x / 2, y / 2, a - 1, b - 1);
      assert Pow2(a + b) == 2 * (2 * Pow2(a - 1 + (b - 1)));
    } else if b > 0 {
      TwiddledBound(x, y / 2, a, b - 1);
    } else if a > 0 {
      TwiddledBound(x / 2, y, a - 1, b);
    }
  }

  /** A texel position. */
  datatype Texel = Texel(x: nat, y: nat)

  /** The texel a twiddled index stands for: the inverse of `Twiddled`. */
  function Untwiddled(t: nat, a: nat, b: nat): (p: Texel)
    ensures p.x < Pow2(a) && p.y < Pow2(b)
    decreases a + b
  {
    if a == 0 && b == 0 then Texel(0, 0)
    else if a > 0 && b > 0 then
      var r := Untwiddled(t / 2 / 2, a - 1, b - 1);
      Texel(2 * r.x + t / 2 % 2, 2 * r.y + t % 2)
    else if b > 0 then
      var r := Untwiddled(t / 2, a, b - 1);
      Texel(r.x, 2 * r.y + t % 2)
    else
      var r := Untwiddled(t / 2, a - 1, b);
      Texel(2 * r.x + t % 2, r.y)
  }

  /** Untwiddling a twiddled texel gives it back, so `twiddle_slow` is
      injective on the texture ... */
  lemma {:induction false} UntwiddleTwiddle(x: nat, y: nat, a: nat, b: nat)
    requires x < Pow2(a) && y < Pow2(b)
    ensures Untwiddled(Twiddled(x, y, a, b), a, b) == Texel(x, y)
    decreases a + b
  {
    var t := Twiddled(x, y, a, b);
    if a > 0 && b > 0 {
      var q := Twiddled(x / 2, y / 2, a - 1, b - 1);
      assert t == y % 2 + 2 * (x % 2 + 2 * q);
      UntwiddleTwiddle(x / 2, y / 2, a - 1, b - 1);
      Bit(t, y % 2, x % 2 + 2 * q);
      Bit(t / 2, x % 2, q);
      var r := Untwiddled(q, a - 1, b - 1);
      assert Untwiddled(t, a, b) == Texel(2 * r.x + x % 2, 2 * r.y + y % 2);
    } else if b > 0 {
      var q := Twiddled(x, y / 2, a, b - 1);
      assert t == y % 2 + 2 * q;
      UntwiddleTwiddle(x, y / 2, a, b - 1);
      Bit(t, y % 2, q);
      var r := Untwiddled(q, a, b - 1);
      assert Untwiddled(t, a, b) == Texel(r.x, 2 * r.y + y % 2);
    } else if a > 0 {
      var q := Twiddled(x / 2, y, a - 1, b);
      assert t == x % 2 + 2 * q;
      UntwiddleTwiddle(x / 2, y, a - 1, b);
      Bit(t, x % 2, q);
      var r := Untwiddled(q, a - 1, b);
      assert Untwiddled(t, a, b) == Texel(2 * r.x + x % 2, r.y);
    }
  }

  /** `v` is `bit` followed by the bits of `rest`. */
  lemma Bit(v: nat, bit: nat, rest: nat)
    requires bit < 2 && v == bit + 2 * rest
    ensures v % 2 == bit && v / 2 == rest
  {
  }

  /** ... and twiddling an untwiddled index gives it back, so every index
      of the texture is the twiddle of exactly one texel. */
  lemma {:induction false} TwiddleUntwiddle(t: nat, a: nat, b: nat)
    requires t < Pow2(a + b)
    ensures Twiddled(Untwiddled(t, a, b).x, Untwiddled(t, a, b).y, a, b) == t
    decreases a + b
  {
    if a > 0 && b > 0 {
      assert Pow2(a + b) == 2 * (2 * Pow2(a - 1 + (b - 1)));
      Digits(t, Pow2(a - 1 + (b - 1)));
      TwiddleUntwiddle(t / 2 / 2, a - 1, b - 1);
      RetwiddleBoth(t, a, b);
    } else if b > 0 {
      TwiddleUntwiddle(t / 2, a, b - 1);
      RetwiddleOne(t, a, b);
    } else if a > 0 {
      TwiddleUntwiddle(t / 2, a - 1, b);
      RetwiddleOne(t, a, b);
    }
  }

  /** The two lowest bits of `t` and the rest. */
  lemma Digits(t: nat, p: nat)
    requires t < 2 * (2 * p)
    ensures t / 2 / 2 < p && t == t % 2 + 2 * (t / 2 % 2 + 2 * (t / 2 / 2))
  {
  }

  /** One round of `TwiddleUntwiddle` with both dimensions left. */
  lemma RetwiddleBoth(t: nat, a: nat, b: nat)
    requires a > 0 && b > 0
    requires var r := Untwiddled(t / 2 / 2, a - 1, b - 1); Twiddled(r.x, r.y, a - 1, b - 1) == t / 2 / 2
    ensures Twiddled(Untwiddled(t, a, b).x, Untwiddled(t, a, b).y, a, b) == t
  {
    var xy := Untwiddled(t, a, b);
    var r := Untwiddled(t / 2 / 2, a - 1, b - 1);
    Bit(xy.x, t / 2 % 2, r.x);
    Bit(xy.y, t % 2, r.y);
    calc {
      Twiddled(xy.x, xy.y, a, b);
      xy.y % 2 + 2 * (xy.x % 2 + 2 * Twiddled(xy.x / 2, xy.y / 2, a - 1, b - 1));
      t % 2 + 2 * (t / 2 % 2 + 2 * (t / 2 / 2));
    }
  }

  /** One round of `TwiddleUntwiddle` with one dimension left. */
  lemma RetwiddleOne(t: nat, a: nat, b: nat)
    requires (a == 0) != (b == 0)
    requires b > 0 ==> var r := Untwiddled(t / 2, a, b - 1); Twiddled(r.x, r.y, a, b - 1) == t / 2
    requires a > 0 ==> var r := Untwiddled(t / 2, a - 1, b); Twiddled(r.x, r.y, a - 1, b) == t / 2
    ensures Twiddled(Untwiddled(t, a, b).x, Untwiddled(t, a, b).y, a, b) == t
  {
    var xy := Untwiddled(t, a, b);
    if b > 0 {
      var r := Untwiddled(t / 2, a, b - 1);
      Bit(xy.y, t % 2, r.y);
      assert Twiddled(xy.x, xy.y, a, b) == t % 2 + 2 * Twiddled(r.x, r.y, a, b - 1);
    } else {
      var r := Untwiddled(t / 2, a - 1, b);
      Bit(xy.x, t % 2, r.x);
      assert Twiddled(xy.x, xy.y, a, b) == t % 2 + 2 * Twiddled(r.x, r.y, a - 1, b);
    }
  }

  /** Two texels of a texture never share a twiddled index. */
  lemma TwiddledInjective(x1: nat, y1: nat, x2: nat, y2: nat, a: nat, b: nat)
    requires x1 < Pow2(a) && y1 < Pow2(b) && x2 < Pow2(a) && y2 < Pow2(b)
    requires Twiddled(x1, y1, a, b) == Twiddled(x2, y2, a, b)
    ensures x1 == x2 && y1 == y2
  {
    UntwiddleTwiddle(x1, y1, a, b);
    UntwiddleTwiddle(x2, y2, a, b);
  }

  /** The 2x2 blocks of VQ compression: at even `x` and `y`, the texel's
      index is four times its block's twiddled index among the blocks. */
  lemma TwiddledBlock(x: nat, y: nat, a: nat, b: nat)
    requires a > 0 && b > 0 && x % 2 == 0 && y % 2 == 0
    ensures Twiddled(x, y, a, b) == 4 * Twiddled(x / 2, y / 2, a - 1, b - 1)
    ensures Twiddled(x, y + 1, a, b) == Twiddled(x, y, a, b) + 1
    ensures Twiddled(x + 1, y, a, b) == Twiddled(x, y, a, b) + 2
    ensures Twiddled(x + 1, y + 1, a, b) == Twiddled(x, y, a, b) + 3
  {
    assert (x + 1) / 2 == x / 2 && (y + 1) / 2 == y / 2;
  }
}
