/** The `float16` storage type of the exporter: a 16-bit value that keeps the
    upper half of an IEEE 754 binary32 bit pattern (sign, the 8 exponent
    bits and the top 7 fraction bits, the layout of section 3.4 of
    IEEE 754-2008). Floats are modelled by their bit patterns. */
module Float16 {
  /** A `float16`; `raw` is the stored half. */
  datatype Half = Half(raw: bv16)

  /** The default constructor: `raw = 0`, the pattern of positive zero. */
  function Default(): (h: Half)
    ensures h.raw == 0 && ToFloat(h) == 0
  {
    Half(0)
  }

  /** `float16(float v)`: keep the upper 16 bits of `v`'s pattern. */
  function FromFloat(v: bv32): Half
  {
    Half((v >> 16) as bv16)
  }

  /** `operator float()`: the stored half in the upper 16 bits, the low
      16 bits zero. */
  function ToFloat(h: Half): bv32
  {
    (h.raw as bv32) << 16
  }

  /** `operator==`: the stored halves are equal. */
  predicate Equal(h: Half, k: Half)
  {
    h.raw == k.raw
  }

  /** Converting a `float16` to float and back gives it back. */
  lemma FromToFloat(h: Half)
    ensures FromFloat(ToFloat(h)) == h
  {
  }

  /** A conversion keeps the upper half of the pattern; the low half of the
      float it converts back to is zero, so the conversion truncates the
      fraction toward zero and keeps sign and exponent. */
  lemma ToFromFloat(v: bv32)
    ensures ToFloat(FromFloat(v)) == v & 0xFFFF_0000
    ensures ToFloat(FromFloat(v)) & 0xFFFF == 0
    ensures ToFloat(FromFloat(v)) >> 31 == v >> 31
    ensures (ToFloat(FromFloat(v)) >> 23) & 0xFF == (v >> 23) & 0xFF
  {
    Widen(v);
    var u := v & 0xFFFF_0000;
    assert ToFloat(FromFloat(v)) == u;
    KeepsTop(v);
  }

  lemma Widen(v: bv32)
    ensures ((v >> 16) as bv16) as bv32 == v >> 16 && (v >> 16) << 16 == v & 0xFFFF_0000
  {
  }

  lemma KeepsTop(v: bv32)
    ensures (v & 0xFFFF_0000) & 0xFFFF == 0 && (v & 0xFFFF_0000) >> 31 == v >> 31
    ensures ((v & 0xFFFF_0000) >> 23) & 0xFF == (v >> 23) & 0xFF
  {
  }

  /** The floats a `float16` represents are exactly those whose low half is
      zero, and each is represented once. */
  lemma Representable(v: bv32)
    ensures (exists h: Half :: ToFloat(h) == v) <==> v & 0xFFFF == 0
  {
    if v & 0xFFFF == 0 {
      ToFromFloat(v);
      assert ToFloat(FromFloat(v)) == v;
    } else {
      forall h: Half
        ensures ToFloat(h) != v
      {
        ToFromFloat(ToFloat(h));
      }
    }
  }

  /** `operator==` is the equality of the floats the halves convert to:
      bit patterns, so `-0 == +0` is false and a NaN equals its own
      pattern. */
  lemma EqualIsPattern(h: Half, k: Half)
    ensures Equal(h, k) <==> ToFloat(h) == ToFloat(k)
    ensures Equal(h, k) <==> h == k
  {
    if ToFloat(h) == ToFloat(k) {
      FromToFloat(h);
      FromToFloat(k);
    }
  }

  /** Two floats give equal `float16` values exactly when their upper halves
      agree. */
  lemma FromFloatEqual(v: bv32, w: bv32)
    ensures Equal(FromFloat(v), FromFloat(w)) <==> v & 0xFFFF_0000 == w & 0xFFFF_0000
  {
    ToFromFloat(v);
    ToFromFloat(w);
    if v & 0xFFFF_0000 == w & 0xFFFF_0000 {
      assert ToFloat(FromFloat(v)) == ToFloat(FromFloat(w));
      EqualIsPattern(FromFloat(v), FromFloat(w));
    }
  }
}
