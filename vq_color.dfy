/** Colours of the texture converter and their 16-bit layouts: the
    `convertTo*` quantisers, which keep the bits a 16-bit texel stores and
    repeat them into the low bits, and the `pack*` functions that place the
    kept bits in an ARGB4444, ARGB1555 or RGB565 texel. */
module VqColor {

  /** `struct Color`: four 8-bit channels. */
  datatype Color = Color(r: bv8, g: bv8, b: bv8, a: bv8)

  /** The texel layouts the converter writes. */
  datatype Format = ARGB4444 | ARGB1555 | RGB565

  // ---------------------------------------------------------------------------
  // Quantisation
  // ---------------------------------------------------------------------------

  /** `x` keeps the top `n` bits of `c` and repeats them below. */
  predicate Replicates(x: bv8, c: bv8, n: nat)
    requires 1 <= n <= 7
  {
    if n == 4 then x >> 4 == c >> 4 && x & 0x0F == c >> 4
    else if n == 5 then x >> 3 == c >> 3 && x & 0x07 == c >> 5
    else if n == 6 then x >> 2 == c >> 2 && x & 0x03 == c >> 6
    else x == c
  }

  function Top4(c: bv8): bv8
  {
    (c & 0xF0) | (c >> 4)
  }

  function Top5(c: bv8): bv8
  {
    (c & 0xF8) | (c >> 5)
  }

  function Top6(c: bv8): bv8
  {
    (c & 0xFC) | (c >> 6)
  }

  /** `convertToARGB4444`: every channel keeps its top 4 bits. */
  function ConvertToARGB4444(c: Color): Color
  {
    Color(Top4(c.r), Top4(c.g), Top4(c.b), Top4(c.a))
  }

  /** `convertToARGB1555`: the colour channels keep 5 bits; alpha becomes
      all ones or all zeros after its top bit. */
  function ConvertToARGB1555(c: Color): Color
  {
    Color(Top5(c.r), Top5(c.g), Top5(c.b), if c.a >= 0x80 then 0xFF else 0)
  }

  /** `convertToRGB565`: red and blue keep 5 bits, green 6, and alpha is
      left as it is. */
  function ConvertToRGB565(c: Color): Color
  {
    Color(Top5(c.r), Top6(c.g), Top5(c.b), c.a)
  }

  /** The quantiser `compressToVQ` is instantiated with for `f`. */
  function Convert(f: Format, c: Color): Color
  {
    match f
    case ARGB4444 => ConvertToARGB4444(c)
    case ARGB1555 => ConvertToARGB1555(c)
    case RGB565 => ConvertToRGB565(c)
  }

  /** What each quantiser keeps of every channel. */
  lemma ConvertKeeps(c: Color)
    ensures var d := ConvertToARGB4444(c);
      Replicates(d.r, c.r, 4) && Replicates(d.g, c.g, 4) && Replicates(d.b, c.b, 4) && Replicates(d.a, c.a, 4)
    ensures var d := ConvertToARGB1555(c);
      && Replicates(d.r, c.r, 5) && Replicates(d.g, c.g, 5) && Replicates(d.b, c.b, 5)
      && (d.a == 0 || d.a == 0xFF) && d.a >> 7 == c.a >> 7
    ensures var d := ConvertToRGB565(c);
      Replicates(d.r, c.r, 5) && Replicates(d.g, c.g, 6) && Replicates(d.b, c.b, 5) && d.a == c.a
  {
    TopBits(c.r);
    TopBits(c.g);
    TopBits(c.b);
    TopBits(c.a);
  }

  /** The bits each of `Top4`, `Top5` and `Top6` keeps, and that applying
      one twice changes nothing more. */
  lemma TopBits(x: bv8)
    ensures Replicates(Top4(x), x, 4) && Replicates(Top5(x), x, 5) && Replicates(Top6(x), x, 6)
    ensures Top4(x) & 0xF0 == x & 0xF0 && Top5(x) & 0xF8 == x & 0xF8 && Top6(x) & 0xFC == x & 0xFC
    ensures Top4(x) >> 4 == x >> 4 && Top5(x) >> 3 == x >> 3 && Top6(x) >> 2 == x >> 2
    ensures Top4(Top4(x)) == Top4(x) && Top5(Top5(x)) == Top5(x) && Top6(Top6(x)) == Top6(x)
  {
  }

  /** Quantising twice changes nothing more. */
  lemma ConvertIdempotent(f: Format, c: Color)
    ensures Convert(f, Convert(f, c)) == Convert(f, c)
  {
    var d := Convert(f, c);
    TopBits(c.r);
    TopBits(c.g);
    TopBits(c.b);
    TopBits(c.a);
    match f
    case ARGB4444 => assert ConvertToARGB4444(d) == d;
    case ARGB1555 => assert ConvertToARGB1555(d) == d;
    case RGB565 => assert ConvertToRGB565(d) == d;
  }

  // ---------------------------------------------------------------------------
  // Packing
  // ---------------------------------------------------------------------------

  /** `packARGB4444`: alpha in bits 12-15, red 8-11, green 4-7, blue 0-3. */
  function PackARGB4444(c: Color): bv16
  {
    Fields4444(c.a & 0xF0, c.r & 0xF0, c.g & 0xF0, c.b >> 4)
  }

  function Fields4444(a: bv8, r: bv8, g: bv8, b: bv8): bv16
  {
    (a as bv16 << 8) | (r as bv16 << 4) | g as bv16 | b as bv16
  }

  /** `packARGB1555`: the top alpha bit in bit 15, red in 10-14, green in
      5-9, blue in 0-4. */
  function PackARGB1555(c: Color): bv16
  {
    Fields1555(c.a & 0x80, c.r & 0xF8, c.g & 0xF8, c.b >> 3)
  }

  function Fields1555(a: bv8, r: bv8, g: bv8, b: bv8): bv16
  {
    (a as bv16 << 8) | (r as bv16 << 7) | (g as bv16 << 2) | b as bv16
  }

  /** `packRGB565`: red in bits 11-15, green in 5-10, blue in 0-4; alpha is
      dropped. */
  function PackRGB565(c: Color): bv16
  {
    Fields565(c.r & 0xF8, c.g & 0xFC, c.b >> 3)
  }

  function Fields565(r: bv8, g: bv8, b: bv8): bv16
  {
    (r as bv16 << 8) | (g as bv16 << 3) | b as bv16
  }

  /** Where each layout stores the kept bits of every channel. */
  lemma PackFields4444(c: Color)
    ensures var p := PackARGB4444(c);
      && (p >> 12) as bv8 == c.a >> 4 && ((p >> 8) & 0xF) as bv8 == c.r >> 4
      && ((p >> 4) & 0xF) as bv8 == c.g >> 4 && (p & 0xF) as bv8 == c.b >> 4
  {
  }

  lemma PackFields1555(c: Color)
    ensures var p := PackARGB1555(c);
      && (p >> 15) as bv8 == c.a >> 7 && ((p >> 10) & 0x1F) as bv8 == c.r >> 3
      && ((p >> 5) & 0x1F) as bv8 == c.g >> 3 && (p & 0x1F) as bv8 == c.b >> 3
  {
  }

  lemma PackFields565(c: Color)
    ensures var p := PackRGB565(c);
      (p >> 11) as bv8 == c.r >> 3 && ((p >> 5) & 0x3F) as bv8 == c.g >> 2 && (p & 0x1F) as bv8 == c.b >> 3
  {
  }

  function Pack(f: Format, c: Color): bv16
  {
    match f
    case ARGB4444 => PackARGB4444(c)
    case ARGB1555 => PackARGB1555(c)
    case RGB565 => PackRGB565(c)
  }

  /** A pack function reads only the bits its quantiser keeps. */
  lemma PackConvert(f: Format, c: Color)
    ensures Pack(f, Convert(f, c)) == Pack(f, c)
  {
    match f
    case ARGB4444 => PackConvert4444(c);
    case ARGB1555 => PackConvert1555(c);
    case RGB565 => PackConvert565(c);
  }

  lemma PackConvert4444(c: Color)
    ensures PackARGB4444(ConvertToARGB4444(c)) == PackARGB4444(c)
  {
    KeptHigh4(c.a);
    KeptHigh4(c.r);
    KeptHigh4(c.g);
    KeptHigh4(c.b);
    SameFields4444(ConvertToARGB4444(c), c);
  }

  lemma PackConvert1555(c: Color)
    ensures PackARGB1555(ConvertToARGB1555(c)) == PackARGB1555(c)
  {
    KeptHigh5(c.r);
    KeptHigh5(c.g);
    KeptHigh5(c.b);
    AlphaBit(c.a);
    SameFields1555(ConvertToARGB1555(c), c);
  }

  lemma PackConvert565(c: Color)
    ensures PackRGB565(ConvertToRGB565(c)) == PackRGB565(c)
  {
    KeptHigh5(c.r);
    KeptHigh6(c.g);
    KeptHigh5(c.b);
    SameFields565(ConvertToRGB565(c), c);
  }

  /** Colours that agree on the bits a layout stores pack alike. */
  lemma SameFields4444(c: Color, d: Color)
    requires c.a & 0xF0 == d.a & 0xF0 && c.r & 0xF0 == d.r & 0xF0 && c.g & 0xF0 == d.g & 0xF0 && c.b >> 4 == d.b >> 4
    ensures PackARGB4444(c) == PackARGB4444(d)
  {
    Unfold4444(c);
    Unfold4444(d);
  }

  lemma SameFields1555(c: Color, d: Color)
    requires c.a & 0x80 == d.a & 0x80 && c.r & 0xF8 == d.r & 0xF8 && c.g & 0xF8 == d.g & 0xF8 && c.b >> 3 == d.b >> 3
    ensures PackARGB1555(c) == PackARGB1555(d)
  {
    Unfold1555(c);
    Unfold1555(d);
  }

  lemma SameFields565(c: Color, d: Color)
    requires c.r & 0xF8 == d.r & 0xF8 && c.g & 0xFC == d.g & 0xFC && c.b >> 3 == d.b >> 3
    ensures PackRGB565(c) == PackRGB565(d)
  {
    Unfold565(c);
    Unfold565(d);
  }

  /** The fields each pack function combines. */
  lemma Unfold4444(c: Color)
    ensures PackARGB4444(c) == Fields4444(c.a & 0xF0, c.r & 0xF0, c.g & 0xF0, c.b >> 4)
  {
  }

  lemma Unfold1555(c: Color)
    ensures PackARGB1555(c) == Fields1555(c.a & 0x80, c.r & 0xF8, c.g & 0xF8, c.b >> 3)
  {
  }

  lemma Unfold565(c: Color)
    ensures PackRGB565(c) == Fields565(c.r & 0xF8, c.g & 0xFC, c.b >> 3)
  {
  }

  /** The bits a pack function reads of a `Top4`, `Top5` or `Top6` channel
      are those of the channel itself. */
  lemma KeptHigh4(x: bv8)
    ensures Top4(x) & 0xF0 == x & 0xF0 && Top4(x) >> 4 == x >> 4
  {
  }

  lemma KeptHigh5(x: bv8)
    ensures Top5(x) & 0xF8 == x & 0xF8 && Top5(x) >> 3 == x >> 3
  {
  }

  lemma KeptHigh6(x: bv8)
    ensures Top6(x) & 0xFC == x & 0xFC
  {
  }

  lemma AlphaBit(a: bv8)
    ensures (if a >= 0x80 then 0xFF else 0) & 0x80 == a & 0x80
  {
  }

  /** The quantised colour a texel stands for: the stored bits of every
      channel, repeated into the low bits (RGB565 stores no alpha, which
      reads as opaque). */
  function Unpack(f: Format, p: bv16): Color
  {
    match f
    case ARGB4444 =>
      Color(Top4((((p >> 8) & 0xF) << 4) as bv8), Top4((((p >> 4) & 0xF) << 4) as bv8),
            Top4(((p & 0xF) << 4) as bv8), Top4(((p >> 12) << 4) as bv8))
    case ARGB1555 =>
      Color(Top5((((p >> 10) & 0x1F) << 3) as bv8), Top5((((p >> 5) & 0x1F) << 3) as bv8),
            Top5(((p & 0x1F) << 3) as bv8), if p >> 15 == 1 then 0xFF else 0)
    case RGB565 =>
      Color(Top5(((p >> 11) << 3) as bv8), Top6((((p >> 5) & 0x3F) << 2) as bv8), Top5(((p & 0x1F) << 3) as bv8), 0xFF)
  }

  /** Every texel value is the packing of the colour it stands for, so the
      layouts lose nothing of a quantised colour ... */
  lemma PackUnpack(f: Format, p: bv16)
    ensures Pack(f, Unpack(f, p)) == p
  {
    match f
    case ARGB4444 => assert PackARGB4444(Unpack(f, p)) == p;
    case ARGB1555 => assert PackARGB1555(Unpack(f, p)) == p;
    case RGB565 => assert PackRGB565(Unpack(f, p)) == p;
  }

  /** ... and unpacking a packed colour gives back its quantisation, with
      alpha opaque in RGB565. */
  lemma UnpackPack(f: Format, c: Color)
    ensures Unpack(f, Pack(f, c)) == if f == RGB565 then Convert(f, c).(a := 0xFF) else Convert(f, c)
  {
    match f
    case ARGB4444 => assert Unpack(f, PackARGB4444(c)) == ConvertToARGB4444(c);
    case ARGB1555 => assert Unpack(f, PackARGB1555(c)) == ConvertToARGB1555(c);
    case RGB565 => assert Unpack(f, PackRGB565(c)) == ConvertToRGB565(c).(a := 0xFF);
  }

  /** The texel bytes `packColorsTo*` and `compressToVQ` store: low byte first. */
  function Lo(p: bv16): bv8 { (p & 0xFF) as bv8 }
  function Hi(p: bv16): bv8 { (p >> 8) as bv8 }

  lemma LoHi(p: bv16)
    ensures (Hi(p) as bv16 << 8) | Lo(p) as bv16 == p
  {
  }
}
