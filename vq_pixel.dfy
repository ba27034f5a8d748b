/** The source pixel layouts the texture converter reads
    (`createImageFromData_*`). */
module VqPixel {
  import opened VqColor

  /** The pixel layouts `createImageFromData_*` read. */
  datatype SourceFormat = SrcARGB8888 | SrcRGB888 | SrcARGB1555

  /** Bytes per source pixel: the `x * 4`, `x * 3` and `x * 2` offsets. */
  function PixelBytes(f: SourceFormat): nat
  {
    match f
    case SrcARGB8888 => 4
    case SrcRGB888 => 3
    case SrcARGB1555 => 2
  }

  /** The little-endian `uint32_t` load at byte `o`. */
  function Word32(p: seq<bv8>, o: nat): bv32
    requires o + 4 <= |p|
  {
    (p[o] as bv32) | (p[o + 1] as bv32 << 8) | (p[o + 2] as bv32 << 16) | (p[o + 3] as bv32 << 24)
  }

  /** The little-endian `uint16_t` load at byte `o`. */
  function Word16(p: seq<bv8>, o: nat): bv16
    requires o + 2 <= |p|
  {
    (p[o] as bv16) | (p[o + 1] as bv16 << 8)
  }

  /** `createImageFromData_ARGB8888`'s pixel: the four bytes of the word,
      lowest first, are red, green, blue and alpha. */
  function PixelARGB8888(p: seq<bv8>, o: nat): (c: Color)
    requires o + 4 <= |p|
    ensures c == Color(p[o], p[o + 1], p[o + 2], p[o + 3])
  {
    var w := Word32(p, o);
    Color((w & 0xFF) as bv8, ((w >> 8) & 0xFF) as bv8, ((w >> 16) & 0xFF) as bv8, ((w >> 24) & 0xFF) as bv8)
  }

  /** `createImageFromData_RGB888`'s pixel: three bytes and opaque alpha. */
  function PixelRGB888(p: seq<bv8>, o: nat): (c: Color)
    requires o + 3 <= |p|
    ensures c.a == 0xFF && [c.r, c.g, c.b] == p[o..o + 3]
  {
    Color(p[o], p[o + 1], p[o + 2], 255)
  }

  /** `createImageFromData_ARGB1555`'s pixel: the 5-bit fields of the
      16-bit word from the lowest up, scaled by 8, are red, green and blue,
      and the top bit becomes an alpha of 0 or 255. */
  function PixelARGB1555(p: seq<bv8>, o: nat): (c: Color)
    requires o + 2 <= |p|
    ensures c.r >> 3 == p[o] & 0x1F && c.g >> 3 == (p[o] >> 5) | ((p[o + 1] & 0x03) << 3)
    ensures c.b >> 3 == (p[o + 1] >> 2) & 0x1F
    ensures c.r & 7 == 0 && c.g & 7 == 0 && c.b & 7 == 0
    ensures c.a == if p[o + 1] >= 0x80 then 0xFF else 0
  {
    var h := Word16(p, o);
    Color(((h & 0x1F) * 8) as bv8, (((h >> 5) & 0x1F) * 8) as bv8, (((h >> 10) & 0x1F) * 8) as bv8,
          (((h >> 15) & 0x1) * 255) as bv8)
  }

  function Pixel(f: SourceFormat, p: seq<bv8>, o: nat): Color
    requires o + PixelBytes(f) <= |p|
  {
    match f
    case SrcARGB8888 => PixelARGB8888(p, o)
    case SrcRGB888 => PixelRGB888(p, o)
    case SrcARGB1555 => PixelARGB1555(p, o)
  }
}
