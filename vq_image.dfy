/** The image side of the texture converter: decoding source pixels into a
    row-major `std::vector<Color>` (`createImageFromData_*`) and box-filter
    downscaling (`downscaleImage`). */
module VqImage {
  import opened VqColor
  import opened VqPixel

  // ---------------------------------------------------------------------------
  // Row-major positions
  // ---------------------------------------------------------------------------

  /** Pixel `(x, y)` of a `width`-wide image sits at `y * width + x`, inside
      the image and with `y` and `x` its quotient and remainder. */
  lemma RowMajorIndex(y: nat, x: nat, width: nat, height: nat)
    requires y < height && x < width
    ensures y * width + x < width * height
    ensures (y * width + x) / width == y && (y * width + x) % width == x
  {
    MulMonotone(y + 1, height, width);
    DivUnique(y * width + x, width, y, x);
  }

  /** Euclidean division has one quotient and remainder. */
  lemma DivUnique(i: nat, w: nat, q: nat, r: nat)
    requires r < w && i == q * w + r
    ensures i / w == q && i % w == r
  {
    var q', r' := i / w, i % w;
    assert i == q' * w + r';
    if q' < q {
      MulMonotone(q' + 1, q, w);
    } else if q' > q {
      MulMonotone(q + 1, q', w);
    }
  }

  /** Row `y + 1` starts `width` pixels after row `y`, inside the image. */
  lemma NextRow(y: nat, width: nat, height: nat)
    requires y < height
    ensures (y + 1) * width == y * width + width && y * width + width <= width * height
  {
    MulMonotone(y + 1, height, width);
  }

  lemma MulMonotone(a: nat, b: nat, c: nat)
    requires a <= b
    ensures a * c <= b * c
  {
  }

  // ---------------------------------------------------------------------------
  // createImageFromData_*
  // ---------------------------------------------------------------------------

  /** The byte offset `createImageFromData_*` reads pixel `i` of the image
      from: row `i / width` at `stride` bytes per row, column `i % width`. */
  function Origin(f: SourceFormat, stride: nat, width: nat, i: nat): nat
    requires width > 0
  {
    (i / width) * stride + PixelBytes(f) * (i % width)
  }

  /** `c` is the pixel of layout `f` stored at byte `o`, all of whose bytes
      lie inside the source buffer. */
  predicate Decodes(f: SourceFormat, pixels: seq<bv8>, o: nat, c: Color)
  {
    o + PixelBytes(f) <= |pixels| && c == Pixel(f, pixels, o)
  }

  /** The first `n` pixels of `s` are decoded from their bytes. */
  predicate Decoded(f: SourceFormat, pixels: seq<bv8>, stride: nat, width: nat, s: seq<Color>, n: nat)
  {
    n <= |s| && forall i :: 0 <= i < n ==> width > 0 && Decodes(f, pixels, Origin(f, stride, width, i), s[i])
  }

  lemma DecodedStep(f: SourceFormat, pixels: seq<bv8>, stride: nat, width: nat, s: seq<Color>, n: nat, v: Color)
    requires Decoded(f, pixels, stride, width, s, n) && n < |s|
    requires width > 0 && Decodes(f, pixels, Origin(f, stride, width, n), v)
    ensures Decoded(f, pixels, stride, width, s[n := v], n + 1)
  {
  }

  /** `createImageFromData_ARGB8888`, `_RGB888` and `_ARGB1555`: every pixel
      of the `width` by `height` image is decoded from its bytes. */
  method CreateImageFromData(f: SourceFormat, pixels: seq<bv8>, width: nat, height: nat, stride: nat)
    returns (image: seq<Color>)
    requires width > 0 && height > 0 ==> (height - 1) * stride + PixelBytes(f) * width <= |pixels|
    ensures |image| == width * height
    ensures forall i :: 0 <= i < |image| ==> Decodes(f, pixels, Origin(f, stride, width, i), image[i])
  {
    var buffer := new Color[width * height](_ => Color(0, 0, 0, 0));
    ghost var row := 0;
    for y := 0 to height
      invariant row == y * width && row <= buffer.Length
      invariant Decoded(f, pixels, stride, width, buffer[..], row)
    {
      NextRow(y, width, height);
      DecodeRow(f, pixels, width, height, stride, y, y * width, buffer);
      row := row + width;
    }
    image := buffer[..];
  }

  /** The inner loop of `createImageFromData_*`: row `y`, which starts at
      pixel `row == y * width`. */
  method DecodeRow(f: SourceFormat, pixels: seq<bv8>, width: nat, height: nat, stride: nat, y: nat, row: nat,
                   buffer: array<Color>)
    requires y < height && row == y * width && row + width <= buffer.Length
    requires width > 0 ==> (height - 1) * stride + PixelBytes(f) * width <= |pixels|
    requires Decoded(f, pixels, stride, width, buffer[..], row)
    modifies buffer
    ensures Decoded(f, pixels, stride, width, buffer[..], row + width)
    ensures forall i :: row + width <= i < buffer.Length ==> buffer[i] == old(buffer[i])
  {
    for x := 0 to width
      invariant Decoded(f, pixels, stride, width, buffer[..], row + x)
      invariant forall i :: row + width <= i < buffer.Length ==> buffer[i] == old(buffer[i])
    {
      OriginAt(f, stride, width, height, y, x);
      ReadInRange(f, y, x, width, height, stride);
      var v := Pixel(f, pixels, y * stride + PixelBytes(f) * x);
      ghost var s := buffer[..];
      buffer[row + x] := v;
      assert buffer[..] == s[row + x := v];
      DecodedStep(f, pixels, stride, width, s, row + x, v);
    }
  }

  /** The bytes of pixel `(x, y)` lie inside a buffer of `(height - 1) *
      stride + PixelBytes(f) * width` bytes. */
  lemma ReadInRange(f: SourceFormat, y: nat, x: nat, width: nat, height: nat, stride: nat)
    requires y < height && x < width
    ensures y * stride + PixelBytes(f) * x + PixelBytes(f) <= (height - 1) * stride + PixelBytes(f) * width
  {
    MulMonotone(y, height - 1, stride);
    MulMonotone(x + 1, width, PixelBytes(f));
  }

  /** In terms of the source's `(x, y)`: pixel `y * width + x` comes from
      byte `y * stride + x * PixelBytes(f)`. */
  lemma OriginAt(f: SourceFormat, stride: nat, width: nat, height: nat, y: nat, x: nat)
    requires y < height && x < width
    ensures Origin(f, stride, width, y * width + x) == y * stride + PixelBytes(f) * x
  {
    RowMajorIndex(y, x, width, height);
  }

  // ---------------------------------------------------------------------------
  // downscaleImage
  // ---------------------------------------------------------------------------

  /** The running sums of `downscaleImage`: the four channel totals and
      `pixelCount`. */
  datatype Sum = Sum(r: nat, g: nat, b: nat, a: nat, count: nat)

  const Zero := Sum(0, 0, 0, 0, 0)

  function Add(s: Sum, c: Color): Sum
  {
    Sum(s.r + c.r as nat, s.g + c.g as nat, s.b + c.b as nat, s.a + c.a as nat, s.count + 1)
  }

  function Plus(s: Sum, t: Sum): Sum
  {
    Sum(s.r + t.r, s.g + t.g, s.b + t.b, s.a + t.a, s.count + t.count)
  }

  /** The sums over source columns `x0 .. x0 + n - 1` of row `y`, counting
      only the pixels inside the image, as `downscaleImage`'s inner loop
      does. */
  function RowSum(image: seq<Color>, width: nat, height: nat, y: nat, x0: nat, n: nat): Sum
    requires |image| == width * height
  {
    if n == 0 then Zero
    else
      var s := RowSum(image, width, height, y, x0, n - 1);
      var x := x0 + n - 1;
      if x < width && y < height then
        RowMajorIndex(y, x, width, height);
        Add(s, image[y * width + x])
      else s
  }

  /** The sums over rows `y0 .. y0 + m - 1` of the `sx`-wide block at
      column `x0`. */
  function BlockSum(image: seq<Color>, width: nat, height: nat, x0: nat, y0: nat, sx: nat, m: nat): Sum
    requires |image| == width * height
  {
    if m == 0 then Zero
    else Plus(BlockSum(image, width, height, x0, y0, sx, m - 1), RowSum(image, width, height, y0 + m - 1, x0, sx))
  }

  /** `static_cast<uint8_t>`: the low eight bits. */
  function Narrow(v: int): bv8
  {
    (v % 256) as bv8
  }

  /** The per-channel integer mean of a sum. */
  function Mean(s: Sum): Color
    requires s.count > 0
  {
    Color(Narrow(s.r / s.count), Narrow(s.g / s.count), Narrow(s.b / s.count), Narrow(s.a / s.count))
  }

  predicate MeanOf(c: Color, s: Sum)
  {
    s.count > 0 && c == Mean(s)
  }

  /** The sums of one output pixel of `downscaleImage`, which covers the
      `sx` by `sy` source block at `(x * sx, y * sy)`. */
  function Block(image: seq<Color>, width: nat, height: nat, sx: nat, sy: nat, x: nat, y: nat): Sum
    requires |image| == width * height
  {
    BlockSum(image, width, height, x * sx, y * sy, sx, sy)
  }

  /** The two inner loops of `downscaleImage`: the mean of the `sx` by `sy`
      source block at `(x0, y0)`. */
  method BlockMean(image: seq<Color>, width: nat, height: nat, x0: nat, y0: nat, sx: nat, sy: nat)
    returns (c: Color)
    requires |image| == width * height
    requires 0 < sx && x0 + sx <= width && 0 < sy && y0 + sy <= height
    ensures MeanOf(c, BlockSum(image, width, height, x0, y0, sx, sy))
  {
    var r: nat, g: nat, b: nat, a: nat, pixelCount: nat := 0, 0, 0, 0, 0;
    for dy := 0 to sy
      invariant Sum(r, g, b, a, pixelCount) == BlockSum(image, width, height, x0, y0, sx, dy)
    {
      r, g, b, a, pixelCount := AddRow(image, width, height, x0, y0 + dy, sx, r, g, b, a, pixelCount);
    }
    BlockCount(image, width, height, x0, y0, sx, sy);
    c := Color(Narrow(r / pixelCount), Narrow(g / pixelCount), Narrow(b / pixelCount), Narrow(a / pixelCount));
  }

  /** The innermost loop of `downscaleImage`: adds the pixels of row `srcY`,
      columns `x0 .. x0 + sx - 1`, that lie inside the image. */
  method AddRow(image: seq<Color>, width: nat, height: nat, x0: nat, srcY: nat, sx: nat,
                r0: nat, g0: nat, b0: nat, a0: nat, count0: nat)
    returns (r: nat, g: nat, b: nat, a: nat, pixelCount: nat)
    requires |image| == width * height
    ensures Sum(r, g, b, a, pixelCount) == Plus(Sum(r0, g0, b0, a0, count0), RowSum(image, width, height, srcY, x0, sx))
  {
    r, g, b, a, pixelCount := r0, g0, b0, a0, count0;
    for dx := 0 to sx
      invariant Sum(r, g, b, a, pixelCount) == Plus(Sum(r0, g0, b0, a0, count0), RowSum(image, width, height, srcY, x0, dx))
    {
      var srcX := x0 + dx;
      RowSumStep(image, width, height, srcY, x0, dx);
      if srcX < width && srcY < height {
        RowMajorIndex(srcY, srcX, width, height);
        var p := image[srcY * width + srcX];
        r, g, b, a := r + p.r as nat, g + p.g as nat, b + p.b as nat, a + p.a as nat;
        pixelCount := pixelCount + 1;
      }
    }
  }

  /** One more column of a row sum. */
  lemma RowSumStep(image: seq<Color>, width: nat, height: nat, y: nat, x0: nat, n: nat)
    requires |image| == width * height
    ensures x0 + n < width && y < height ==>
      (y * width + x0 + n < |image| &&
       RowSum(image, width, height, y, x0, n + 1) == Add(RowSum(image, width, height, y, x0, n), image[y * width + x0 + n]))
    ensures !(x0 + n < width && y < height) ==>
      RowSum(image, width, height, y, x0, n + 1) == RowSum(image, width, height, y, x0, n)
  {
    if x0 + n < width && y < height {
      RowMajorIndex(y, x0 + n, width, height);
    }
  }

  /** A block inside the image counts all of its pixels. */
  lemma {:induction false} BlockCount(image: seq<Color>, width: nat, height: nat, x0: nat, y0: nat, sx: nat, m: nat)
    requires |image| == width * height && x0 + sx <= width && y0 + m <= height
    ensures BlockSum(image, width, height, x0, y0, sx, m).count == m * sx
  {
    if m > 0 {
      BlockCount(image, width, height, x0, y0, sx, m - 1);
      RowCount(image, width, height, y0 + m - 1, x0, sx);
      assert (m - 1) * sx + sx == m * sx;
    }
  }

  lemma {:induction false} RowCount(image: seq<Color>, width: nat, height: nat, y: nat, x0: nat, n: nat)
    requires |image| == width * height && x0 + n <= width && y < height
    ensures RowSum(image, width, height, y, x0, n).count == n
  {
    if n > 0 {
      RowCount(image, width, height, y, x0, n - 1);
    }
  }

  /** Every channel total is at most 255 per counted pixel. */
  predicate Bounded(s: Sum)
  {
    s.r <= 255 * s.count && s.g <= 255 * s.count && s.b <= 255 * s.count && s.a <= 255 * s.count
  }

  lemma {:induction false} RowBounded(image: seq<Color>, width: nat, height: nat, y: nat, x0: nat, n: nat)
    requires |image| == width * height
    ensures Bounded(RowSum(image, width, height, y, x0, n))
  {
    if n > 0 {
      RowBounded(image, width, height, y, x0, n - 1);
    }
  }

  lemma {:induction false} BlockBounded(image: seq<Color>, width: nat, height: nat, x0: nat, y0: nat, sx: nat, m: nat)
    requires |image| == width * height
    ensures Bounded(BlockSum(image, width, height, x0, y0, sx, m))
  {
    if m > 0 {
      BlockBounded(image, width, height, x0, y0, sx, m - 1);
      RowBounded(image, width, height, y0 + m - 1, x0, sx);
    }
  }

  /** The `static_cast<uint8_t>` of a block mean loses nothing: every
      channel of the mean is the exact integer quotient. */
  lemma MeanExact(image: seq<Color>, width: nat, height: nat, x0: nat, y0: nat, sx: nat, m: nat)
    requires |image| == width * height && BlockSum(image, width, height, x0, y0, sx, m).count > 0
    ensures var s := BlockSum(image, width, height, x0, y0, sx, m); var c := Mean(s);
      c.r as nat == s.r / s.count && c.g as nat == s.g / s.count &&
      c.b as nat == s.b / s.count && c.a as nat == s.a / s.count
  {
    var s := BlockSum(image, width, height, x0, y0, sx, m);
    BlockBounded(image, width, height, x0, y0, sx, m);
    QuotientByte(s.r, s.count);
    QuotientByte(s.g, s.count);
    QuotientByte(s.b, s.count);
    QuotientByte(s.a, s.count);
  }

  /** A total of at most 255 per pixel has a quotient that fits a byte. */
  lemma QuotientByte(v: nat, n: nat)
    requires 0 < n && v <= 255 * n
    ensures v / n <= 255 && Narrow(v / n) as nat == v / n
  {
    assert (v / n) * n <= 255 * n;
    MulCancel(v / n, 255, n);
  }

  lemma MulCancel(q: nat, k: nat, n: nat)
    requires 0 < n && q * n <= k * n
    ensures q <= k
  {
    if q > k {
      MulMonotone(k + 1, q, n);
    }
  }

  /** Narrowing a byte's own value gives the byte back. */
  lemma NarrowByte(x: bv8)
    ensures Narrow(x as int) == x
  {
    ByteMod(x as int);
    ByteRoundTrip(x);
  }

  lemma ByteMod(v: int)
    requires 0 <= v < 256
    ensures v % 256 == v
  {
  }

  lemma ByteRoundTrip(x: bv8)
    ensures (x as int) as bv8 == x
  {
  }

  /** Downscaling a single-coloured image gives that colour back. */
  lemma UniformMean(image: seq<Color>, width: nat, height: nat, x0: nat, y0: nat, sx: nat, m: nat, c: Color)
    requires |image| == width * height && BlockSum(image, width, height, x0, y0, sx, m).count > 0
    requires forall j :: 0 <= j < |image| ==> image[j] == c
    ensures Mean(BlockSum(image, width, height, x0, y0, sx, m)) == c
  {
    var s := BlockSum(image, width, height, x0, y0, sx, m);
    UniformBlock(image, width, height, x0, y0, sx, m, c);
    DivUnique(s.r, s.count, c.r as nat, 0);
    DivUnique(s.g, s.count, c.g as nat, 0);
    DivUnique(s.b, s.count, c.b as nat, 0);
    DivUnique(s.a, s.count, c.a as nat, 0);
    NarrowByte(c.r);
    NarrowByte(c.g);
    NarrowByte(c.b);
    NarrowByte(c.a);
  }

  /** Each channel total of a single-coloured image is the count times the
      channel. */
  predicate Scaled(s: Sum, c: Color)
  {
    ScaledBy(s, c.r as nat, c.g as nat, c.b as nat, c.a as nat)
  }

  predicate ScaledBy(s: Sum, r: nat, g: nat, b: nat, a: nat)
  {
    s.r == r * s.count && s.g == g * s.count && s.b == b * s.count && s.a == a * s.count
  }

  /** Sums of one colour add up with their counts. */
  lemma ScaledPlus(s: Sum, t: Sum, r: nat, g: nat, b: nat, a: nat)
    requires ScaledBy(s, r, g, b, a) && ScaledBy(t, r, g, b, a)
    ensures ScaledBy(Plus(s, t), r, g, b, a)
  {
    Distrib(r, s.count, t.count);
    Distrib(g, s.count, t.count);
    Distrib(b, s.count, t.count);
    Distrib(a, s.count, t.count);
  }

  lemma Distrib(v: nat, k1: nat, k2: nat)
    ensures v * k1 + v * k2 == v * (k1 + k2)
  {
  }

  lemma {:induction false} UniformRow(image: seq<Color>, width: nat, height: nat, y: nat, x0: nat, n: nat, c: Color)
    requires |image| == width * height
    requires forall j :: 0 <= j < |image| ==> image[j] == c
    ensures Scaled(RowSum(image, width, height, y, x0, n), c)
  {
    if n == 0 {
      ScaledZero(c.r as nat, c.g as nat, c.b as nat, c.a as nat);
    } else {
      var s := RowSum(image, width, height, y, x0, n - 1);
      UniformRow(image, width, height, y, x0, n - 1, c);
      RowSumStep(image, width, height, y, x0, n - 1);
      if x0 + n - 1 < width && y < height {
        assert image[y * width + x0 + n - 1] == c;
        ScaledOne(s, c);
        ScaledPlus(s, One(c), c.r as nat, c.g as nat, c.b as nat, c.a as nat);
      }
    }
  }

  /** The sums of one pixel of colour `c`. */
  function One(c: Color): Sum
  {
    Sum(c.r as nat, c.g as nat, c.b as nat, c.a as nat, 1)
  }

  lemma ScaledOne(s: Sum, c: Color)
    ensures Add(s, c) == Plus(s, One(c)) && ScaledBy(One(c), c.r as nat, c.g as nat, c.b as nat, c.a as nat)
  {
  }

  lemma ScaledZero(r: nat, g: nat, b: nat, a: nat)
    ensures ScaledBy(Zero, r, g, b, a)
  {
  }

  lemma {:induction false} UniformBlock(image: seq<Color>, width: nat, height: nat, x0: nat, y0: nat, sx: nat, m: nat,
                                        c: Color)
    requires |image| == width * height
    requires forall j :: 0 <= j < |image| ==> image[j] == c
    ensures Scaled(BlockSum(image, width, height, x0, y0, sx, m), c)
  {
    if m == 0 {
      ScaledZero(c.r as nat, c.g as nat, c.b as nat, c.a as nat);
    } else {
      UniformBlock(image, width, height, x0, y0, sx, m - 1, c);
      UniformRow(image, width, height, y0 + m - 1, x0, sx, c);
      ScaledPlus(BlockSum(image, width, height, x0, y0, sx, m - 1), RowSum(image, width, height, y0 + m - 1, x0, sx),
                 c.r as nat, c.g as nat, c.b as nat, c.a as nat);
    }
  }

  /** The first `n` pixels of `s` are the means of their blocks: pixel `i`
      is output pixel `(i % newWidth, i / newWidth)`. */
  ghost predicate Downscaled(image: seq<Color>, width: nat, height: nat, sx: nat, sy: nat, newWidth: nat,
                       s: seq<Color>, n: nat)
    requires |image| == width * height
  {
    n <= |s| && forall i :: 0 <= i < n ==> PixelMean(image, width, height, sx, sy, newWidth, i, s[i])
  }

  /** Output pixel `i` of a `newWidth`-wide image is `v`, the mean of its
      source block. */
  ghost predicate PixelMean(image: seq<Color>, width: nat, height: nat, sx: nat, sy: nat, newWidth: nat, i: nat, v: Color)
    requires |image| == width * height
  {
    newWidth > 0 && MeanOf(v, Block(image, width, height, sx, sy, i % newWidth, i / newWidth))
  }

  lemma DownscaledStep(image: seq<Color>, width: nat, height: nat, sx: nat, sy: nat, newWidth: nat,
                       s: seq<Color>, n: nat, v: Color)
    requires |image| == width * height
    requires Downscaled(image, width, height, sx, sy, newWidth, s, n) && n < |s| && newWidth > 0
    requires MeanOf(v, Block(image, width, height, sx, sy, n % newWidth, n / newWidth))
    ensures Downscaled(image, width, height, sx, sy, newWidth, s[n := v], n + 1)
  {
  }

  /** `downscaleImage`: output pixel `(x, y)` is the mean of the
      `width / newWidth` by `height / newHeight` source block at
      `(x * (width / newWidth), y * (height / newHeight))`.  A new size above
      the old one makes the scale 0 and the source divide by a zero
      `pixelCount`, so it is excluded. */
  method DownscaleImage(image: seq<Color>, width: nat, height: nat, newWidth: nat, newHeight: nat)
    returns (out: seq<Color>)
    requires |image| == width * height
    requires 0 < newWidth <= width && 0 < newHeight <= height
    ensures |out| == newWidth * newHeight
    ensures forall i :: 0 <= i < |out| ==>
      MeanOf(out[i], Block(image, width, height, width / newWidth, height / newHeight, i % newWidth, i / newWidth))
  {
    var scaleFactorX, scaleFactorY := width / newWidth, height / newHeight;
    Scale(newWidth, width);
    Scale(newHeight, height);
    out := DownscaleRows(image, width, height, scaleFactorX, scaleFactorY, newWidth, newHeight);
    DownscaledAll(image, width, height, newWidth, newHeight, out);
  }

  /** The `y` loop of `downscaleImage`, with the scale factors given. */
  method DownscaleRows(image: seq<Color>, width: nat, height: nat, sx: nat, sy: nat, newWidth: nat, newHeight: nat)
    returns (out: seq<Color>)
    requires |image| == width * height
    requires 0 < sx && newWidth * sx <= width && 0 < sy && newHeight * sy <= height
    ensures |out| == newWidth * newHeight
    ensures Downscaled(image, width, height, sx, sy, newWidth, out, |out|)
  {
    var buffer := new Color[newWidth * newHeight](_ => Color(0, 0, 0, 0));
    for y := 0 to newHeight
      invariant y * newWidth <= buffer.Length
      invariant Downscaled(image, width, height, sx, sy, newWidth, buffer[..], y * newWidth)
    {
      RowBounds(y, newWidth, newHeight, sy, height);
      DownscaleRow(image, width, height, sx, sy, newWidth, y, y * newWidth, buffer);
    }
    out := buffer[..];
  }

  lemma DownscaledAll(image: seq<Color>, width: nat, height: nat, newWidth: nat, newHeight: nat, s: seq<Color>)
    requires |image| == width * height && 0 < newWidth && 0 < newHeight && |s| == newWidth * newHeight
    requires Downscaled(image, width, height, width / newWidth, height / newHeight, newWidth, s, |s|)
    ensures forall i :: 0 <= i < |s| ==>
      MeanOf(s[i], Block(image, width, height, width / newWidth, height / newHeight, i % newWidth, i / newWidth))
  {
  }

  /** Output row `y` fits in the buffer and its source rows in the image. */
  lemma RowBounds(y: nat, newWidth: nat, newHeight: nat, sy: nat, height: nat)
    requires y < newHeight && newHeight * sy <= height
    ensures (y + 1) * newWidth == y * newWidth + newWidth <= newWidth * newHeight
    ensures y * sy + sy <= height
  {
    NextRow(y, newWidth, newHeight);
    MulMonotone(y + 1, newHeight, sy);
  }

  /** The scale factors are positive and the blocks fit in the image. */
  lemma Scale(newSize: nat, size: nat)
    requires 0 < newSize <= size
    ensures 0 < size / newSize && newSize * (size / newSize) <= size
  {
  }

  /** The `x` loop of `downscaleImage` for output row `y`, which starts at
      output pixel `row == y * newWidth`. */
  method DownscaleRow(image: seq<Color>, width: nat, height: nat, sx: nat, sy: nat, newWidth: nat, y: nat, row: nat,
                      buffer: array<Color>)
    requires |image| == width * height
    requires 0 < sx && newWidth * sx <= width && 0 < sy && y * sy + sy <= height
    requires row == y * newWidth && row + newWidth <= buffer.Length
    requires Downscaled(image, width, height, sx, sy, newWidth, buffer[..], row)
    modifies buffer
    ensures Downscaled(image, width, height, sx, sy, newWidth, buffer[..], row + newWidth)
    ensures forall i :: row + newWidth <= i < buffer.Length ==> buffer[i] == old(buffer[i])
  {
    for x := 0 to newWidth
      invariant Downscaled(image, width, height, sx, sy, newWidth, buffer[..], row + x)
      invariant forall i :: row + newWidth <= i < buffer.Length ==> buffer[i] == old(buffer[i])
    {
      MulMonotone(x + 1, newWidth, sx);
      RowMajorIndex(y, x, newWidth, y + 1);
      var c := BlockMean(image, width, height, x * sx, y * sy, sx, sy);
      ghost var s := buffer[..];
      buffer[row + x] := c;
      assert buffer[..] == s[row + x := c];
      DownscaledStep(image, width, height, sx, sy, newWidth, s, row + x, c);
    }
  }
}
