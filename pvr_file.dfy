/** The `.PVR` texture container the texture encoder writes: the choice of
    the small-VQ codebook size, and the header `fPvrWrite` emits (chunk size,
    texture kind, the GBIX block that carries a non-standard codebook
    size). The pixel data comes from `WritePvrTexEncoder` and
    `CalcTextureSize`, outside this model; they enter as parameters. */
module PvrFile {
  import opened Wrappers

  /** `fPvrSmallVQCodebookSize`: the number of codebook entries of a small
      VQ texture, by `texsize_pixels` (the width plus the height); the
      `mip` argument is unused. */
  function SmallVQCodebookSize(texsizePixels: int, mip: int): (cs: nat)
    ensures 0 < cs <= 256 && cs % 8 == 0
    ensures texsizePixels > 192 ==> cs == 256
    ensures texsizePixels <= 32 ==> cs == 24
  {
    if texsizePixels <= 32 then 24
    else if texsizePixels == 48 then 48
    else if texsizePixels == 64 then 32
    else if texsizePixels == 96 then 64
    else if texsizePixels == 128 then 64
    else if texsizePixels == 192 then 192
    else 256
  }

  /** The bytes of a VQ texture without mipmaps: one index byte per 2x2
      block and eight bytes per codebook entry. */
  function VQBytes(w: nat, h: nat, cs: nat): nat
  {
    w * h / 4 + 8 * cs
  }

  /** The sizes the comments of `fPvrSmallVQCodebookSize` give for each
      listed texture shape, with `texsize_pixels` its width plus height;
      each is smaller than the 2048-byte codebook of a full VQ texture
      alone. */
  lemma SmallVQSizes()
    ensures VQBytes(16, 16, SmallVQCodebookSize(32, 0)) == 256
    ensures VQBytes(16, 32, SmallVQCodebookSize(48, 0)) == 512 && VQBytes(32, 16, SmallVQCodebookSize(48, 0)) == 512
    ensures VQBytes(32, 32, SmallVQCodebookSize(64, 0)) == 512
    ensures VQBytes(64, 32, SmallVQCodebookSize(96, 0)) == 1024 && VQBytes(32, 64, SmallVQCodebookSize(96, 0)) == 1024
    ensures VQBytes(64, 64, SmallVQCodebookSize(128, 0)) == 1536
    ensures VQBytes(128, 64, SmallVQCodebookSize(192, 0)) == 3584 && VQBytes(64, 128, SmallVQCodebookSize(192, 0)) == 3584
  {
    assert 16 * 16 / 4 == 64 && 16 * 32 / 4 == 128 && 32 * 16 / 4 == 128 && 32 * 32 / 4 == 256;
    assert 64 * 32 / 4 == 512 && 32 * 64 / 4 == 512 && 64 * 64 / 4 == 1024;
    assert 128 * 64 / 4 == 2048 && 64 * 128 / 4 == 2048;
  }

  /** The pixel format of the encoder, as far as `fPvrWrite` looks at it. */
  datatype PixelFormat = Palette8 | Palette4 | Direct

  /** What `fPvrWrite` reads of a `PvrTexEncoder`. */
  datatype Encoder = Encoder(w: nat, h: nat, pixelFormat: PixelFormat, compressed: bool, palettized: bool,
                             mips: bool, autoSmallVQ: bool, codebookSize: nat)

  /** The `FILE_PVR_*` texture kinds; a mipmapped texture adds
      `FILE_PVR_MIP_ADD` to its kind. */
  datatype Kind = Square | VQ | SmallVQ | Bpp8 | Bpp4 | Rect

  datatype Header = Header(kind: Kind, mipmapped: bool, chunkSize: nat, gbix: bool)

  datatype WriteError = CompressedPalettized | RectMipmapped

  /** The index bytes of a compressed texture: a quarter of the pixels,
      plus a third again and one more for the mipmap chain
      (`idxcnt * 4/3 + 1`, in integer arithmetic). */
  function IndexCount(w: nat, h: nat, mips: bool): nat
  {
    if mips then (w * h / 4) * 4 / 3 + 1 else w * h / 4
  }

  /** The number of bytes `WritePvrTexEncoder` writes after the chunk
      header: the codebook and the indices of a compressed texture, or the
      texture without the 4 padding bytes .PVR drops for a mipmapped one. */
  function DataLength(pte: Encoder, textureSize: nat): int
  {
    if pte.compressed then IndexCount(pte.w, pte.h, pte.mips) + (if pte.autoSmallVQ then 8 * pte.codebookSize else 2048)
    else textureSize - (if pte.mips then 4 else 0)
  }

  /** The header computation of `fPvrWrite`. `textureSize` is what
      `CalcTextureSize` returns for an uncompressed texture. The source
      stops with `ErrorExit` on a compressed palettised texture and asserts
      that a rectangular uncompressed texture has no mipmaps. */
  method ChunkHeader(pte: Encoder, textureSize: nat) returns (r: Result<Header, WriteError>)
    ensures r.Err? <==> (pte.compressed && pte.palettized) || (!pte.compressed && pte.w != pte.h && pte.mips)
    ensures r.Err? && pte.compressed ==> r.error == CompressedPalettized
    ensures r.Ok? && pte.compressed ==>
      r.value.chunkSize == 16 + IndexCount(pte.w, pte.h, pte.mips) + (if pte.autoSmallVQ then 8 * pte.codebookSize else 2048) &&
      r.value.kind == (if pte.autoSmallVQ then SmallVQ else VQ)
    ensures r.Ok? && !pte.compressed ==>
      r.value.chunkSize == 16 + textureSize - (if pte.mips then 4 else 0) &&
      r.value.kind == (if pte.w != pte.h then Rect
                       else if pte.pixelFormat == Palette8 then Bpp8
                       else if pte.pixelFormat == Palette4 then Bpp4
                       else Square)
    ensures r.Ok? ==> r.value.mipmapped == pte.mips && (r.value.gbix <==> pte.codebookSize != 256)
  {
    var chunksize := 16;
    var pvrfmt := Square;
    if pte.compressed {
      pvrfmt := VQ;
      var cbSize := 2048;
      var idxcnt := pte.w * pte.h / 4;
      if pte.mips {
        idxcnt := idxcnt * 4 / 3 + 1;
      }
      if pte.autoSmallVQ {
        pvrfmt := SmallVQ;
        cbSize := pte.codebookSize * 8;
      }
      if pte.palettized {
        return Err(CompressedPalettized);
      }
      chunksize := chunksize + idxcnt + cbSize;
    } else {
      chunksize := chunksize + textureSize;
      if pte.pixelFormat == Palette8 {
        pvrfmt := Bpp8;
      } else if pte.pixelFormat == Palette4 {
        pvrfmt := Bpp4;
      }
      if pte.mips {
        chunksize := chunksize - 4;
      }
      if pte.w != pte.h {
        pvrfmt := Rect;
        if pte.mips {
          return Err(RectMipmapped);
        }
      }
    }
    r := Ok(Header(pvrfmt, pte.mips, chunksize, pte.codebookSize != 256));
  }

  /** `fPvrWrite`: the header, then the bytes written. `data` is what
      `WritePvrTexEncoder` writes and `formatWord` is `pvrfmt |
      pixel_format`, both outside this model. On an error nothing is
      written. When the encoder writes the data the chunk size accounts for,
      the closing assertion holds: the file is the chunk size long, plus 12
      with a GBIX block, and the size field reads back. */
  method Write(pte: Encoder, textureSize: nat, formatWord: nat, data: seq<bv8>)
    returns (r: Result<Header, WriteError>, file: seq<bv8>)
    ensures r.Err? <==> (pte.compressed && pte.palettized) || (!pte.compressed && pte.w != pte.h && pte.mips)
    ensures r.Ok? ==> r.value.chunkSize == 16 + DataLength(pte, textureSize)
    ensures r.Ok? ==> (r.value.gbix <==> pte.codebookSize != 256)
    ensures r.Err? ==> file == []
    ensures r.Ok? ==> file == FileBytes(pte, r.value, formatWord, data)
    ensures r.Ok? && |data| == DataLength(pte, textureSize) && r.value.chunkSize < 0x1_0000_0000 ==>
      |file| == r.value.chunkSize + (if r.value.gbix then 12 else 0) &&
      ReadLE32(file, if r.value.gbix then 16 else 4) == r.value.chunkSize
  {
    r := ChunkHeader(pte, textureSize);
    if r.Err? {
      return r, [];
    }
    file := FileBytes(pte, r.value, formatWord, data);
    Closing(pte, r.value, formatWord, data, DataLength(pte, textureSize));
  }

  /** `FileSize` for a data length `n` the chunk size accounts for. */
  lemma Closing(pte: Encoder, hdr: Header, formatWord: nat, data: seq<bv8>, n: int)
    requires hdr.chunkSize == 16 + n
    ensures |data| == n && hdr.chunkSize < 0x1_0000_0000 ==>
      |FileBytes(pte, hdr, formatWord, data)| == hdr.chunkSize + (if hdr.gbix then 12 else 0) &&
      ReadLE32(FileBytes(pte, hdr, formatWord, data), if hdr.gbix then 16 else 4) == hdr.chunkSize
  {
    if |data| == n && hdr.chunkSize < 0x1_0000_0000 {
      FileSize(pte, hdr, formatWord, data);
    }
  }

  lemma MulLe(a: nat, b: nat, c: nat, d: nat)
    requires a <= c && b <= d
    ensures a * b <= c * d
  {
  }

  /** With 16-bit dimensions (the header stores them as 16-bit fields) and
      at most 256 codebook entries, the `unsigned` chunk size of a
      compressed texture never wraps. */
  lemma ChunkFits(w: nat, h: nat, mips: bool, small: bool, cs: nat)
    requires w < 0x1_0000 && h < 0x1_0000 && cs <= 256
    ensures (w * h / 4) * 4 < 0x1_0000_0000
    ensures 16 + IndexCount(w, h, mips) + (if small then 8 * cs else 2048) < 0x1_0000_0000
  {
    MulLe(w, h, 0xFFFF, 0xFFFF);
  }

  /** `Write32LE` and `Write16LE`: little-endian bytes of the value's low 32
      or 16 bits. */
  function LE32(v: nat): (s: seq<bv8>)
    ensures |s| == 4
  {
    [(v % 256) as bv8, (v / 0x100 % 256) as bv8, (v / 0x1_0000 % 256) as bv8, (v / 0x100_0000 % 256) as bv8]
  }

  function LE16(v: nat): (s: seq<bv8>)
    ensures |s| == 2
  {
    [(v % 256) as bv8, (v / 0x100 % 256) as bv8]
  }

  /** A 32-bit little-endian field of `s` at `i`. */
  function ReadLE32(s: seq<bv8>, i: nat): nat
    requires i + 4 <= |s|
  {
    s[i] as nat + 0x100 * s[i + 1] as nat + 0x1_0000 * s[i + 2] as nat + 0x100_0000 * s[i + 3] as nat
  }

  /** Reading a written field gives the value modulo 2^32. */
  lemma LE32RoundTrip(v: nat)
    ensures ReadLE32(LE32(v), 0) == v % 0x1_0000_0000
  {
    var s := LE32(v);
    var r0, r1, r2, r3 := v % 256, v / 0x100 % 256, v / 0x1_0000 % 256, v / 0x100_0000 % 256;
    ByteOf(r0);
    ByteOf(r1);
    ByteOf(r2);
    ByteOf(r3);
    assert ReadLE32(s, 0) == r0 + 0x100 * r1 + 0x1_0000 * r2 + 0x100_0000 * r3;
    Digits(v);
  }

  lemma ByteOf(x: nat)
    requires x < 256
    ensures (x as bv8) as nat == x
  {
    ByteMod(x);
  }

  lemma ByteMod(x: nat)
    requires x < 256
    ensures x % 256 == x
  {
  }

  lemma Digits(v: nat)
    ensures v % 0x1_0000_0000 == v % 256 + 0x100 * (v / 0x100 % 256) + 0x1_0000 * (v / 0x1_0000 % 256) +
                                 0x100_0000 * (v / 0x100_0000 % 256)
  {
    var q1, q2, q3, q4 := v / 0x100, v / 0x1_0000, v / 0x100_0000, v / 0x1_0000_0000;
    assert q2 == q1 / 256;
    assert q3 == q2 / 256;
    assert q4 == q3 / 256;
    assert v == v % 256 + 256 * q1;
    assert q1 == q1 % 256 + 256 * q2;
    assert q2 == q2 % 256 + 256 * q3;
    assert q3 == q3 % 256 + 256 * q4;
  }

  /** The `WriteFourCC` tags, as ASCII bytes. */
  const GbixTag: seq<bv8> := [0x47, 0x42, 0x49, 0x58]
  const PvrtTag: seq<bv8> := [0x50, 0x56, 0x52, 0x54]

  /** The bytes `fPvrWrite` writes: the GBIX block when the codebook size is
      not 256, then the PVRT chunk header (chunk size, the format word
      `pvrfmt | pixel_format`, width, height) and the texture data. The
      numeric format word is a parameter, as the `FILE_PVR_*` constants
      are not part of this model. */
  function FileBytes(pte: Encoder, hdr: Header, formatWord: nat, data: seq<bv8>): seq<bv8>
  {
    GbixBlock(hdr.gbix, pte.codebookSize) + PvrtTag + LE32(hdr.chunkSize) + ChunkRest(pte, formatWord, data)
  }

  /** `GBIX`, a zero word and the codebook size, when present. */
  function GbixBlock(present: bool, codebookSize: nat): (s: seq<bv8>)
    ensures |s| == if present then 12 else 0
  {
    if present then GbixTag + LE32(0) + LE32(codebookSize) else []
  }

  /** The chunk header after the chunk size, then the texture data. */
  function ChunkRest(pte: Encoder, formatWord: nat, data: seq<bv8>): (s: seq<bv8>)
    ensures |s| == 8 + |data|
  {
    LE32(formatWord) + LE16(pte.w) + LE16(pte.h) + data
  }

  /** The closing assertion of `fPvrWrite`: when the texture data is the
      chunk size less the 16 header bytes, the file is the chunk size long,
      plus 12 with a GBIX block; and the chunk size field reads back. */
  lemma FileSize(pte: Encoder, hdr: Header, formatWord: nat, data: seq<bv8>)
    requires 16 <= hdr.chunkSize < 0x1_0000_0000 && |data| == hdr.chunkSize - 16
    ensures |FileBytes(pte, hdr, formatWord, data)| == hdr.chunkSize + (if hdr.gbix then 12 else 0)
    ensures var at := if hdr.gbix then 16 else 4;
      ReadLE32(FileBytes(pte, hdr, formatWord, data), at) == hdr.chunkSize
  {
    var prefix := GbixBlock(hdr.gbix, pte.codebookSize) + PvrtTag;
    FieldAt(prefix, hdr.chunkSize, ChunkRest(pte, formatWord, data));
  }

  /** A 32-bit field written after `prefix` reads back at `|prefix|`. */
  lemma FieldAt(prefix: seq<bv8>, v: nat, rest: seq<bv8>)
    requires v < 0x1_0000_0000
    ensures ReadLE32(prefix + LE32(v) + rest, |prefix|) == v
  {
    var field := LE32(v);
    var s := prefix + field + rest;
    SliceMid(prefix, field, rest);
    ReadAt(s, |prefix|, field);
    LE32RoundTrip(v);
    SmallMod(v);
  }

  lemma ReadAt(s: seq<bv8>, i: nat, x: seq<bv8>)
    requires i + 4 <= |s| && s[i..i + 4] == x
    ensures ReadLE32(s, i) == ReadLE32(x, 0)
  {
    assert s[i] == x[0] && s[i + 1] == x[1] && s[i + 2] == x[2] && s[i + 3] == x[3];
  }

  lemma SmallMod(v: nat)
    requires v < 0x1_0000_0000
    ensures v % 0x1_0000_0000 == v
  {
  }

  lemma SliceMid(p: seq<bv8>, x: seq<bv8>, r: seq<bv8>)
    ensures (p + x + r)[|p|..|p| + |x|] == x && |p + x + r| == |p| + |x| + |r|
  {
  }
}
