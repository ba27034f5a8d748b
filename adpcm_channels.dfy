/** The stereo buffer shuffles of the dca3 audio converter.  A stereo PCM
    buffer is split into its two channels before encoding (`deinterleave`),
    and the two encoded halves are then merged back in 8 KiB chunks
    (`interleave_adpcm`), the layout the Dreamcast's streaming player reads. */
module AdpcmChannels {
  import opened Adpcm

  // ---------------------------------------------------------------------------
  // deinterleave
  // ---------------------------------------------------------------------------

  /** The byte size of one channel: half of `size`, rounded up to a
      multiple of 8 KiB, as `((size / 2) + 8191) & ~8191` computes it. */
  function ChannelSize(size: nat): (c: nat)
    ensures c % 8192 == 0 && size / 2 <= c < size / 2 + 8192
  {
    ((size / 2 + 8191) / 8192) * 8192
  }

  /** One channel of a stereo buffer, `len` samples long: the first `pairs`
      samples of lane `lane` (0 = even positions, 1 = odd positions), then
      the zeros `calloc` left. */
  function Lane(samples: seq<int>, pairs: nat, lane: nat, len: nat): (r: seq<int>)
    requires lane < 2 && 2 * pairs <= |samples|
    ensures |r| == len
  {
    seq(len, k requires 0 <= k < len => if k < pairs then samples[2 * k + lane] else 0)
  }

  /** The buffer after `deinterleave(buffer, size)`: the even samples, then
      the odd samples half a channel further, each channel padded with zeros
      to `ChannelSize(size)` bytes; the rest of the buffer is untouched. */
  function Deinterleaved(samples: seq<int>, size: nat): (r: seq<int>)
    requires ChannelSize(size) <= |samples|
    ensures |r| == |samples|
  {
    var half := ChannelSize(size) / 2;
    Lane(samples, size / 4, 0, half) + Lane(samples, size / 4, 1, half) + samples[2 * half..]
  }

  /** `deinterleave`: `buf` holds 16-bit samples, `size` is the byte count of
      the stereo data in it, and `buf` must have room for two channels. */
  method Deinterleave(buf: array<int>, size: nat) returns (channelSize: nat)
    requires ChannelSize(size) <= buf.Length
    modifies buf
    ensures channelSize == ChannelSize(size)
    ensures buf[..] == Deinterleaved(old(buf[..]), size)
  {
    channelSize := ChannelSize(size);
    var half := channelSize / 2;
    ghost var before := buf[..];
    var buf1 := new int[half](_ => 0);
    var buf2 := new int[half](_ => 0);
    var i := 0;
    while i < size / 4
      invariant 0 <= i <= size / 4
      invariant buf[..] == before
      invariant forall k :: 0 <= k < half ==> buf1[k] == (if k < i then before[2 * k] else 0)
      invariant forall k :: 0 <= k < half ==> buf2[k] == (if k < i then before[2 * k + 1] else 0)
    {
      buf1[i] := buf[i * 2 + 0];
      buf2[i] := buf[i * 2 + 1];
      i := i + 1;
    }
    forall k | 0 <= k < half {
      buf[k] := buf1[k];
    }
    forall k | 0 <= k < half {
      buf[half + k] := buf2[k];
    }
    LanesFill(buf[..], before, size / 4, half);
  }

  /** A buffer whose two channel slots hold the lanes of `before`, and whose
      rest is unchanged, is `Deinterleaved(before, …)`. */
  lemma LanesFill(after: seq<int>, before: seq<int>, pairs: nat, half: nat)
    requires |after| == |before| && 2 * pairs <= 2 * half <= |before|
    requires forall k :: 0 <= k < half ==> after[k] == (if k < pairs then before[2 * k] else 0)
    requires forall k :: 0 <= k < half ==> after[half + k] == (if k < pairs then before[2 * k + 1] else 0)
    requires forall k :: 2 * half <= k < |after| ==> after[k] == before[k]
    ensures after == Lane(before, pairs, 0, half) + Lane(before, pairs, 1, half) + before[2 * half..]
  {
    var r := Lane(before, pairs, 0, half) + Lane(before, pairs, 1, half) + before[2 * half..];
    forall k | 0 <= k < |after|
      ensures after[k] == r[k]
    {
      if half <= k < 2 * half {
        assert after[half + (k - half)] == r[k];
      }
    }
  }

  /** Merging the two channels back, sample by sample, from the
      de-interleaved layout with channels `half` samples apart. */
  function Reinterleaved(channels: seq<int>, half: nat, pairs: nat): (r: seq<int>)
    requires pairs <= half && 2 * half <= |channels|
    ensures |r| == 2 * pairs
  {
    seq(2 * pairs, j requires 0 <= j < 2 * pairs => if j % 2 == 0 then channels[j / 2] else channels[half + j / 2])
  }

  /** Where every sample lands: slot `k` of the first channel holds sample
      `2 * k` and slot `k` of the second channel sample `2 * k + 1`, for the
      `size / 4` whole stereo pairs; the slots past them are zero. */
  lemma DeinterleavedAt(samples: seq<int>, size: nat, k: nat)
    requires ChannelSize(size) <= |samples| && k < ChannelSize(size) / 2
    ensures size / 4 <= ChannelSize(size) / 2
    ensures Deinterleaved(samples, size)[k] == if k < size / 4 then samples[2 * k] else 0
    ensures Deinterleaved(samples, size)[ChannelSize(size) / 2 + k] == if k < size / 4 then samples[2 * k + 1] else 0
  {
    var half := ChannelSize(size) / 2;
    assert size / 4 == (size / 2) / 2;
    var a, b := Lane(samples, size / 4, 0, half), Lane(samples, size / 4, 1, half);
    assert Deinterleaved(samples, size)[k] == a[k];
    assert Deinterleaved(samples, size)[half + k] == b[k];
  }

  /** De-interleaving loses nothing but a trailing odd sample: merging the
      two channels back gives the first `2 * (size / 4)` samples. */
  lemma DeinterleaveRoundTrip(samples: seq<int>, size: nat)
    requires ChannelSize(size) <= |samples|
    ensures size / 4 <= ChannelSize(size) / 2
    ensures Reinterleaved(Deinterleaved(samples, size), ChannelSize(size) / 2, size / 4) == samples[..2 * (size / 4)]
  {
    var half, pairs := ChannelSize(size) / 2, size / 4;
    assert pairs == (size / 2) / 2;
    var d := Deinterleaved(samples, size);
    forall j | 0 <= j < 2 * pairs
      ensures Reinterleaved(d, half, pairs)[j] == samples[j]
    {
      assert j == 2 * (j / 2) + j % 2;
      DeinterleavedAt(samples, size, j / 2);
    }
    assert Reinterleaved(d, half, pairs) == samples[..2 * pairs];
  }

  /** Every slot of both channels past the whole stereo pairs is zero. */
  lemma DeinterleavePadding(samples: seq<int>, size: nat)
    requires ChannelSize(size) <= |samples|
    ensures forall k :: size / 4 <= k < ChannelSize(size) / 2 ==> Deinterleaved(samples, size)[k] == 0
    ensures forall k :: ChannelSize(size) / 2 + size / 4 <= k < ChannelSize(size) ==> Deinterleaved(samples, size)[k] == 0
  {
    var half, pairs := ChannelSize(size) / 2, size / 4;
    forall k | pairs <= k < half
      ensures Deinterleaved(samples, size)[k] == 0
    {
      DeinterleavedAt(samples, size, k);
    }
    forall k | half + pairs <= k < 2 * half
      ensures Deinterleaved(samples, size)[k] == 0
    {
      DeinterleavedAt(samples, size, k - half);
    }
  }

  // ---------------------------------------------------------------------------
  // interleave_adpcm
  // ---------------------------------------------------------------------------

  /** A chunk of at most 8 KiB, zero-filled to 8 KiB as the `memset` before
      each `memcpy` leaves it. */
  function Padded(s: seq<Byte>): (r: seq<Byte>)
    requires |s| <= 8192
    ensures |r| == 8192
  {
    s + Zeros(8192 - |s|)
  }

  function Zeros(n: nat): (r: seq<Byte>)
    ensures |r| == n
  {
    if n == 0 then [] else [0] + Zeros(n - 1)
  }

  lemma {:induction false} ZerosAt(n: nat, i: nat)
    requires i < n
    ensures Zeros(n)[i] == 0
  {
    if i > 0 {
      ZerosAt(n - 1, i - 1);
    }
  }

  /** The interleaved output from offset `c` of each half on: a chunk of the
      first half, the matching chunk of the second half, and so on. */
  function InterleavedFrom(first: seq<Byte>, second: seq<Byte>, c: nat): seq<Byte>
    requires |first| == |second|
    decreases |first| - c
  {
    if c >= |first| then []
    else
      var n := if |first| - c > 8192 then 8192 else |first| - c;
      Padded(first[c..c + n]) + Padded(second[c..c + n]) + InterleavedFrom(first, second, c + n)
  }

  /** The number of 8 KiB chunks `n` bytes fill, the last one partly. */
  function Chunks(n: nat): nat { (n + 8191) / 8192 }

  lemma ChunksStep(r: nat)
    requires r > 0
    ensures Chunks(r) >= 1 && Chunks(r - (if r > 8192 then 8192 else r)) == Chunks(r) - 1
    ensures 16384 * Chunks(r) == 16384 * Chunks(r - (if r > 8192 then 8192 else r)) + 16384
  {
  }

  /** The byte count `interleave_adpcm(buffer, bytes)` returns. */
  function InterleavedLength(bytes: nat): nat { 16384 * Chunks(bytes / 2) }

  /** Each pair of chunks is 16 KiB, one pair per started 8 KiB of a half. */
  lemma {:induction false} InterleavedFromLength(first: seq<Byte>, second: seq<Byte>, c: nat)
    requires |first| == |second| && c <= |first|
    ensures |InterleavedFrom(first, second, c)| == 16384 * Chunks(|first| - c)
    decreases |first| - c
  {
    if c < |first| {
      var n := if |first| - c > 8192 then 8192 else |first| - c;
      InterleavedFromLength(first, second, c + n);
      if n == 8192 {
        assert Chunks(|first| - c) == Chunks(|first| - (c + n)) + 1;
      } else {
        assert Chunks(|first| - c) == 1 && Chunks(|first| - (c + n)) == 0;
      }
    }
  }

  /** The source's sanity check: the output never exceeds the input by more
      than 64 KiB (in fact by less than 16 KiB). */
  lemma InterleavedLengthBound(bytes: nat)
    ensures bytes / 2 * 2 <= InterleavedLength(bytes) < bytes + 16384
    ensures InterleavedLength(bytes) <= bytes + 64 * 1024
  {
    var h := bytes / 2;
    var q := Chunks(h);
    assert q * 8192 <= h + 8191 < q * 8192 + 8192;
  }

  /** Where every byte lands: byte `j` of the `k`-th 16 KiB pair is byte
      `8192 * k + j` of the first half, and byte `8192 + j` is the same byte
      of the second half; past the end of the halves it is zero. */
  lemma InterleavedAt(first: seq<Byte>, second: seq<Byte>, k: nat, j: nat)
    requires |first| == |second| && k < Chunks(|first|) && j < 8192
    ensures |InterleavedFrom(first, second, 0)| == 16384 * Chunks(|first|)
    ensures InterleavedFrom(first, second, 0)[16384 * k + j]
      == if 8192 * k + j < |first| then first[8192 * k + j] else 0
    ensures InterleavedFrom(first, second, 0)[16384 * k + 8192 + j]
      == if 8192 * k + j < |second| then second[8192 * k + j] else 0
  {
    InterleavedFromLength(first, second, 0);
    InterleavedFromAt(first, second, 0, k, j);
  }

  lemma {:induction false} InterleavedFromAt(first: seq<Byte>, second: seq<Byte>, c: nat, k: nat, j: nat)
    requires |first| == |second| && c + 8192 * k < |first| && j < 8192
    ensures 16384 * k + 8192 + j < |InterleavedFrom(first, second, c)|
    ensures InterleavedFrom(first, second, c)[16384 * k + j]
      == if c + 8192 * k + j < |first| then first[c + 8192 * k + j] else 0
    ensures InterleavedFrom(first, second, c)[16384 * k + 8192 + j]
      == if c + 8192 * k + j < |second| then second[c + 8192 * k + j] else 0
    decreases k
  {
    if k == 0 {
      FirstPairAt(first, second, c, j);
    } else {
      var rest := InterleavedFrom(first, second, c + 8192);
      var i := 16384 * (k - 1) + j;
      assert 16384 * k + j == 16384 + i && c + 8192 * k + j == c + 8192 + 8192 * (k - 1) + j;
      InterleavedFromAt(first, second, c + 8192, k - 1, j);
      LaterPairAt(first, second, c, i);
      LaterPairAt(first, second, c, i + 8192);
    }
  }

  /** The first pair of chunks from offset `c` on. */
  lemma FirstPairAt(first: seq<Byte>, second: seq<Byte>, c: nat, j: nat)
    requires |first| == |second| && c < |first| && j < 8192
    ensures 16384 <= |InterleavedFrom(first, second, c)|
    ensures InterleavedFrom(first, second, c)[j] == if c + j < |first| then first[c + j] else 0
    ensures InterleavedFrom(first, second, c)[8192 + j] == if c + j < |second| then second[c + j] else 0
  {
    var n := if |first| - c > 8192 then 8192 else |first| - c;
    var x, y := first[c..c + n], second[c..c + n];
    var rest := InterleavedFrom(first, second, c + n);
    assert InterleavedFrom(first, second, c) == Padded(x) + Padded(y) + rest;
    PaddedAt(x, j);
    PaddedAt(y, j);
    PairAt(Padded(x), Padded(y), rest, j);
  }

  /** Past the first pair, a full 8 KiB of each half has been consumed. */
  lemma LaterPairAt(first: seq<Byte>, second: seq<Byte>, c: nat, i: nat)
    requires |first| == |second| && c + 8192 < |first|
    requires i < |InterleavedFrom(first, second, c + 8192)|
    ensures 16384 + i < |InterleavedFrom(first, second, c)|
    ensures InterleavedFrom(first, second, c)[16384 + i] == InterleavedFrom(first, second, c + 8192)[i]
  {
    var x, y := first[c..c + 8192], second[c..c + 8192];
    var rest := InterleavedFrom(first, second, c + 8192);
    assert InterleavedFrom(first, second, c) == Padded(x) + Padded(y) + rest;
    RestAt(Padded(x), Padded(y), rest, i);
  }

  lemma PaddedAt(s: seq<Byte>, j: nat)
    requires |s| <= 8192 && j < 8192
    ensures Padded(s)[j] == if j < |s| then s[j] else 0
  {
    if j >= |s| {
      ZerosAt(8192 - |s|, j - |s|);
    }
  }

  lemma PairAt(a: seq<Byte>, b: seq<Byte>, rest: seq<Byte>, j: nat)
    requires |a| == |b| == 8192 && j < 8192
    ensures (a + b + rest)[j] == a[j] && (a + b + rest)[8192 + j] == b[j]
  {
  }

  lemma RestAt(a: seq<Byte>, b: seq<Byte>, rest: seq<Byte>, i: nat)
    requires |a| == |b| == 8192 && i < |rest|
    ensures (a + b + rest)[16384 + i] == rest[i]
  {
  }

  lemma SliceOfSlice(s: seq<Byte>, a: nat, b: nat, i: nat, j: nat)
    requires a <= b <= |s| && i <= j <= b - a
    ensures s[a..b][i..j] == s[a + i..a + j]
  {
    assert forall k :: 0 <= k < j - i ==> s[a..b][i..j][k] == s[a + i + k];
  }

  /** The first `n` bytes of `src` from `from` on, zero-padded, written as a
      whole chunk at `at` (the `memset` and `memcpy` of one chunk). */
  method FillChunk(dst: array<Byte>, at: nat, src: array<Byte>, from: nat, n: nat)
    requires dst != src && n <= 8192 && at + 8192 <= dst.Length && from + n <= src.Length
    modifies dst
    ensures dst[..at + 8192] == old(dst[..at]) + Padded(src[from..from + n])
    ensures dst[at + 8192..] == old(dst[at + 8192..])
  {
    ghost var p := Padded(src[from..from + n]);
    forall j | 0 <= j < 8192 {
      dst[at + j] := if j < n then src[from + j] else 0;
    }
    forall j | 0 <= j < 8192
      ensures dst[at + j] == p[j]
    {
      PaddedAt(src[from..from + n], j);
    }
    assert dst[..at + 8192] == old(dst[..at]) + p;
  }

  /** The output so far, followed by what is left to produce, is the whole
      interleaved output. */
  ghost predicate Progress(buf: array<Byte>, ptr: nat, first: seq<Byte>, second: seq<Byte>, consumed: nat, all: seq<Byte>)
    reads buf
  {
    ptr <= buf.Length && |first| == |second| && buf[..ptr] + InterleavedFrom(first, second, consumed) == all
  }

  /** One round of the `interleave_adpcm` loop: a chunk of each half. */
  method CopyPair(buf: array<Byte>, ptr: nat, buffer: array<Byte>, half: nat, consumed: nat, n: nat,
                  ghost first: seq<Byte>, ghost second: seq<Byte>, ghost all: seq<Byte>)
    requires buf != buffer && 2 * half <= buffer.Length && ptr + 16384 <= buf.Length
    requires first == buffer[..half] && second == buffer[half..2 * half]
    requires consumed < half && n == (if half - consumed > 8192 then 8192 else half - consumed)
    requires Progress(buf, ptr, first, second, consumed, all)
    modifies buf
    ensures Progress(buf, ptr + 16384, first, second, consumed + n, all)
  {
    ghost var done := buf[..ptr];
    ghost var x, y := first[consumed..consumed + n], second[consumed..consumed + n];
    SliceOfSlice(buffer[..], 0, half, consumed, consumed + n);
    SliceOfSlice(buffer[..], half, 2 * half, consumed, consumed + n);
    FillChunk(buf, ptr, buffer, consumed, n);
    ghost var mid := buf[..ptr + 8192];
    assert mid == done + Padded(x);
    FillChunk(buf, ptr + 8192, buffer, half + consumed, n);
    assert buf[..ptr + 16384] == mid + Padded(y);
    InterleavedFromStep(first, second, consumed);
    Regroup(done, Padded(x), Padded(y), InterleavedFrom(first, second, consumed + n), all);
  }

  /** One chunk pair of the interleaved output, and what follows it. */
  lemma InterleavedFromStep(first: seq<Byte>, second: seq<Byte>, c: nat)
    requires |first| == |second| && c < |first|
    ensures var n := if |first| - c > 8192 then 8192 else |first| - c;
      InterleavedFrom(first, second, c)
        == Padded(first[c..c + n]) + Padded(second[c..c + n]) + InterleavedFrom(first, second, c + n)
  {
  }

  lemma Regroup(done: seq<Byte>, p: seq<Byte>, q: seq<Byte>, rest: seq<Byte>, all: seq<Byte>)
    requires done + (p + q + rest) == all
    ensures done + p + q + rest == all
  {
    assert done + (p + q + rest) == done + p + q + rest;
  }

  /** `interleave_adpcm`: the first `bytes` bytes of `buffer` hold the two
      encoded channels one after the other; the merged chunks replace them.
      The caller's buffer must have room for the padded output. */
  method InterleaveAdpcm(buffer: array<Byte>, bytes: nat) returns (total: nat)
    requires bytes <= buffer.Length && InterleavedLength(bytes) <= buffer.Length
    modifies buffer
    ensures total == InterleavedLength(bytes) && total <= bytes + 64 * 1024
    ensures buffer[..total] == InterleavedFrom(old(buffer[..bytes / 2]), old(buffer[bytes / 2..2 * (bytes / 2)]), 0)
    ensures buffer[total..] == old(buffer[total..])
  {
    InterleavedLengthBound(bytes);
    var buf := new Byte[bytes + 64 * 1024](_ => 0);
    total := MergeHalves(buffer, bytes / 2, buf);
    CopyBack(buffer, buf, total);
  }

  /** The loop of `interleave_adpcm`, which fills the scratch buffer `buf`
      with the chunks of the two halves of `buffer`. */
  method MergeHalves(buffer: array<Byte>, half: nat, buf: array<Byte>) returns (total: nat)
    requires buf != buffer && 2 * half <= buffer.Length && 16384 * Chunks(half) <= buf.Length
    modifies buf
    ensures total == 16384 * Chunks(half)
    ensures buf[..total] == InterleavedFrom(buffer[..half], buffer[half..2 * half], 0)
  {
    ghost var first, second := buffer[..half], buffer[half..2 * half];
    ghost var all := InterleavedFrom(first, second, 0);
    var ptr: nat, consumed: nat, remaining: nat := 0, 0, half;
    total := 0;
    assert buf[..0] + all == all;
    while remaining > 0
      invariant consumed + remaining == half && ptr == total
      invariant ptr + 16384 * Chunks(remaining) == 16384 * Chunks(half)
      invariant Progress(buf, ptr, first, second, consumed, all)
    {
      var bytesToCopy := if remaining > 8192 then 8192 else remaining;
      ChunksStep(remaining);
      assert ptr + 16384 <= buf.Length;
      CopyPair(buf, ptr, buffer, half, consumed, bytesToCopy, first, second, all);
      ptr := ptr + 16384;
      consumed := consumed + bytesToCopy;
      remaining := remaining - bytesToCopy;
      total := total + 16384;
    }
    assert InterleavedFrom(first, second, half) == [];
  }

  /** The closing `memcpy(buffer, buf, total_bytes)`. */
  method CopyBack(dst: array<Byte>, src: array<Byte>, n: nat)
    requires dst != src && n <= dst.Length && n <= src.Length
    modifies dst
    ensures dst[..n] == src[..n] && dst[n..] == old(dst[n..])
  {
    forall j | 0 <= j < n {
      dst[j] := src[j];
    }
  }
}
