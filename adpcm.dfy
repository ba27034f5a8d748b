/** The two ADPCM codecs of the dca3 audio converter: the IMA ADPCM block
    decoder that reads IMA-compressed WAV data, and the Yamaha YMZ280B/AICA
    encoder that produces the Dreamcast sound chip's 4-bit format.  Decoder
    state that the C code passes by pointer is a class (`ImaDecoder`) or a
    pair of in/out values (`YmzStep`); buffers are arrays. */
module Adpcm {

  /** An unsigned byte. */
  type Byte = b: int | 0 <= b < 256

  const MinInt16: int := -32768
  const MaxInt16: int := 32767

  predicate IsInt16(x: int) { MinInt16 <= x <= MaxInt16 }

  function Abs(x: int): nat { if x < 0 then -x else x }

  /** `limit`: the lower bound is tested first, then the upper one. */
  function Limit(val: int, lo: int, hi: int): (r: int)
    ensures lo <= hi ==> lo <= r <= hi
    ensures lo <= val <= hi ==> r == val
    ensures val < lo ==> r == lo
  {
    if val < lo then lo else if val > hi then hi else val
  }

  /** Clamping moves every value towards the range and never reorders two values. */
  lemma LimitMonotone(v: int, w: int, lo: int, hi: int)
    requires v <= w && lo <= hi
    ensures Limit(v, lo, hi) <= Limit(w, lo, hi)
    ensures Limit(Limit(v, lo, hi), lo, hi) == Limit(v, lo, hi)
  {
  }

  /** The `CLAMP(x, low, high)` macro: unlike `limit` it tests the upper bound first. */
  function Clamp(x: int, low: int, high: int): (r: int)
    ensures low <= high ==> low <= r <= high
    ensures low <= x <= high ==> r == x
  {
    if x > high then high else if x < low then low else x
  }

  // ---------------------------------------------------------------------------
  // IMA ADPCM decoder
  // ---------------------------------------------------------------------------

  /** The 89-entry step-size table of the IMA ADPCM recommendation. */
  const StepSizeTable: seq<nat> := [
    7, 8, 9, 10, 11, 12, 13, 14, 16, 17, 19, 21, 23, 25, 28, 31,
    34, 37, 41, 45, 50, 55, 60, 66, 73, 80, 88, 97, 107, 118, 130, 143,
    157, 173, 190, 209, 230, 253, 279, 307, 337, 371, 408, 449, 494, 544, 598, 658,
    724, 796, 876, 963, 1060, 1166, 1282, 1411, 1552, 1707, 1878, 2066, 2272, 2499, 2749, 3024,
    3327, 3660, 4026, 4428, 4871, 5358, 5894, 6484, 7132, 7845, 8630, 9493, 10442, 11487, 12635, 13899,
    15289, 16818, 18500, 20350, 22385, 24623, 27086, 29794, 32767]

  /** How each nibble moves the step index. */
  const IndexTable: seq<int> := [-1, -1, -1, -1, 2, 4, 6, 8, -1, -1, -1, -1, 2, 4, 6, 8]

  /** A step index the step-size table can be read at. */
  type StepIndex = i: int | 0 <= i <= 88

  /** A 4-bit ADPCM code. */
  type Nibble = n: int | 0 <= n < 16

  /** Bit `k` of a nibble, as the C code tests it with `nibble & (1 << k)`. */
  function NibbleBit(nibble: Nibble, k: nat): bool
    requires k < 4
  {
    if k == 0 then nibble % 2 == 1
    else if k == 1 then nibble % 4 >= 2
    else if k == 2 then nibble % 8 >= 4
    else nibble >= 8
  }

  /** The difference a nibble adds to or subtracts from the predictor, built
      from shifted copies of the step. */
  function ImaDiff(step: nat, nibble: Nibble): nat
  {
    step / 8
      + (if NibbleBit(nibble, 0) then step / 4 else 0)
      + (if NibbleBit(nibble, 1) then step / 2 else 0)
      + (if NibbleBit(nibble, 2) then step else 0)
  }

  /** The shifts truncate: the difference is the exact `(2m+1)/8` of the step,
      for the magnitude `m` in the low three bits, rounded down by at most
      17/8. */
  lemma ImaDiffApprox(step: nat, nibble: Nibble)
    ensures 8 * ImaDiff(step, nibble) <= (1 + 2 * (nibble % 8)) * step <= 8 * ImaDiff(step, nibble) + 17
  {
    var m := nibble % 8;
    assert m == (if NibbleBit(nibble, 0) then 1 else 0) + (if NibbleBit(nibble, 1) then 2 else 0)
      + (if NibbleBit(nibble, 2) then 4 else 0);
    var a := step / 8;
    var r := step % 8;
    assert step / 4 == 2 * a + r / 4;
    assert step / 2 == 4 * a + r / 2;
    assert (1 + 2 * m) * step == step + (if NibbleBit(nibble, 0) then 2 * step else 0)
      + (if NibbleBit(nibble, 1) then 4 * step else 0) + (if NibbleBit(nibble, 2) then 8 * step else 0);
  }

  /** The index table moves down by one for magnitudes 0 to 3 and up by
      2, 4, 6 or 8 for magnitudes 4 to 7, whatever the sign bit. */
  lemma IndexTableEntry(nibble: Nibble)
    ensures IndexTable[nibble] == if nibble % 8 < 4 then -1 else 2 * (nibble % 8 - 3)
  {
    if nibble < 4 {
    } else if nibble == 4 {
    } else if nibble == 5 {
    } else if nibble == 6 {
    } else if nibble == 7 {
    } else if nibble < 12 {
    } else if nibble == 12 {
    } else if nibble == 13 {
    } else if nibble == 14 {
    } else {
    }
  }

  /** Bits 0 to 2 of a nibble do not depend on bit 3. */
  lemma LowBits(nibble: Nibble)
    requires nibble < 8
    ensures NibbleBit(nibble, 0) == NibbleBit(nibble + 8, 0) && NibbleBit(nibble, 1) == NibbleBit(nibble + 8, 1)
      && NibbleBit(nibble, 2) == NibbleBit(nibble + 8, 2) && !NibbleBit(nibble, 3) && NibbleBit(nibble + 8, 3)
  {
    if nibble == 0 {
    } else if nibble == 1 {
    } else if nibble == 2 {
    } else if nibble == 3 {
    } else if nibble == 4 {
    } else if nibble == 5 {
    } else if nibble == 6 {
    } else {
    }
  }

  /** The state the C code keeps in an `ImaAdpcmDecoder` struct. */
  datatype ImaState = ImaState(predictor: int, stepIndex: StepIndex)

  function Min(a: int, b: int): int { if a <= b then a else b }
  function Max(a: int, b: int): int { if a >= b then a else b }

  /** One call of `ima_decode_nibble` on the decoder state. */
  function ImaStep(s: ImaState, nibble: Nibble): (r: ImaState)
    ensures IsInt16(r.predictor)
    ensures IsInt16(s.predictor) && nibble < 8 ==> r.predictor >= s.predictor
    ensures IsInt16(s.predictor) && nibble >= 8 ==> r.predictor <= s.predictor
    ensures Abs(r.predictor - Limit(s.predictor, MinInt16, MaxInt16)) <= ImaDiff(StepSizeTable[s.stepIndex], nibble)
    ensures nibble % 8 < 4 ==> r.stepIndex == Max(s.stepIndex - 1, 0)
    ensures nibble % 8 >= 4 ==> r.stepIndex == Min(s.stepIndex + 2 * (nibble % 8 - 3), 88)
  {
    IndexTableEntry(nibble);
    var diff := ImaDiff(StepSizeTable[s.stepIndex], nibble);
    var moved := if NibbleBit(nibble, 3) then s.predictor - diff else s.predictor + diff;
    var predictor := if moved > MaxInt16 then MaxInt16 else if moved < MinInt16 then MinInt16 else moved;
    var index := s.stepIndex + IndexTable[nibble];
    var index' := if index < 0 then 0 else index;
    ImaState(predictor, if index' > 88 then 88 else index')
  }

  /** Away from saturation, a nibble and the same nibble with bit 3 flipped
      move the predictor by the same amount in opposite directions and move
      the step index alike. */
  lemma ImaSignSymmetry(s: ImaState, nibble: Nibble)
    requires nibble < 8
    requires IsInt16(s.predictor - ImaDiff(StepSizeTable[s.stepIndex], nibble))
    requires IsInt16(s.predictor + ImaDiff(StepSizeTable[s.stepIndex], nibble))
    ensures ImaStep(s, nibble).predictor - s.predictor == s.predictor - ImaStep(s, nibble + 8).predictor
    ensures ImaStep(s, nibble).stepIndex == ImaStep(s, nibble + 8).stepIndex
  {
    LowBits(nibble);
    IndexTableEntry(nibble);
    IndexTableEntry(nibble + 8);
    assert ImaDiff(StepSizeTable[s.stepIndex], nibble) == ImaDiff(StepSizeTable[s.stepIndex], nibble + 8);
  }

  /** An `ImaAdpcmDecoder` struct, updated in place through its pointer. */
  class ImaDecoder {
    var predictor: int
    var stepIndex: int

    /** The step index can be read at in the step-size table. */
    predicate Valid()
      reads this
    {
      0 <= stepIndex <= 88
    }

    function State(): ImaState
      reads this
      requires Valid()
    {
      ImaState(predictor, stepIndex)
    }

    /** The storage of a decoder before `ima_initialize_decoder` runs. */
    constructor()
      ensures Valid() && State() == ImaState(0, 0)
    {
      predictor := 0;
      stepIndex := 0;
    }

    /** `ima_initialize_decoder`. */
    method Initialize(initialPredictor: int, initialStepIndex: int)
      modifies this
      ensures predictor == initialPredictor && stepIndex == initialStepIndex
    {
      predictor := initialPredictor;
      stepIndex := initialStepIndex;
    }

    /** `ima_decode_nibble`: the new predictor is also the decoded sample. */
    method DecodeNibble(nibble: Nibble) returns (sample: int)
      requires Valid()
      modifies this
      ensures Valid() && State() == ImaStep(old(State()), nibble)
      ensures sample == predictor
    {
      var step := StepSizeTable[stepIndex];
      var diff := step / 8;
      if NibbleBit(nibble, 0) { diff := diff + step / 4; }
      if NibbleBit(nibble, 1) { diff := diff + step / 2; }
      if NibbleBit(nibble, 2) { diff := diff + step; }
      assert diff == ImaDiff(step, nibble);
      if NibbleBit(nibble, 3) {
        predictor := predictor - diff;
      } else {
        predictor := predictor + diff;
      }
      if predictor > 32767 {
        predictor := 32767;
      } else if predictor < -32768 {
        predictor := -32768;
      }
      assert predictor == ImaStep(old(State()), nibble).predictor;
      stepIndex := stepIndex + IndexTable[nibble];
      if stepIndex < 0 { stepIndex := 0; }
      if stepIndex > 88 { stepIndex := 88; }
      sample := predictor;
    }
  }

  // ---------------------------------------------------------------------------
  // IMA ADPCM blocks
  // ---------------------------------------------------------------------------

  /** A decoded sample, and whether the decoder compares its output count
      with the buffer limit right after writing it. */
  datatype Sample = Sample(value: Int16, checkpoint: bool)

  /** A value an `int16_t` holds. */
  type Int16 = x: int | MinInt16 <= x <= MaxInt16

  /** `(hi << 8) | lo` stored in an `int16_t`. */
  function Int16Of(lo: Byte, hi: Byte): (r: int)
    ensures IsInt16(r)
    ensures (r + 65536) % 65536 == 256 * hi + lo
  {
    var v := 256 * hi + lo;
    if v >= 32768 then v - 65536 else v
  }

  function LowNibble(b: Byte): Nibble { b % 16 }
  function HighNibble(b: Byte): Nibble { b / 16 }

  /** `byte >> 4` when `hi`, `byte & 0x0F` otherwise. */
  function NibbleOf(b: Byte, hi: bool): Nibble
  {
    if hi then HighNibble(b) else LowNibble(b)
  }

  /** A nibble decoder whose predictor stays in 16 bits: `ImaStep` in the
      converter.  The block layout below is stated for any such decoder,
      since it does not depend on what the nibbles decode to. */
  type StepFn = f: (ImaState, Nibble) -> ImaState | forall s, n :: IsInt16(f(s, n).predictor) witness ImaStep

  /** The block layouts the decoder can read without running past a block:
      a mono header is 4 bytes; a stereo block is its 8-byte header followed
      by groups of 8 bytes (4 for each channel). */
  predicate BlockShape(channels: int, blockSize: int)
  {
    if channels == 2 then blockSize >= 8 && blockSize % 8 == 0 else channels == 1 && blockSize >= 4
  }

  /** The number of 8-byte groups after a stereo header. */
  function Groups(blockSize: int): (g: nat)
    requires blockSize >= 8 && blockSize % 8 == 0
    ensures blockSize == 8 + 8 * g
  {
    (blockSize - 8) / 8
  }

  /** Both header step indices of the block at `i` index the step table. */
  predicate HeaderOk(input: seq<Byte>, i: int, channels: int)
    requires 0 <= i && i + (if channels == 2 then 7 else 3) <= |input|
  {
    input[i + 2] <= 88 && (channels == 2 ==> input[i + 6] <= 88)
  }

  /** Every whole block from `i` on has valid headers. */
  predicate HeadersFrom(input: seq<Byte>, i: nat, inputSize: int, channels: int, blockSize: int)
    requires inputSize <= |input| && BlockShape(channels, blockSize)
    decreases inputSize - i
  {
    i + blockSize > inputSize || (HeaderOk(input, i, channels) && HeadersFrom(input, i + blockSize, inputSize, channels, blockSize))
  }

  /** The samples a mono block yields from byte `j` to `end`: low nibble,
      then high nibble, compared with the limit after each pair. */
  function MonoFrom(step: StepFn, s: ImaState, input: seq<Byte>, j: nat, end: int): (r: seq<Sample>)
    requires end <= |input|
    ensures |r| == 2 * Max(end - j, 0)
    ensures forall p :: 0 <= p < |r| ==> (r[p].checkpoint <==> p % 2 == 1)
    decreases end - j
  {
    if j >= end then []
    else
      var s1 := step(s, LowNibble(input[j]));
      var s2 := step(s1, HighNibble(input[j]));
      [Sample(s1.predictor, false), Sample(s2.predictor, true)] + MonoFrom(step, s2, input, j + 1, end)
  }

  /** The samples a stereo block yields from `g` groups of 8 bytes
      starting at `j`, resuming at byte `k` of the first group and at its
      high nibbles when `hi`: byte `k` carries the left channel and byte
      `k + 4` the right, and the limit is compared after each left-right
      pair. */
  function StereoFrom(step: StepFn, l: ImaState, r: ImaState, input: seq<Byte>, j: nat, k: nat, hi: bool, g: nat): (out: seq<Sample>)
    requires j <= k <= j + 4 && (k == j + 4 ==> !hi) && j + 8 * g <= |input|
    decreases g, 2 * (j + 4 - k) - (if hi then 1 else 0)
  {
    if g == 0 then []
    else if k == j + 4 then StereoFrom(step, l, r, input, j + 8, j + 8, false, g - 1)
    else
      var l' := step(l, NibbleOf(input[k], hi));
      var r' := step(r, NibbleOf(input[k + 4], hi));
      [Sample(l'.predictor, false), Sample(r'.predictor, true)]
        + StereoFrom(step, l', r', input, j, if hi then k + 1 else k, !hi, g)
  }

  /** A stereo run yields 16 samples per group, in left-right pairs that are
      each followed by a comparison. */
  lemma StereoShape(step: StepFn, l: ImaState, r: ImaState, input: seq<Byte>, j: nat, k: nat, hi: bool, g: nat)
    requires j <= k <= j + 4 && (k == j + 4 ==> !hi) && j + 8 * g <= |input|
    ensures var out := StereoFrom(step, l, r, input, j, k, hi, g);
      && |out| == (if g == 0 then 0 else 16 * (g - 1) + 4 * (j + 4 - k) - (if hi then 2 else 0))
      && (forall p :: 0 <= p < |out| ==> (out[p].checkpoint <==> p % 2 == 1))
  {
    StereoLength(step, l, r, input, j, k, hi, g);
    forall p | 0 <= p < |StereoFrom(step, l, r, input, j, k, hi, g)|
      ensures StereoFrom(step, l, r, input, j, k, hi, g)[p].checkpoint <==> p % 2 == 1
    {
      StereoCheckpoint(step, l, r, input, j, k, hi, g, p);
    }
  }

  lemma {:induction false} StereoLength(step: StepFn, l: ImaState, r: ImaState, input: seq<Byte>, j: nat, k: nat, hi: bool, g: nat)
    requires j <= k <= j + 4 && (k == j + 4 ==> !hi) && j + 8 * g <= |input|
    ensures |StereoFrom(step, l, r, input, j, k, hi, g)| == (if g == 0 then 0 else 16 * (g - 1) + 4 * (j + 4 - k) - (if hi then 2 else 0))
    decreases g, 2 * (j + 4 - k) - (if hi then 1 else 0)
  {
    if g == 0 {
    } else if k == j + 4 {
      StereoLength(step, l, r, input, j + 8, j + 8, false, g - 1);
    } else {
      var l' := step(l, NibbleOf(input[k], hi));
      var r' := step(r, NibbleOf(input[k + 4], hi));
      StereoLength(step, l', r', input, j, if hi then k + 1 else k, !hi, g);
    }
  }

  lemma {:induction false} StereoCheckpoint(step: StepFn, l: ImaState, r: ImaState, input: seq<Byte>, j: nat, k: nat, hi: bool, g: nat, p: nat)
    requires j <= k <= j + 4 && (k == j + 4 ==> !hi) && j + 8 * g <= |input|
    requires p < |StereoFrom(step, l, r, input, j, k, hi, g)|
    ensures StereoFrom(step, l, r, input, j, k, hi, g)[p].checkpoint <==> p % 2 == 1
    decreases g, 2 * (j + 4 - k) - (if hi then 1 else 0)
  {
    if k == j + 4 {
      StereoCheckpoint(step, l, r, input, j + 8, j + 8, false, g - 1, p);
    } else if p >= 2 {
      var l' := step(l, NibbleOf(input[k], hi));
      var r' := step(r, NibbleOf(input[k + 4], hi));
      StereoCheckpoint(step, l', r', input, j, if hi then k + 1 else k, !hi, g, p - 2);
    }
  }

  /** The number of samples one block yields: the header predictor(s) and
      two per data byte. */
  function BlockLength(channels: int, blockSize: int): int
  {
    channels + 2 * (blockSize - 4 * channels)
  }

  /** Whether the sample at offset `o` of a block is followed by a comparison. */
  predicate CheckedAt(channels: int, o: int)
  {
    o >= channels && (o - channels) % 2 == 1
  }

  /** The decoder state a block header sets up: the predictor from two
      bytes, the step index from the third. */
  function Header(input: seq<Byte>, h: nat): ImaState
    requires h + 3 <= |input| && input[h + 2] <= 88
  {
    ImaState(Int16Of(input[h], input[h + 1]), input[h + 2])
  }

  /** The samples of one block: the header predictor(s), then the decoded
      nibbles. */
  function BlockSamples(step: StepFn, input: seq<Byte>, i: nat, channels: int, blockSize: int): (r: seq<Sample>)
    requires BlockShape(channels, blockSize) && i + blockSize <= |input|
    requires HeaderOk(input, i, channels)
    ensures |r| == BlockLength(channels, blockSize)
    ensures forall o :: 0 <= o < |r| ==> (r[o].checkpoint <==> CheckedAt(channels, o))
  {
    var left := Header(input, i);
    if channels == 2 then
      var right := Header(input, i + 4);
      var body := StereoFrom(step, left, right, input, i + 8, i + 8, false, Groups(blockSize));
      StereoShape(step, left, right, input, i + 8, i + 8, false, Groups(blockSize));
      var r := [Sample(left.predictor, false), Sample(right.predictor, false)] + body;
      assert forall o :: 2 <= o < |r| ==> r[o] == body[o - 2];
      r
    else
      var body := MonoFrom(step, left, input, i + 4, i + blockSize);
      var r := [Sample(left.predictor, false)] + body;
      assert forall o :: 1 <= o < |r| ==> r[o] == body[o - 1];
      r
  }

  /** The number of whole blocks from byte `i` on. */
  function BlockCount(i: nat, inputSize: int, blockSize: int): nat
    requires blockSize > 0
    decreases inputSize - i
  {
    if i + blockSize > inputSize then 0 else 1 + BlockCount(i + blockSize, inputSize, blockSize)
  }

  /** The loop runs `input_size / block_size` times, the `total_blocks` that
      `loadWavIMA` sizes its buffer with. */
  lemma {:induction false} BlockCountDiv(i: nat, inputSize: int, blockSize: int)
    requires blockSize > 0 && i <= inputSize
    ensures BlockCount(i, inputSize, blockSize) == (inputSize - i) / blockSize
    decreases inputSize - i
  {
    if i + blockSize <= inputSize {
      BlockCountDiv(i + blockSize, inputSize, blockSize);
      var q := (inputSize - i - blockSize) / blockSize;
      DivUnique(inputSize - i, blockSize, q + 1, (inputSize - i - blockSize) % blockSize);
    } else {
      DivUnique(inputSize - i, blockSize, 0, inputSize - i);
    }
  }

  /** The samples of every whole block from `i` on, with no limit. */
  function Blocks(step: StepFn, input: seq<Byte>, i: nat, inputSize: int, channels: int, blockSize: int): (r: seq<Sample>)
    requires inputSize <= |input| && BlockShape(channels, blockSize)
    requires HeadersFrom(input, i, inputSize, channels, blockSize)
    decreases inputSize - i
  {
    if i + blockSize > inputSize then []
    else BlockSamples(step, input, i, channels, blockSize) + Blocks(step, input, i + blockSize, inputSize, channels, blockSize)
  }

  /** Every block yields the same number of samples, so the whole stream is
      `BlockCount` blocks long. */
  lemma {:induction false} BlocksLength(step: StepFn, input: seq<Byte>, i: nat, inputSize: int, channels: int, blockSize: int)
    requires inputSize <= |input| && BlockShape(channels, blockSize)
    requires HeadersFrom(input, i, inputSize, channels, blockSize)
    ensures |Blocks(step, input, i, inputSize, channels, blockSize)| == BlockCount(i, inputSize, blockSize) * BlockLength(channels, blockSize)
    decreases inputSize - i
  {
    if i + blockSize <= inputSize {
      BlocksLength(step, input, i + blockSize, inputSize, channels, blockSize);
      var c := BlockCount(i + blockSize, inputSize, blockSize);
      var L := BlockLength(channels, blockSize);
      assert |Blocks(step, input, i, inputSize, channels, blockSize)| == L + c * L;
      assert BlockCount(i, inputSize, blockSize) == 1 + c;
      MulSucc(c, L);
    } else {
      assert BlockCount(i, inputSize, blockSize) == 0;
      assert |Blocks(step, input, i, inputSize, channels, blockSize)| == 0;
    }
  }

  lemma MulSucc(c: int, L: int)
    ensures (1 + c) * L == L + c * L
  {
  }

  /** The offset of sample `q` within its block of `L` samples. */
  function Offset(q: nat, L: int): (o: nat)
    requires L > 0
  {
    if q < L then q else Offset(q - L, L)
  }

  lemma {:induction false} OffsetMod(q: nat, L: int)
    requires L > 0
    ensures Offset(q, L) == q % L
  {
    if q < L {
      DivUnique(q, L, 0, q);
    } else {
      OffsetMod(q - L, L);
      DivUnique(q, L, (q - L) / L + 1, (q - L) % L);
    }
  }

  /** The comparisons fall at the same offsets of every block. */
  lemma {:induction false} BlocksCheckpoints(step: StepFn, input: seq<Byte>, i: nat, inputSize: int, channels: int, blockSize: int, q: nat)
    requires inputSize <= |input| && BlockShape(channels, blockSize)
    requires HeadersFrom(input, i, inputSize, channels, blockSize)
    requires q < |Blocks(step, input, i, inputSize, channels, blockSize)|
    ensures Blocks(step, input, i, inputSize, channels, blockSize)[q].checkpoint
        <==> CheckedAt(channels, Offset(q, BlockLength(channels, blockSize)))
    decreases q
  {
    var first := BlockSamples(step, input, i, channels, blockSize);
    var rest := Blocks(step, input, i + blockSize, inputSize, channels, blockSize);
    var L := BlockLength(channels, blockSize);
    assert Blocks(step, input, i, inputSize, channels, blockSize) == first + rest;
    if q >= L {
      BlocksCheckpoints(step, input, i + blockSize, inputSize, channels, blockSize, q - L);
      assert (first + rest)[q] == rest[q - L];
      assert Offset(q, L) == Offset(q - L, L);
    } else {
      assert (first + rest)[q] == first[q];
      assert Offset(q, L) == q;
    }
  }

  /** How many samples are written: the decoder returns just after a
      comparison that finds the count equal to `cap`, and otherwise decodes
      everything. */
  function StopAt(f: seq<Sample>, cap: int): (n: nat)
    ensures n <= |f|
    ensures n < |f| ==> 0 < n == cap && f[n - 1].checkpoint
    ensures 0 < cap <= |f| && f[cap - 1].checkpoint ==> n == cap
  {
    if 0 < cap <= |f| && f[cap - 1].checkpoint then cap else |f|
  }

  /** `ima_decode_adpcm_blocks`: the samples it writes to `output`, in
      order, for the limit `output_size * 2` it compares its count with. */
  function DecodeAdpcmBlocks(input: seq<Byte>, inputSize: int, outputSize: nat, channels: int, blockSize: int): (out: seq<int>)
    requires inputSize <= |input| && BlockShape(channels, blockSize)
    requires HeadersFrom(input, 0, inputSize, channels, blockSize)
  {
    Written(Blocks(ImaStep, input, 0, inputSize, channels, blockSize), 2 * outputSize)
  }

  /** The values of the first `StopAt(f, cap)` samples of `f`. */
  function Written(f: seq<Sample>, cap: int): (out: seq<int>)
    ensures |out| == StopAt(f, cap)
    ensures forall p :: 0 <= p < |out| ==> out[p] == f[p].value
  {
    var n := StopAt(f, cap);
    seq(n, p requires 0 <= p < n => f[p].value as int)
  }

  /** Where the comparisons fall decides whether the limit cuts the stream short. */
  lemma WrittenStops(f: seq<Sample>, cap: int, channels: int, L: int)
    requires L > 0
    requires 0 < cap <= |f| ==> (f[cap - 1].checkpoint <==> CheckedAt(channels, Offset(cap - 1, L)))
    ensures var out := Written(f, cap);
      && (|out| < |f| <==> 0 < cap < |f| && CheckedAt(channels, Offset(cap - 1, L)))
      && (|out| < |f| ==> |out| == cap)
  {
  }

  /** The decoder writes a prefix of the decoded stream, every sample an
      `int16_t`. */
  lemma WrittenPrefix(input: seq<Byte>, inputSize: int, outputSize: nat, channels: int, blockSize: int)
    requires inputSize <= |input| && BlockShape(channels, blockSize)
    requires HeadersFrom(input, 0, inputSize, channels, blockSize)
    ensures var f := Blocks(ImaStep, input, 0, inputSize, channels, blockSize);
      var out := DecodeAdpcmBlocks(input, inputSize, outputSize, channels, blockSize);
      && |out| <= |f|
      && (forall p :: 0 <= p < |out| ==> out[p] == f[p].value && IsInt16(out[p]))
  {
  }

  /** The decoder stops short of the end of the stream exactly when a
      comparison finds `output_size * 2` samples written. */
  lemma WrittenStopsEarly(input: seq<Byte>, inputSize: int, outputSize: nat, channels: int, blockSize: int)
    requires inputSize <= |input| && BlockShape(channels, blockSize)
    requires HeadersFrom(input, 0, inputSize, channels, blockSize)
    ensures var f := Blocks(ImaStep, input, 0, inputSize, channels, blockSize);
      var out := DecodeAdpcmBlocks(input, inputSize, outputSize, channels, blockSize);
      && (|out| < |f| <==> 0 < 2 * outputSize < |f| && CheckedAt(channels, Offset(2 * outputSize - 1, BlockLength(channels, blockSize))))
      && (|out| < |f| ==> |out| == 2 * outputSize)
  {
    var f := Blocks(ImaStep, input, 0, inputSize, channels, blockSize);
    var L, cap := BlockLength(channels, blockSize), 2 * outputSize;
    if 0 < cap <= |f| {
      BlocksCheckpoints(ImaStep, input, 0, inputSize, channels, blockSize, cap - 1);
    }
    WrittenStops(f, cap, channels, L);
  }

  /** With the buffer `loadWavIMA` allocates, `total_blocks *
      samples_per_block * channels` samples of 2 bytes, and its byte size
      passed as `output_size`, the limit is never reached first: the decoder
      writes every sample of every whole block, which fills the buffer
      exactly. */
  lemma CallerBufferFits(input: seq<Byte>, inputSize: int, channels: int, blockSize: int)
    requires 0 <= inputSize <= |input| && BlockShape(channels, blockSize)
    requires HeadersFrom(input, 0, inputSize, channels, blockSize)
    ensures var out := DecodeAdpcmBlocks(input, inputSize, PcmSize(inputSize, channels, blockSize), channels, blockSize);
      && |out| == |Blocks(ImaStep, input, 0, inputSize, channels, blockSize)|
      && 2 * |out| == PcmSize(inputSize, channels, blockSize)
  {
    CallerSize(inputSize, channels, blockSize);
    BlocksLength(ImaStep, input, 0, inputSize, channels, blockSize);
  }

  /** The byte size of the buffer `loadWavIMA` allocates: `total_blocks *
      samples_per_block * channels * sizeof(short)`. */
  function PcmSize(inputSize: int, channels: int, blockSize: int): (n: nat)
    requires 0 <= inputSize && BlockShape(channels, blockSize)
  {
    CallerSize(inputSize, channels, blockSize);
    (inputSize / blockSize) * ((blockSize - 4 * channels) * 2 / channels + 1) * channels * 2
  }

  /** `loadWavIMA`'s byte count is two bytes per sample of every whole block. */
  lemma CallerSize(inputSize: int, channels: int, blockSize: int)
    requires 0 <= inputSize && BlockShape(channels, blockSize)
    ensures (inputSize / blockSize) * ((blockSize - 4 * channels) * 2 / channels + 1) * channels * 2
        == 2 * (BlockCount(0, inputSize, blockSize) * BlockLength(channels, blockSize))
  {
    BlockCountDiv(0, inputSize, blockSize);
    var blocks := inputSize / blockSize;
    var L := BlockLength(channels, blockSize);
    var samplesPerBlock := (blockSize - 4 * channels) * 2 / channels + 1;
    assert samplesPerBlock * channels == L;
    MulAssoc(blocks, samplesPerBlock, channels);
  }

  lemma MulAssoc(a: int, b: int, c: int)
    ensures a * b * c * 2 == 2 * (a * (b * c))
  {
  }

  // ---------------------------------------------------------------------------
  // YMZ280B / AICA ADPCM
  // ---------------------------------------------------------------------------

  /** How each magnitude scales the step size, in 1/256ths. */
  const StepScale: seq<int> := [230, 230, 230, 230, 307, 409, 512, 614]

  /** The encoder/decoder state `ymz_step` updates through its pointers. */
  datatype YmzState = YmzState(history: int, stepSize: int)

  /** The inverse of the step in this format: the delta a code reconstructs,
      `(2m+1)/8` of the step size for the magnitude `m` in its low three bits,
      limited to 32767.  (`>>` of the C code is floor division, so it agrees
      with `/` for either sign.) */
  function YmzDiff(code: Byte, stepSize: int): int
  {
    Clamp(((1 + 2 * (code % 8)) * stepSize) / 8, 0, 32767)
  }

  /** `ymz_step`: the history moves by the code's delta in the direction of
      bit 3 and saturates to 16 bits; the step size is rescaled and kept in
      [127, 24576]. */
  function YmzNext(code: Byte, s: YmzState): (r: YmzState)
    ensures 127 <= r.stepSize <= 24576 && IsInt16(r.history)
    ensures r.stepSize == Clamp((StepScale[code % 8] * s.stepSize) / 256, 127, 24576)
    ensures IsInt16(s.history) && (code / 8) % 2 == 0 ==> s.history <= r.history <= s.history + YmzDiff(code, s.stepSize)
    ensures IsInt16(s.history) && (code / 8) % 2 == 1 ==> s.history - YmzDiff(code, s.stepSize) <= r.history <= s.history
  {
    var sign := (code / 8) % 2;
    var delta := code % 8;
    var diff := ((1 + 2 * delta) * s.stepSize) / 8;
    var nstep := (StepScale[delta] * s.stepSize) / 256;
    var diff' := Clamp(diff, 0, 32767);
    var newval := if sign > 0 then s.history - diff' else s.history + diff';
    YmzState(Clamp(newval, -32768, 32767), Clamp(nstep, 127, 24576))
  }

  /** `ymz_step` with its two pointer arguments as in/out values. */
  method YmzStep(code: Byte, history: int, stepSize: int) returns (history': int, stepSize': int, result: int)
    ensures YmzState(history', stepSize') == YmzNext(code, YmzState(history, stepSize))
    ensures result == history'
  {
    var sign := (code / 8) % 2;
    var delta := code % 8;
    var diff := ((1 + 2 * delta) * stepSize) / 8;
    var newval := history;
    var nstep := (StepScale[delta] * stepSize) / 256;
    diff := Clamp(diff, 0, 32767);
    if sign > 0 {
      newval := newval - diff;
    } else {
      newval := newval + diff;
    }
    stepSize' := Clamp(nstep, 127, 24576);
    newval := Clamp(newval, -32768, 32767);
    history' := newval;
    result := newval;
  }

  /** `sample & -8`: the sample rounded down to a multiple of 8. */
  function Coarse(sample: int): int { sample - sample % 8 }

  /** `m` plus the number of whole `d`s in `x`, counting no further than 7. */
  function CappedQuotient(x: int, d: int, m: nat): (q: nat)
    requires d > 0 && m <= 7
    ensures m <= q <= 7
    decreases 7 - m
  {
    if m == 7 || x < d then m else CappedQuotient(x - d, d, m + 1)
  }

  lemma CappedQuotientIsMin(x: nat, d: int, m: nat)
    requires d > 0 && m <= 7
    ensures CappedQuotient(x, d, m) == Min(m + x / d, 7)
  {
    var q, r := x / d, x % d;
    assert x == q * d + r;
    CappedQuotientCounts(q, r, d, m);
  }

  /** Subtracting `d` from `q d + r` takes `q` steps before the remainder is reached. */
  lemma {:induction false} CappedQuotientCounts(q: nat, r: int, d: int, m: nat)
    requires 0 <= r < d && m <= 7
    ensures CappedQuotient(q * d + r, d, m) == Min(m + q, 7)
    decreases q
  {
    if q > 0 {
      MulSucc(q - 1, d);
      assert q * d == d + (q - 1) * d;
      if m < 7 {
        CappedQuotientCounts(q - 1, r, d, m + 1);
      }
    }
  }

  /** The encoder's code for one sample, with the arithmetic the encoder
      means: the magnitude `4 |step| / step_size` limited to 7, and bit 3 for
      a negative step, where the step is the coarse sample minus the
      history.  `QuantiseSpec` relates it to the C expression; the C code
      evaluates that expression in 32 bits, which `QuantiseAsWritten`
      models. */
  function Quantise(sample: int, s: YmzState): (code: Nibble)
    requires s.stepSize > 0
  {
    var step := Coarse(sample) - s.history;
    var magnitude := CappedQuotient(4 * Abs(step), s.stepSize, 0);
    if step < 0 then magnitude + 8 else magnitude
  }

  /** Bit 3 of the code is the sign of the step, and its magnitude is
      `(|step| << 16) / (step_size << 14)` computed without overflow and
      limited to 7. */
  lemma QuantiseSpec(sample: int, s: YmzState)
    requires s.stepSize > 0
    ensures var code := Quantise(sample, s);
      var a := Abs(Coarse(sample) - s.history);
      && (code >= 8 <==> Coarse(sample) - s.history < 0)
      && code % 8 == Min(4 * a / s.stepSize, 7)
      && code % 8 == Clamp((a * 65536) / (s.stepSize * 16384), 0, 7)
  {
    var a := Abs(Coarse(sample) - s.history);
    CappedQuotientIsMin(4 * a, s.stepSize, 0);
    QuarterSteps(a, s.stepSize);
  }

  /** Division is determined by its quotient-remainder decomposition. */
  lemma DivUnique(n: int, d: int, q: int, r: int)
    requires d > 0 && n == q * d + r && 0 <= r < d
    ensures n / d == q
  {
    var q' := n / d;
    assert n == q' * d + n % d;
    assert (q' - q) * d == r - n % d;
    if q' - q >= 1 {
      assert false;
    } else if q' - q <= -1 {
      assert false;
    }
  }

  /** `(a << 16) / (step_size << 14)` is `4a / step_size`. */
  lemma QuarterSteps(a: nat, stepSize: int)
    requires stepSize > 0
    ensures (a * 65536) / (stepSize * 16384) == 4 * a / stepSize
  {
    var q := 4 * a / stepSize;
    var m := 4 * a % stepSize;
    assert 4 * a == q * stepSize + m;
    assert a * 65536 == (4 * a) * 16384;
    assert (q * stepSize + m) * 16384 == q * (stepSize * 16384) + m * 16384;
    DivUnique(a * 65536, stepSize * 16384, q, m * 16384);
  }

  /** The decoder reconstructs the coarse sample to within an eighth of the
      step size (plus rounding) whenever the magnitude is not saturated:
      the code picks the delta nearest the step. */
  lemma QuantiserError(sample: int, s: YmzState)
    requires IsInt16(sample) && IsInt16(s.history) && 127 <= s.stepSize <= 17476
    requires 4 * Abs(Coarse(sample) - s.history) < 7 * s.stepSize
    ensures 8 * Abs(YmzNext(Quantise(sample, s), s).history - Coarse(sample)) < s.stepSize + 8
  {
    var ss := s.stepSize;
    var a := Abs(Coarse(sample) - s.history);
    var code := Quantise(sample, s);
    var m := code % 8;
    QuantiseSpec(sample, s);
    Magnitude(a, ss, m);
    var d := YmzDiff(code, ss);
    DeltaBounds(m, ss, d);
    YmzHistory(code, s);
    TrackedWithinBound(s.history, Coarse(sample), d, a, ss, code >= 8);
  }

  /** The history `ymz_step` produces, with the sign taken from bit 3 of a nibble. */
  lemma YmzHistory(code: Nibble, s: YmzState)
    ensures YmzNext(code, s).history
      == Clamp(if code >= 8 then s.history - YmzDiff(code, s.stepSize) else s.history + YmzDiff(code, s.stepSize), -32768, 32767)
  {
  }

  /** Moving the history by `d` towards a 16-bit target `c` at distance `a`,
      and saturating, lands within `(ss + 8) / 8` of `c` when `d` is. */
  lemma TrackedWithinBound(h: int, c: int, d: int, a: int, ss: int, neg: bool)
    requires IsInt16(c) && a == Abs(c - h) && (neg <==> c - h < 0)
    requires 8 * a - 8 * d < ss + 8 && 8 * d - 8 * a < ss + 8
    ensures 8 * Abs(Clamp(if neg then h - d else h + d, -32768, 32767) - c) < ss + 8
  {
  }

  /** An unsaturated magnitude `m = 4a / ss` puts `8a` within `2 ss` above `2 m ss`. */
  lemma Magnitude(a: nat, ss: int, m: int)
    requires 127 <= ss && 4 * a < 7 * ss && m == Min(4 * a / ss, 7)
    ensures 0 <= m <= 6 && 2 * (m * ss) <= 8 * a < 2 * (m * ss) + 2 * ss
  {
    var q := 4 * a / ss;
    assert 4 * a == q * ss + 4 * a % ss;
    assert q <= 6 by {
      if q >= 7 { MulAtLeast(q, 7, ss); }
    }
  }

  /** The delta of magnitude `m` is `(2m + 1) ss / 8` rounded down, and needs no limit. */
  lemma DeltaBounds(m: int, ss: int, d: int)
    requires 0 <= m <= 6 && 127 <= ss <= 17476 && d == Clamp(((1 + 2 * m) * ss) / 8, 0, 32767)
    ensures ss + 2 * (m * ss) - 8 < 8 * d <= ss + 2 * (m * ss)
  {
    OddMultiple(m, ss);
    MulAtLeast(6, m, ss);
    var x := (1 + 2 * m) * ss;
    assert x <= 13 * ss;
    assert 8 * (x / 8) <= x < 8 * (x / 8) + 8;
  }

  lemma MulAtLeast(m: int, k: int, ss: int)
    requires m >= k && ss >= 0
    ensures m * ss >= k * ss
  {
  }

  lemma OddMultiple(m: int, ss: int)
    ensures (1 + 2 * m) * ss == ss + 2 * (m * ss)
  {
  }

  /** A C `int` result that does not fit 32 bits, as the machine keeps it:
      the two's complement value congruent to `x`. */
  function WrapInt32(x: int): (r: int)
    ensures -0x8000_0000 <= r < 0x8000_0000
    ensures (0 <= x < 0x8000_0000 ==> r == x) && (0x8000_0000 <= x < 0x1_0000_0000 ==> r == x - 0x1_0000_0000)
  {
    var m := x % 0x1_0000_0000;
    if m >= 0x8000_0000 then m - 0x1_0000_0000 else m
  }

  /** C's `/` on `int`: the quotient truncated toward zero. */
  function TruncDiv(n: int, d: int): int
    requires d > 0
  {
    if n >= 0 then n / d else -((-n) / d)
  }

  /** The code `pcm2adpcm` computes for one sample as written:
      `abs(step) << 16` is evaluated in a 32-bit `int`, divided with
      truncation by `step_size << 14` (which fits), converted to `uint32_t`,
      and `CLAMP(x, 0, 7)` compares it unsigned. */
  function QuantiseAsWritten(sample: int, s: YmzState): (code: Nibble)
    requires s.stepSize > 0
  {
    var step := Coarse(sample) - s.history;
    var shifted := WrapInt32(Abs(step) * 0x1_0000);
    var unsigned := TruncDiv(shifted, s.stepSize * 0x4000) % 0x1_0000_0000;
    var magnitude := if unsigned > 7 then 7 else unsigned;
    if step < 0 then magnitude + 8 else magnitude
  }

  /** While `|step| < 32768` the shift does not overflow and the code as
      written is the intended one. */
  lemma QuantiseAsWrittenAgrees(sample: int, s: YmzState)
    requires s.stepSize > 0 && Abs(Coarse(sample) - s.history) < 0x8000
    ensures QuantiseAsWritten(sample, s) == Quantise(sample, s)
  {
    var a := Abs(Coarse(sample) - s.history);
    var q := 4 * a / s.stepSize;
    QuarterSteps(a, s.stepSize);
    DivAtMost(4 * a, s.stepSize);
    assert WrapInt32(a * 0x1_0000) == a * 0x1_0000;
    assert TruncDiv(a * 0x1_0000, s.stepSize * 0x4000) == q;
    SmallMod(q);
    QuantiseSpec(sample, s);
  }

  lemma DivAtMost(n: nat, d: int)
    requires d > 0
    ensures 0 <= n / d <= n
  {
    var q := n / d;
    assert n == q * d + n % d;
    MulAtLeast(d, 1, q);
  }

  lemma SmallMod(x: int)
    requires 0 <= x < 0x1_0000_0000
    ensures x % 0x1_0000_0000 == x
  {
  }

  /** From `|step| = 32768` on, `abs(step) << 16` wraps to a negative
      number: the magnitude written is 0 while the quotient truncates to 0,
      and 7 (the unsigned image of a negative quotient) otherwise, whatever
      the intended magnitude. */
  lemma QuantiseAsWrittenOverflow(sample: int, s: YmzState)
    requires IsInt16(sample) && IsInt16(s.history) && s.stepSize > 0
    requires Abs(Coarse(sample) - s.history) >= 0x8000
    ensures var a := Abs(Coarse(sample) - s.history);
      && (QuantiseAsWritten(sample, s) >= 8 <==> Quantise(sample, s) >= 8)
      && QuantiseAsWritten(sample, s) % 8 == if 4 * (0x1_0000 - a) < s.stepSize then 0 else 7
  {
    var a := Abs(Coarse(sample) - s.history);
    assert a < 0x1_0000;
    var k: int := 0x1_0000 - a;
    assert WrapInt32(a * 0x1_0000) == -(k * 0x1_0000);
    NegativeQuotient(k, s.stepSize);
  }

  /** A wrapped shift `-(k << 16)` divided by `step_size << 14`: the
      truncated quotient is 0 below one step, and otherwise negative, so
      its unsigned image is above 7. */
  lemma NegativeQuotient(k: nat, ss: int)
    requires 0 < k <= 0x8000 && ss > 0
    ensures var u := TruncDiv(-(k * 0x1_0000), ss * 0x4000) % 0x1_0000_0000;
      (4 * k < ss ==> u == 0) && (4 * k >= ss ==> u > 7)
  {
    QuarterSteps(k, ss);
    var q := 4 * k / ss;
    assert TruncDiv(-(k * 0x1_0000), ss * 0x4000) == -q;
    if 4 * k < ss {
      DivUnique(4 * k, ss, 0, 4 * k);
    } else {
      DivAtLeastOne(4 * k, ss);
      DivAtMost(4 * k, ss);
      assert (-q) % 0x1_0000_0000 == 0x1_0000_0000 - q;
    }
  }

  lemma DivAtLeastOne(n: int, d: int)
    requires d > 0 && n >= d
    ensures n / d >= 1
  {
    assert n == (n / d) * d + n % d;
    if n / d <= 0 {
      MulAtLeast(0, n / d, d);
    }
  }

  /** The codes `pcm2adpcm` emits as written, from state `s`: the encoder
      runs on the same `ymz_step` with the codes of `QuantiseAsWritten`. */
  function CodesAsWritten(samples: seq<int>, s: YmzState): (codes: seq<Nibble>)
    requires s.stepSize > 0
    ensures |codes| == |samples|
  {
    if |samples| == 0 then []
    else
      var code := QuantiseAsWritten(samples[0], s);
      [code] + CodesAsWritten(samples[1..], YmzNext(code, s))
  }

  /** A concrete input that shows the overflow.  Six samples of -32768
      drive the step size to 24113, with the history at -32162.  The seventh
      sample, 32767, is then 64922 above the history.  Its intended
      magnitude is 7.  As written, `abs(step) << 16` wraps to a negative
      number that truncates to 0.  Up to that sample both encoders agree. */
  lemma QuantiseOverflowExample(samples: seq<int>)
    requires |samples| == 7 && samples[6] == 32767
    requires forall j :: 0 <= j < 6 ==> samples[j] == -32768
    ensures forall j :: 0 <= j < 6 ==> Codes(samples, InitialYmz)[j] == 15 == CodesAsWritten(samples, InitialYmz)[j]
    ensures Codes(samples, InitialYmz)[6] == 7 && CodesAsWritten(samples, InitialYmz)[6] == 0
  {
    ExampleReaches(InitialYmz, |samples| - 1);
    FloorRun(samples, InitialYmz);
  }

  /** The example's states, one saturating sample apart. */
  lemma ExampleReaches(s: YmzState, n: nat)
    requires s == InitialYmz && n == 6
    ensures ReachesLast(s, n)
  {
    var s1, s2, s3 := YmzState(-238, 304), YmzState(-808, 729), YmzState(-2174, 1748);
    var s4, s5, s6 := YmzState(-5451, 4192), YmzState(-13311, 10054), YmzState(-32162, 24113);
    assert ReachesLast(s6, n - 6);
    ReachStep(s5, s6, n - 6);
    ReachStep(s4, s5, n - 5);
    ReachStep(s3, s4, n - 4);
    ReachStep(s2, s3, n - 3);
    ReachStep(s1, s2, n - 2);
    ReachStep(s, s1, n - 1);
  }

  lemma ReachStep(s: YmzState, s': YmzState, n: nat)
    requires Saturates(s) && FloorNext(s) == s' && ReachesLast(s', n)
    ensures ReachesLast(s, n + 1)
  {
  }

  /** `s` lies far enough below the positive limit that a sample of -32768
      saturates both quantisers. */
  ghost predicate Saturates(s: YmzState)
  {
    -0x8000 <= s.history <= 0 && 0 < s.stepSize <= 24576 && 4 * (0x8000 + s.history) >= 7 * s.stepSize
  }

  /** The state `ymz_step` moves to after code 15, in closed form. */
  function FloorNext(s: YmzState): YmzState
  {
    YmzState(Clamp(s.history - Clamp((15 * s.stepSize) / 8, 0, 32767), -32768, 32767),
      Clamp((614 * s.stepSize) / 256, 127, 24576))
  }

  /** `n` saturating samples lead from `s` to the example's last state. */
  ghost predicate ReachesLast(s: YmzState, n: nat)
    decreases n
  {
    if n == 0 then s == YmzState(-32162, 24113) else Saturates(s) && ReachesLast(FloorNext(s), n - 1)
  }

  /** A run of -32768 samples from a saturating state, ending in the
      example's last sample and state. */
  lemma {:induction false} FloorRun(t: seq<int>, s: YmzState)
    requires |t| > 0 && ReachesLast(s, |t| - 1)
    requires forall j :: 0 <= j < |t| - 1 ==> t[j] == -32768
    requires t[|t| - 1] == 32767
    ensures forall j :: 0 <= j < |t| - 1 ==> Codes(t, s)[j] == 15 && CodesAsWritten(t, s)[j] == 15
    ensures Codes(t, s)[|t| - 1] == 7 && CodesAsWritten(t, s)[|t| - 1] == 0
  {
    if |t| == 1 {
      assert t == [32767];
      LastStep(t, s);
    } else {
      var rest, s' := t[1..], FloorNext(s);
      FloorRun(rest, s');
      FloorStep(t, s);
      PrependSaturated(Codes(t, s), Codes(rest, s'));
      PrependSaturated(CodesAsWritten(t, s), CodesAsWritten(rest, s'));
    }
  }

  /** Prepending code 15 to codes that are 15 up to the last one. */
  lemma PrependSaturated(x: seq<Nibble>, c: seq<Nibble>)
    requires |c| > 0 && x == [15] + c
    requires forall j :: 0 <= j < |c| - 1 ==> c[j] == 15
    ensures forall j :: 0 <= j < |x| - 1 ==> x[j] == 15
    ensures x[|x| - 1] == c[|c| - 1]
  {
    forall j | 0 <= j < |x| - 1
      ensures x[j] == 15
    {
      if j > 0 {
        assert x[j] == c[j - 1];
      }
    }
  }

  /** Both encoders on a tail that starts at the negative limit. */
  lemma FloorStep(t: seq<int>, s: YmzState)
    requires |t| > 0 && t[0] == -32768 && Saturates(s)
    ensures Codes(t, s) == [15] + Codes(t[1..], FloorNext(s))
    ensures CodesAsWritten(t, s) == [15] + CodesAsWritten(t[1..], FloorNext(s))
  {
    ExampleFloor(s, FloorNext(s));
  }

  /** Both encoders on the example's last sample. */
  lemma LastStep(t: seq<int>, s: YmzState)
    requires t == [32767] && s == YmzState(-32162, 24113)
    ensures Codes(t, s) == [7]
    ensures CodesAsWritten(t, s) == [0]
  {
    ExampleLast(s);
    assert t[1..] == [];
  }

  /** One of the example's samples at the negative limit: both quantisers
      saturate to code 15, and `ymz_step` moves to `s'`. */
  lemma ExampleFloor(s: YmzState, s': YmzState)
    requires Saturates(s) && s' == FloorNext(s)
    ensures Quantise(-32768, s) == 15 && QuantiseAsWritten(-32768, s) == 15
    ensures YmzNext(15, s) == s'
  {
    var a := 0x8000 + s.history;
    assert Coarse(-32768) == -32768;
    QuantiseSpec(-32768, s);
    DivAtLeast7(4 * a, s.stepSize);
    if a >= 0x8000 {
      QuantiseAsWrittenOverflow(-32768, s);
    } else {
      QuantiseAsWrittenAgrees(-32768, s);
    }
  }

  lemma DivAtLeast7(n: int, d: int)
    requires d > 0 && n >= 7 * d
    ensures n / d >= 7
  {
    assert n == (n / d) * d + n % d;
    if n / d < 7 {
      MulAtLeast(6, n / d, d);
    }
  }

  /** The example's last sample: intended magnitude 7, written magnitude 0. */
  lemma ExampleLast(s: YmzState)
    requires s == YmzState(-32162, 24113)
    ensures Quantise(32767, s) == 7 && QuantiseAsWritten(32767, s) == 0
  {
    assert Coarse(32767) == 32760;
    QuantiseSpec(32767, s);
    QuantiseAsWrittenOverflow(32767, s);
    DivAtLeast7(4 * 64922, 24113);
  }

  /** The codes the encoder emits for `samples`, starting from state `s`. */
  function Codes(samples: seq<int>, s: YmzState): (codes: seq<Nibble>)
    requires s.stepSize > 0
    ensures |codes| == |samples|
  {
    if |samples| == 0 then []
    else
      var code := Quantise(samples[0], s);
      [code] + Codes(samples[1..], YmzNext(code, s))
  }

  /** The histories a YMZ decoder produces for `codes`, starting from `s`. */
  function Decode(codes: seq<Nibble>, s: YmzState): (r: seq<int>)
    ensures |r| == |codes|
  {
    if |codes| == 0 then []
    else
      var s' := YmzNext(codes[0], s);
      [s'.history] + Decode(codes[1..], s')
  }

  /** The histories the encoder itself keeps while encoding `samples`. */
  function EncoderHistory(samples: seq<int>, s: YmzState): seq<int>
    requires s.stepSize > 0
  {
    if |samples| == 0 then []
    else
      var s' := YmzNext(Quantise(samples[0], s), s);
      [s'.history] + EncoderHistory(samples[1..], s')
  }

  /** The encoder predicts exactly what the decoder will output: advancing its
      state with the same `ymz_step` keeps it in step with a decoder fed the
      emitted codes. */
  lemma {:induction false} EncoderTracksDecoder(samples: seq<int>, s: YmzState)
    requires s.stepSize > 0
    ensures Decode(Codes(samples, s), s) == EncoderHistory(samples, s)
  {
    if |samples| > 0 {
      var code := Quantise(samples[0], s);
      var s' := YmzNext(code, s);
      EncoderTracksDecoder(samples[1..], s');
      assert Codes(samples, s)[1..] == Codes(samples[1..], s');
    }
  }

  /** Two nibbles per byte, low nibble first; a trailing odd nibble is dropped. */
  function PairUp(nibbles: seq<Nibble>): (bytes: seq<Byte>)
    ensures |bytes| == |nibbles| / 2
  {
    if |nibbles| < 2 then [] else [nibbles[0] as int + 16 * nibbles[1] as int] + PairUp(nibbles[2..])
  }

  /** The nibbles of packed bytes, low nibble first. */
  function Unpack(bytes: seq<Byte>): (nibbles: seq<Nibble>)
    ensures |nibbles| == 2 * |bytes|
  {
    if |bytes| == 0 then [] else [bytes[0] % 16, bytes[0] / 16] + Unpack(bytes[1..])
  }

  /** Packing loses nothing but an unpaired trailing nibble. */
  lemma {:induction false} UnpackPairUp(nibbles: seq<Nibble>)
    ensures Unpack(PairUp(nibbles)) == nibbles[..2 * (|nibbles| / 2)]
  {
    if |nibbles| >= 2 {
      UnpackPairUp(nibbles[2..]);
      assert nibbles[..2 * (|nibbles| / 2)] == nibbles[..2] + nibbles[2..][..2 * (|nibbles[2..]| / 2)];
    }
  }

  lemma {:induction false} PairUpSnocOdd(nibbles: seq<Nibble>, c: Nibble)
    requires |nibbles| % 2 == 1
    ensures PairUp(nibbles + [c]) == PairUp(nibbles) + [nibbles[|nibbles| - 1] + 16 * c]
  {
    var t := nibbles + [c];
    assert PairUp(t) == [t[0] as int + 16 * t[1] as int] + PairUp(t[2..]);
    if |nibbles| == 1 {
      assert t[2..] == [];
    } else {
      PairUpSnocOdd(nibbles[2..], c);
      assert t[2..] == nibbles[2..] + [c];
      assert PairUp(nibbles) == [t[0] as int + 16 * t[1] as int] + PairUp(nibbles[2..]);
    }
  }

  lemma {:induction false} PairUpSnocEven(nibbles: seq<Nibble>, c: Nibble)
    requires |nibbles| % 2 == 0
    ensures PairUp(nibbles + [c]) == PairUp(nibbles)
  {
    if |nibbles| > 0 {
      var t := nibbles + [c];
      PairUpSnocEven(nibbles[2..], c);
      assert t[2..] == nibbles[2..] + [c];
      assert PairUp(t) == [t[0] as int + 16 * t[1] as int] + PairUp(t[2..]);
    }
  }

  /** The encoder's initial state: history 0 and step size 127. */
  const InitialYmz: YmzState := YmzState(0, 127)

  /** What `pcm2adpcm` writes for `samples`: each even-indexed sample writes
      a byte whose high nibble is its own code and whose low nibble is the
      code buffered from the sample before (0 for the first byte).  So the
      output, low nibble first, is a 0 nibble followed by the codes, with the
      last code dropped when the count is even. */
  function Encoded(samples: seq<int>): (bytes: seq<Byte>)
    ensures |bytes| == (|samples| + 1) / 2
    ensures Unpack(bytes) == ([0] + Codes(samples, InitialYmz))[..2 * |bytes|]
  {
    var nibbles: seq<Nibble> := [0] + Codes(samples, InitialYmz);
    UnpackPairUp(nibbles);
    PairUp(nibbles)
  }

  /** The encoder states before each sample and after the last. */
  function States(samples: seq<int>, s: YmzState): (r: seq<YmzState>)
    requires s.stepSize > 0
    ensures |r| == |samples| + 1 && r[0] == s
    ensures forall k :: 0 <= k < |r| ==> r[k].stepSize > 0
  {
    if |samples| == 0 then [s]
    else [s] + States(samples[1..], YmzNext(Quantise(samples[0], s), s))
  }

  /** Code `i` is the quantised sample `i` in the state before it, and
      `ymz_step` on that code gives the next state. */
  lemma {:induction false} CodesStates(samples: seq<int>, s: YmzState, i: nat)
    requires s.stepSize > 0 && i < |samples|
    ensures var st := States(samples, s);
      && Codes(samples, s)[i] == Quantise(samples[i], st[i])
      && st[i + 1] == YmzNext(Codes(samples, s)[i], st[i])
  {
    if i > 0 {
      var s' := YmzNext(Quantise(samples[0], s), s);
      CodesStates(samples[1..], s', i - 1);
      assert samples[1..][i - 1] == samples[i];
    }
  }

  /** `*outbuffer++ = value`: appends to what is written so far. */
  method Put(outbuffer: array<Byte>, out: nat, value: Byte)
    requires out < outbuffer.Length
    modifies outbuffer
    ensures outbuffer[..out + 1] == old(outbuffer[..out]) + [value]
    ensures forall k :: out < k < outbuffer.Length ==> outbuffer[k] == old(outbuffer[k])
  {
    outbuffer[out] := value;
    assert outbuffer[..out + 1] == outbuffer[..out] + [value];
  }

  /** One pass of the `pcm2adpcm` loop: quantise the sample, write a byte
      or buffer the nibble, and advance the encoder with `ymz_step`.  The
      codes so far, after the leading 0 nibble, are `nibbles`.  The code is
      the intended `Quantise`; the 32-bit expression the source writes is
      `QuantiseAsWritten`, which differs once `abs(step) << 16` wraps. */
  method EncodeSample(outbuffer: array<Byte>, out: nat, bufSample: Byte, nibble: int, sample: int,
                      history: int, stepSize: int, ghost nibbles: seq<Nibble>, ghost code: Nibble)
    returns (out': nat, bufSample': Byte, nibble': int, history': int, stepSize': int)
    requires (nibble == 0 || nibble == 1) && |nibbles| == 2 * out + 1 - nibble && stepSize > 0
    requires code == Quantise(sample, YmzState(history, stepSize))
    requires nibble == 0 ==> out < outbuffer.Length && bufSample == nibbles[|nibbles| - 1]
    requires out <= outbuffer.Length && outbuffer[..out] == PairUp(nibbles)
    modifies outbuffer
    ensures out' == out + 1 - nibble && nibble' == 1 - nibble
      && YmzState(history', stepSize') == YmzNext(code, YmzState(history, stepSize))
      && (nibble' == 0 ==> bufSample' == code)
      && outbuffer[..out'] == PairUp(nibbles + [code])
    ensures forall k :: out' <= k < outbuffer.Length ==> outbuffer[k] == old(outbuffer[k])
  {
    var adpcmSample: Byte := Quantise(sample, YmzState(history, stepSize));
    bufSample' := bufSample;
    out' := out;
    if nibble == 0 {
      PairUpSnocOdd(nibbles, adpcmSample as Nibble);
      Put(outbuffer, out, bufSample + 16 * adpcmSample);
      out' := out + 1;
    } else {
      PairUpSnocEven(nibbles, adpcmSample as Nibble);
      bufSample' := adpcmSample;
    }
    nibble' := 1 - nibble;
    var r;
    history', stepSize', r := YmzStep(adpcmSample, history, stepSize);
  }

  /** `pcm2adpcm`: encodes the `bytes / 2` 16-bit samples of `buffer` into
      `outbuffer`, with the codes of the intended `Quantise`.  The encoder as
      written emits `CodesAsWritten`, which `QuantiseOverflowExample` shows
      parting from `Codes`. */
  method PcmToAdpcm(outbuffer: array<Byte>, buffer: seq<int>, bytes: nat)
    requires bytes / 2 <= |buffer| && (bytes / 2 + 1) / 2 <= outbuffer.Length
    modifies outbuffer
    ensures outbuffer[..(bytes / 2 + 1) / 2] == Encoded(buffer[..bytes / 2])
    ensures outbuffer[(bytes / 2 + 1) / 2..] == old(outbuffer[(bytes / 2 + 1) / 2..])
  {
    var numSamples := bytes / 2;
    ghost var samples := buffer[..numSamples];
    ghost var codes := Codes(samples, InitialYmz);
    ghost var states := States(samples, InitialYmz);
    forall k | 0 <= k < numSamples
      ensures codes[k] == Quantise(buffer[k], states[k]) && states[k + 1] == YmzNext(codes[k], states[k])
    {
      CodesStates(samples, InitialYmz, k);
    }
    EncodeSamples(outbuffer, buffer, numSamples, codes, states);
  }

  /** The loop of `pcm2adpcm` over the first `numSamples` samples, whose
      codes and encoder states are `codes` and `states`. */
  method EncodeSamples(outbuffer: array<Byte>, buffer: seq<int>, numSamples: nat,
                       ghost codes: seq<Nibble>, ghost states: seq<YmzState>)
    requires numSamples <= |buffer| && (numSamples + 1) / 2 <= outbuffer.Length
    requires |codes| == numSamples && |states| == numSamples + 1 && states[0] == InitialYmz
    requires forall k {:trigger codes[k]} :: 0 <= k < numSamples ==>
      states[k].stepSize > 0 && codes[k] == Quantise(buffer[k], states[k]) && states[k + 1] == YmzNext(codes[k], states[k])
    modifies outbuffer
    ensures outbuffer[..(numSamples + 1) / 2] == PairUp([0] + codes)
    ensures outbuffer[(numSamples + 1) / 2..] == old(outbuffer[(numSamples + 1) / 2..])
  {
    var stepSize := 127;
    var history := 0;
    var bufSample: Byte := 0;
    var nibble := 0;
    ghost var nibbles: seq<Nibble> := [0];
    var out := 0;
    var i := 0;
    while i < numSamples
      invariant 0 <= i <= numSamples && (nibble == 0 || nibble == 1) && i + nibble == 2 * out
      invariant |nibbles| == i + 1 && nibbles[0] == 0 && YmzState(history, stepSize) == states[i]
      invariant forall k :: 0 <= k < i ==> nibbles[k + 1] == codes[k]
      invariant nibble == 0 ==> bufSample == nibbles[i]
      invariant outbuffer[..out] == PairUp(nibbles)
      invariant forall k :: out <= k < outbuffer.Length ==> outbuffer[k] == old(outbuffer[k])
    {
      out, bufSample, nibble, history, stepSize := EncodeSample(outbuffer, out, bufSample, nibble, buffer[i], history, stepSize, nibbles, codes[i]);
      nibbles := nibbles + [codes[i]];
      i := i + 1;
    }
    assert nibbles == [0] + codes;
    assert out == (numSamples + 1) / 2;
  }
}
