/** The byte-stream helpers shared by both repackers: a `.dat` file is read
    front to back through an `ifstream`. A read that runs past the end
    delivers only the bytes that were left, and every variable the helpers
    read into starts at zero, so what the caller sees of the missing bytes
    is zero. */
module DreamStream {

  /** An unsigned byte. */
  type Byte = b: int | 0 <= b < 256

  function Pow2(n: nat): (r: nat)
    ensures r >= 1
  {
    if n == 0 then 1 else 2 * Pow2(n - 1)
  }

  /** The `n` bytes a read at `pos` leaves in a zero-initialised buffer. */
  function Take(data: seq<Byte>, pos: nat, n: nat): seq<Byte>
  {
    seq(n, k requires 0 <= k < n => if pos + k < |data| then data[pos + k] else 0)
  }

  /** The stream position after a read of `n` bytes at `pos`. */
  function Advance(data: seq<Byte>, pos: nat, n: nat): (r: nat)
    ensures pos <= |data| ==> pos <= r <= |data|
    ensures pos + n <= |data| ==> r == pos + n
  {
    if pos + n <= |data| then pos + n else if pos <= |data| then |data| else pos
  }

  /** The encoding `e` is stored in `data` starting at `pos`. */
  ghost predicate IsAt(data: seq<Byte>, pos: nat, e: seq<Byte>)
  {
    && pos + |e| <= |data|
    && forall k :: 0 <= k < |e| ==> data[pos + k] == e[k]
  }

  /** Reading a stored encoding yields it and moves past it. */
  lemma IsAtTake(data: seq<Byte>, pos: nat, e: seq<Byte>)
    requires IsAt(data, pos, e)
    ensures Take(data, pos, |e|) == e
    ensures Advance(data, pos, |e|) == pos + |e|
  {
  }

  /** A stored concatenation stores each part, one after the other. */
  lemma IsAtSplit(data: seq<Byte>, pos: nat, e1: seq<Byte>, e2: seq<Byte>)
    requires IsAt(data, pos, e1 + e2)
    ensures IsAt(data, pos, e1) && IsAt(data, pos + |e1|, e2)
  {
    assert forall k :: 0 <= k < |e1| ==> (e1 + e2)[k] == e1[k];
    assert forall k :: 0 <= k < |e2| ==> (e1 + e2)[|e1| + k] == e2[k];
  }

  // ---------------------------------------------------------------------------
  // 7-bit encoded integers

  /** The sum of `(b & 0x7F) << 7k` over the bytes `bs[k]`: the value of an
      unsigned LEB128 number (section 7.6 of DWARF 4). */
  function LebSum(bs: seq<Byte>): nat
  {
    if |bs| == 0 then 0 else bs[0] % 128 + 128 * LebSum(bs[1..])
  }

  /** Where `read7BitEncodedInt` stops: just past the first byte below 0x80,
      or at the end of the data, where the failed read leaves the byte at 0. */
  function VarintEnd(data: seq<Byte>, pos: nat): (r: nat)
    requires pos <= |data|
    ensures pos <= r <= |data|
    ensures forall k :: pos <= k < r - 1 ==> data[k] >= 128
    ensures || (pos < r && data[r - 1] < 128)
            || (r == |data| && forall k :: pos <= k < |data| ==> data[k] >= 128)
    decreases |data| - pos
  {
    if pos == |data| then pos
    else if data[pos] < 128 then pos + 1
    else VarintEnd(data, pos + 1)
  }

  /** What .NET's `BinaryWriter.Write7BitEncodedInt` emits: seven bits at a
      time, lowest group first, bit 7 set on every byte but the last. */
  function Encode7Bit(v: nat): (r: seq<Byte>)
    ensures |r| >= 1 && r[|r| - 1] < 128
    ensures forall k :: 0 <= k < |r| - 1 ==> r[k] >= 128
    decreases v
  {
    if v < 128 then [v] else [v % 128 + 128] + Encode7Bit(v / 128)
  }

  /** Appending a byte adds its seven bits above the groups already read. */
  lemma {:induction false} LebSumSnoc(bs: seq<Byte>, b: Byte)
    ensures LebSum(bs + [b]) == LebSum(bs) + (b % 128) * Pow2(7 * |bs|)
    decreases |bs|
  {
    var d := b % 128;
    if |bs| == 0 {
      assert [b][1..] == [];
    } else {
      var t := bs[1..];
      var p := Pow2(7 * |t|);
      assert (bs + [b])[1..] == t + [b];
      LebSumSnoc(t, b);
      Pow2Step(|t|);
      assert d * (128 * p) == 128 * (d * p);
    }
  }

  lemma {:induction false} Pow2Add(a: nat, b: nat)
    ensures Pow2(a + b) == Pow2(a) * Pow2(b)
    decreases a
  {
    if a > 0 {
      Pow2Add(a - 1, b);
    }
  }

  /** Seven more bits multiply by 128. */
  lemma Pow2Step(n: nat)
    ensures Pow2(7 * (n + 1)) == 128 * Pow2(7 * n)
  {
    assert Pow2(7) == 128 by {
      assert Pow2(0) == 1;
    }
    Pow2Add(7, 7 * n);
    assert 7 * (n + 1) == 7 + 7 * n;
  }

  /** Decoding the 7-bit groups of an encoding gives back the number. */
  lemma {:induction false} Encode7BitSum(v: nat)
    ensures LebSum(Encode7Bit(v)) == v
    decreases v
  {
    if v < 128 {
      assert Encode7Bit(v) == [v];
      assert [v][1..] == [];
    } else {
      var q := v / 128;
      var d := v % 128;
      var rest := Encode7Bit(q);
      var e := [d + 128] + rest;
      assert Encode7Bit(v) == e;
      Encode7BitSum(q);
      assert e[1..] == rest;
      assert e[0] % 128 == d;
      assert LebSum(e) == d + 128 * q;
      assert v == d + 128 * q;
    }
  }

  /** A stored group sequence whose last byte alone is below 0x80 ends
      exactly where it was stored. */
  lemma {:induction false} VarintEndAt(data: seq<Byte>, pos: nat, e: seq<Byte>)
    requires IsAt(data, pos, e) && |e| >= 1 && e[|e| - 1] < 128
    requires forall k :: 0 <= k < |e| - 1 ==> e[k] >= 128
    ensures VarintEnd(data, pos) == pos + |e|
    decreases |e|
  {
    assert data[pos] == e[0];
    if |e| > 1 {
      assert IsAt(data, pos + 1, e[1..]) by {
        assert forall k :: 0 <= k < |e| - 1 ==> data[pos + 1 + k] == e[1..][k];
      }
      VarintEndAt(data, pos + 1, e[1..]);
    }
  }

  /** `read7BitEncodedInt` on a stored encoding of `v` stops right after it
      and returns `v`. */
  lemma Read7BitRoundTrip(data: seq<Byte>, pos: nat, v: nat)
    requires IsAt(data, pos, Encode7Bit(v))
    ensures VarintEnd(data, pos) == pos + |Encode7Bit(v)|
    ensures LebSum(data[pos..VarintEnd(data, pos)]) == v
  {
    var e := Encode7Bit(v);
    VarintEndAt(data, pos, e);
    var r := VarintEnd(data, pos);
    assert forall k :: 0 <= k < |e| ==> data[pos..r][k] == e[k];
    assert data[pos..r] == e;
    Encode7BitSum(v);
  }

  // ---------------------------------------------------------------------------
  // Fixed-size little-endian fields

  /** An unsigned 32-bit little-endian word. */
  function Word32(b: seq<Byte>): (r: nat)
    requires |b| == 4
    ensures r < 0x1_0000_0000
  {
    b[0] as int + 0x100 * (b[1] as int) + 0x1_0000 * (b[2] as int) + 0x100_0000 * (b[3] as int)
  }

  /** Two's complement reading of a 32-bit word, as an x86 `int`. */
  function Signed32(u: nat): (r: int)
    requires u < 0x1_0000_0000
    ensures -0x8000_0000 <= r < 0x8000_0000
    ensures r % 0x1_0000_0000 == u
  {
    if u >= 0x8000_0000 then u - 0x1_0000_0000 else u
  }

  /** The `int` a 4-byte read at `pos` leaves in a variable initialised to 0. */
  function Int32At(data: seq<Byte>, pos: nat): int
  {
    Signed32(Word32(Take(data, pos, 4)))
  }

  /** The little-endian bytes of a 32-bit word. */
  function EncodeWord32(u: nat): (r: seq<Byte>)
    requires u < 0x1_0000_0000
    ensures |r| == 4 && Word32(r) == u
  {
    var q0 := u / 0x100;
    var q1 := q0 / 0x100;
    var q2 := q1 / 0x100;
    assert u == u % 0x100 + 0x100 * q0;
    assert q0 == q0 % 0x100 + 0x100 * q1;
    assert q1 == q1 % 0x100 + 0x100 * q2 && q2 < 0x100;
    [u % 0x100, q0 % 0x100, q1 % 0x100, q2]
  }

  /** What a `BinaryWriter` writes for an `int`. */
  function EncodeInt32(v: int): (r: seq<Byte>)
    requires -0x8000_0000 <= v < 0x8000_0000
    ensures |r| == 4
  {
    EncodeWord32(if v < 0 then v + 0x1_0000_0000 else v)
  }

  lemma Int32RoundTrip(data: seq<Byte>, pos: nat, v: int)
    requires -0x8000_0000 <= v < 0x8000_0000
    requires IsAt(data, pos, EncodeInt32(v))
    ensures Int32At(data, pos) == v
    ensures Advance(data, pos, 4) == pos + 4
  {
    IsAtTake(data, pos, EncodeInt32(v));
  }

  /** A buffer of `float`s or `uint32_t`s, as the 32-bit words it holds. */
  function Words(b: seq<Byte>): (r: seq<nat>)
    ensures |r| == |b| / 4
    ensures forall k :: 0 <= k < |r| ==> r[k] < 0x1_0000_0000
  {
    if |b| < 4 then [] else [Word32(b[..4])] + Words(b[4..])
  }

  /** A `uint16_t` buffer, as the little-endian halfwords it holds. */
  function Halves(b: seq<Byte>): (r: seq<nat>)
    ensures |r| == |b| / 2
    ensures forall k :: 0 <= k < |r| ==> r[k] < 0x1_0000
  {
    if |b| < 2 then [] else [b[0] as int + 0x100 * (b[1] as int)] + Halves(b[2..])
  }

  /** The bytes of a buffer of 32-bit words. */
  function EncodeWords(ws: seq<nat>): (r: seq<Byte>)
    requires forall k :: 0 <= k < |ws| ==> ws[k] < 0x1_0000_0000
    ensures |r| == 4 * |ws|
  {
    if |ws| == 0 then [] else EncodeWord32(ws[0]) + EncodeWords(ws[1..])
  }

  /** The bytes of a buffer of halfwords. */
  function EncodeHalves(hs: seq<nat>): (r: seq<Byte>)
    requires forall k :: 0 <= k < |hs| ==> hs[k] < 0x1_0000
    ensures |r| == 2 * |hs|
  {
    if |hs| == 0 then [] else [hs[0] % 0x100, hs[0] / 0x100] + EncodeHalves(hs[1..])
  }

  lemma {:induction false} WordsRoundTrip(ws: seq<nat>)
    requires forall k :: 0 <= k < |ws| ==> ws[k] < 0x1_0000_0000
    ensures Words(EncodeWords(ws)) == ws
    decreases |ws|
  {
    if |ws| > 0 {
      var e := EncodeWord32(ws[0]);
      var rest := EncodeWords(ws[1..]);
      assert (e + rest)[..4] == e;
      assert (e + rest)[4..] == rest;
      WordsRoundTrip(ws[1..]);
    }
  }

  lemma {:induction false} HalvesRoundTrip(hs: seq<nat>)
    requires forall k :: 0 <= k < |hs| ==> hs[k] < 0x1_0000
    ensures Halves(EncodeHalves(hs)) == hs
    decreases |hs|
  {
    if |hs| > 0 {
      var e: seq<Byte> := [hs[0] % 0x100, hs[0] / 0x100];
      var rest := EncodeHalves(hs[1..]);
      assert (e + rest)[2..] == rest;
      HalvesRoundTrip(hs[1..]);
    }
  }

  /** An `ifstream` opened on `data`. */
  class Reader {
    const data: seq<Byte>
    var pos: nat

    ghost predicate Valid()
      reads this
    {
      pos <= |data|
    }

    constructor (data: seq<Byte>)
      ensures this.data == data && pos == 0 && Valid()
    {
      this.data := data;
      pos := 0;
    }

    /** `in.read(buf, n)`: past the end of the file the bytes read as zeros,
        which is what a zero-initialised target keeps. */
    method ReadBytes(n: nat) returns (r: seq<Byte>)
      requires Valid()
      modifies this
      ensures Valid()
      ensures r == Take(data, old(pos), n) && pos == Advance(data, old(pos), n)
    {
      r := Take(data, pos, n);
      pos := Advance(data, pos, n);
    }

    /** One `char`/`uint8_t` read into a variable initialised to 0. */
    method ReadByte() returns (b: Byte)
      requires Valid()
      modifies this
      ensures Valid()
      ensures old(pos) < |data| ==> b == data[old(pos)] && pos == old(pos) + 1
      ensures old(pos) == |data| ==> b == 0 && pos == old(pos)
    {
      var r := ReadBytes(1);
      b := r[0];
    }

    /** An `int` read into a variable initialised to 0. */
    method ReadInt32() returns (v: int)
      requires Valid()
      modifies this
      ensures Valid()
      ensures v == Int32At(data, old(pos)) && pos == Advance(data, old(pos), 4)
    {
      var r := ReadBytes(4);
      v := Signed32(Word32(r));
    }

    /** `read7BitEncodedInt`: the loop over bytes, accumulating seven bits
        each. The `|=` is an addition because `result` has no bit at or
        above `bitsRead`. */
    method Read7BitEncodedInt() returns (result: nat)
      requires Valid()
      modifies this
      ensures Valid()
      ensures pos == VarintEnd(data, old(pos))
      ensures result == LebSum(data[old(pos)..pos])
    {
      ghost var p0 := pos;
      result := 0;
      var bitsRead := 0;
      while true
        invariant Valid() && VarintState(data, p0, pos, bitsRead, result)
        decreases |data| - pos
      {
        ghost var before := pos;
        var b := ReadByte();
        VarintAdvance(data, p0, before, bitsRead, result);
        result := result + Shl(b % 128, bitsRead);
        if b < 128 {
          return;
        }
        bitsRead := bitsRead + 7;
      }
    }

    /** `readString`: a 7-bit encoded length, then that many bytes. */
    method ReadString() returns (s: seq<Byte>)
      requires Valid()
      modifies this
      ensures Valid()
      ensures (s, pos) == StringAt(data, old(pos))
    {
      var length := Read7BitEncodedInt();
      s := ReadBytes(length);
    }
  }

  /** `x << n` without overflow. */
  function Shl(x: nat, n: nat): nat
  {
    x * Pow2(n)
  }

  /** The state of `read7BitEncodedInt` after the bytes from `p0` up to
      `pos`: the end of the encoding is still ahead and `result` holds the
      groups read so far. */
  ghost predicate VarintState(data: seq<Byte>, p0: nat, pos: nat, bitsRead: nat, result: nat)
  {
    p0 <= pos <= |data| && bitsRead == 7 * (pos - p0)
    && VarintEnd(data, pos) == VarintEnd(data, p0)
    && result == LebSum(data[p0..pos])
  }

  /** One iteration of `read7BitEncodedInt`: a continuation byte keeps the
      state, a final byte or the end of the data finishes the encoding. */
  lemma VarintAdvance(data: seq<Byte>, p0: nat, p: nat, bitsRead: nat, result: nat)
    requires VarintState(data, p0, p, bitsRead, result)
    ensures p < |data| ==> result + Shl(data[p] % 128, bitsRead) == LebSum(data[p0..p + 1])
    ensures p < |data| && data[p] >= 128 ==>
      VarintState(data, p0, p + 1, bitsRead + 7, result + Shl(data[p] % 128, bitsRead))
    ensures p < |data| && data[p] < 128 ==> VarintEnd(data, p0) == p + 1
    ensures p == |data| ==> VarintEnd(data, p0) == p && result + Shl(0, bitsRead) == LebSum(data[p0..p])
  {
    if p < |data| {
      VarintStep(data, p0, p, bitsRead);
    }
  }

  /** One more byte of a 7-bit encoded integer adds its low seven bits at
      `bitsRead`. */
  lemma VarintStep(data: seq<Byte>, p0: nat, p: nat, bitsRead: nat)
    requires p0 <= p < |data| && bitsRead == 7 * (p - p0)
    ensures LebSum(data[p0..p + 1]) == LebSum(data[p0..p]) + Shl(data[p] % 128, bitsRead)
  {
    assert data[p0..p + 1] == data[p0..p] + [data[p]];
    LebSumSnoc(data[p0..p], data[p]);
  }

  /** An accumulated LEB128 value stays below its next bit position. */
  lemma {:induction false} LebSumBound(bs: seq<Byte>)
    ensures LebSum(bs) < Pow2(7 * |bs|)
  {
    if |bs| > 0 {
      var t := bs[1..];
      LebSumBound(t);
      Pow2Step(|t|);
    }
  }

  /** What a `BinaryWriter` writes for a string: its length, 7-bit encoded,
      then its bytes. */
  function EncodeString(s: seq<Byte>): seq<Byte>
  {
    Encode7Bit(|s|) + s
  }

  /** What `readString` at `pos` yields, and where it leaves the stream. */
  function StringAt(data: seq<Byte>, pos: nat): (r: (seq<Byte>, nat))
    requires pos <= |data|
    ensures pos <= r.1 <= |data|
  {
    var lengthEnd := VarintEnd(data, pos);
    var length := LebSum(data[pos..lengthEnd]);
    (Take(data, lengthEnd, length), Advance(data, lengthEnd, length))
  }

  /** `readString` on a stored string yields it and moves past it. */
  lemma ReadStringRoundTrip(data: seq<Byte>, pos: nat, s: seq<Byte>)
    requires IsAt(data, pos, EncodeString(s))
    ensures StringAt(data, pos) == (s, pos + |EncodeString(s)|)
  {
    IsAtSplit(data, pos, Encode7Bit(|s|), s);
    Read7BitRoundTrip(data, pos, |s|);
    IsAtTake(data, pos + |Encode7Bit(|s|)|, s);
  }
}
