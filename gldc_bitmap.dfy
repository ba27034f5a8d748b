/** The usage bitmap of the GLdc video-memory allocator: 256-byte sub-blocks,
    eight to a 2 KiB block, and the searches and updates run over it. */
module GldcBitmap {
  import opened Wrappers

  const EightMeg: nat := 8 * 1024 * 1024
  const TwoKilobytes: nat := 2048
  /** Number of 2 KiB blocks the usage bitmap can describe. */
  const BlockCount: nat := 4096

  /** `round_up`: the least multiple of `multiple` that is at least `n`. */
  function RoundUp(n: nat, multiple: nat): (r: nat)
    requires multiple > 0
    ensures r % multiple == 0 && n <= r < n + multiple
  {
    if n % multiple == 0 then n
    else
      var q := (n + multiple - 1) / multiple;
      assert q * multiple <= n + multiple - 1 < q * multiple + multiple;
      MultipleMod(q, multiple);
      q * multiple
  }

  lemma MulAtLeast(x: int, m: nat)
    requires x >= 1 && m > 0
    ensures x * m >= m
  {
  }

  lemma MultipleMod(q: nat, m: nat)
    requires m > 0
    ensures (q * m) % m == 0
  {
    var d := (q * m) / m;
    var x := q - d;
    assert x * m == q * m - d * m;
    assert x * m == (q * m) % m;
    if x >= 1 {
      MulAtLeast(x, m);
    }
  }

  /** `size_to_subblock_count`: sub-blocks of 256 bytes needed for `size` bytes. */
  function SubblockCount(size: nat): (r: nat)
    ensures r * 256 >= size && (r == 0 || (r - 1) * 256 < size)
  {
    size / 256 + (if size % 256 != 0 then 1 else 0)
  }

  // ---------------------------------------------------------------------------
  // The usage bitmap. Sub-block p lives in byte p / 8; within a byte bit 7 is
  // the lowest sub-block.

  /** The bit of sub-block `k` of a block. */
  function Bit(k: nat): bv8
    requires k < 8
  {
    (0x80 as bv8) >> k
  }

  /** The bitmap flattened to one flag per sub-block. */
  ghost function Flags(u: seq<bv8>): (f: seq<bool>)
    ensures |f| == 8 * |u|
  {
    seq(8 * |u|, p requires 0 <= p < 8 * |u| => u[p / 8] & Bit(p % 8) != 0)
  }

  ghost predicate Used(u: seq<bool>, p: int)
  {
    0 <= p < |u| && u[p]
  }

  /** Block `j` of the flattened bitmap carries the bits of `byte`. */
  ghost predicate ByteMatches(u: seq<bool>, j: nat, byte: bv8)
  {
    forall k :: 8 * j <= k < 8 * j + 8 ==> (Used(u, k) <==> byte & Bit(k - 8 * j) != 0)
  }

  ghost predicate AllFree(u: seq<bool>, s: int, n: int)
  {
    forall q :: s <= q < s + n ==> !Used(u, q)
  }

  /** `n` free sub-blocks from `s`, all below `limit`. */
  ghost predicate FreeRun(u: seq<bool>, limit: int, s: int, n: nat)
  {
    0 <= s && s + n <= limit && AllFree(u, s, n)
  }

  /** A run the search accepts at once: aligned to a block when the request is
      2 KiB or more, inside one block otherwise. */
  ghost predicate Good(u: seq<bool>, limit: int, s: int, n: nat, aligned: bool)
  {
    FreeRun(u, limit, s, n)
    && (aligned ==> s % 8 == 0)
    && (!aligned ==> s / 8 == (s + n - 1) / 8)
  }

  lemma FlagsMatch(u: seq<bv8>, j: nat)
    requires j < |u|
    ensures ByteMatches(Flags(u), j, u[j])
  {
    forall k | 8 * j <= k < 8 * j + 8
      ensures Used(Flags(u), k) <==> u[j] & Bit(k - 8 * j) != 0
    {
      assert k / 8 == j && k % 8 == k - 8 * j;
    }
  }

  /** `t` after `i` of the search's one-bit left shifts. */
  function Shifted(t: bv8, i: nat): bv8
  {
    if i == 0 then t else Shifted(t, i - 1) << 1
  }

  lemma {:induction false} ShiftedIs(t: bv8, i: nat)
    requires i <= 8
    ensures Shifted(t, i) == t << i
  {
    if i > 0 {
      ShiftedIs(t, i - 1);
      ShiftStep(t, i - 1);
    }
  }

  lemma ShiftStep(t: bv8, i: nat)
    requires i < 8
    ensures (t << i) << 1 == t << (i + 1)
  {
  }

  lemma ShiftedTop(t: bv8, i: nat)
    requires i < 8
    ensures (Shifted(t, i) & 0x80 == 0) <==> (t & Bit(i) == 0)
  {
    ShiftedIs(t, i);
  }

  /** Free sub-blocks directly below sub-block `e`: `found_poor_subblocks`. */
  ghost function RunLen(u: seq<bool>, e: nat): (r: nat)
    ensures r <= e
  {
    if e == 0 || Used(u, e - 1) then 0 else RunLen(u, e - 1) + 1
  }

  /** `found_subblocks` after the search has looked at sub-blocks below `e`. */
  ghost function GoodLen(u: seq<bool>, e: nat, aligned: bool): nat
  {
    if e == 0 || Used(u, e - 1) then 0
    else if aligned && GoodLen(u, e - 1, aligned) == 0 && (e - 1) % 8 != 0 then 0
    else if !aligned && GoodLen(u, e - 1, aligned) > 0 && (e - 1) % 8 == 0 then 1
    else GoodLen(u, e - 1, aligned) + 1
  }

  /** How both counts grow over a free sub-block `p`. */
  lemma CountsOverFree(u: seq<bool>, p: nat, aligned: bool)
    requires !Used(u, p)
    ensures RunLen(u, p + 1) == RunLen(u, p) + 1
    ensures GoodLen(u, p + 1, aligned) ==
              if aligned && GoodLen(u, p, aligned) == 0 && p % 8 != 0 then 0
              else if !aligned && GoodLen(u, p, aligned) > 0 && p % 8 == 0 then 1
              else GoodLen(u, p, aligned) + 1
  {
  }

  lemma {:induction false} RunLenFree(u: seq<bool>, e: nat, n: nat)
    requires n <= e
    ensures RunLen(u, e) >= n <==> AllFree(u, e - n, n)
  {
    if n > 0 {
      RunLenFree(u, e - 1, n - 1);
      if !Used(u, e - 1) {
        assert AllFree(u, e - n, n) <==> AllFree(u, e - 1 - (n - 1), n - 1);
      }
    }
  }

  lemma {:induction false} GoodLenShape(u: seq<bool>, e: nat, aligned: bool)
    ensures GoodLen(u, e, aligned) <= RunLen(u, e)
    ensures GoodLen(u, e, aligned) > 0 && aligned ==> (e - GoodLen(u, e, aligned)) % 8 == 0
    ensures GoodLen(u, e, aligned) > 0 && !aligned ==> (e - GoodLen(u, e, aligned)) / 8 == (e - 1) / 8
  {
    if e > 0 {
      GoodLenShape(u, e - 1, aligned);
    }
  }

  lemma {:induction false} GoodLenReaches(u: seq<bool>, limit: int, s: nat, n: nat, aligned: bool)
    requires Good(u, limit, s, n, aligned)
    ensures GoodLen(u, s + n, aligned) >= n
  {
    if n == 1 {
      assert !Used(u, s);
    } else if n > 1 {
      assert Good(u, limit, s, n - 1, aligned);
      GoodLenReaches(u, limit, s, n - 1, aligned);
      assert !Used(u, s + n - 1);
    }
  }

  /** No accepted run ends at or below `upto`. */
  ghost predicate NoGood(u: seq<bool>, limit: int, n: nat, aligned: bool, upto: int)
  {
    forall s :: 0 <= s && s + n <= upto ==> !Good(u, limit, s, n, aligned)
  }

  /** No free run of `n` ends at or below `upto`. */
  ghost predicate NoFree(u: seq<bool>, n: nat, upto: int)
  {
    forall s :: 0 <= s && s + n <= upto ==> !AllFree(u, s, n)
  }

  /** `s` starts the lowest accepted run of `n` sub-blocks. */
  ghost predicate FirstGood(u: seq<bool>, limit: int, s: int, n: nat, aligned: bool)
  {
    Good(u, limit, s, n, aligned) && forall s' :: 0 <= s' < s ==> !Good(u, limit, s', n, aligned)
  }

  /** No free run of `n` sub-blocks starts below `s`. */
  ghost predicate FirstFree(u: seq<bool>, s: int, n: nat)
  {
    forall s' :: 0 <= s' < s ==> !AllFree(u, s', n)
  }

  /** The aligned count stayed below `n` at every sub-block up to `p`. */
  ghost predicate NoHit(u: seq<bool>, n: nat, aligned: bool, p: nat)
  {
    p == 0 || (GoodLen(u, p, aligned) < n && NoHit(u, n, aligned, p - 1))
  }

  /** The fallback the search has recorded after the sub-blocks below `p`: the
      first run whose free count reached `n`. */
  ghost function PoorAt(u: seq<bool>, n: nat, p: nat): Option<nat>
  {
    if p == 0 then None
    else if PoorAt(u, n, p - 1).Some? then PoorAt(u, n, p - 1)
    else if RunLen(u, p) >= n then Some(p - n)
    else None
  }

  /** The invariant of the search after it has looked at the sub-blocks below `p`. */
  ghost predicate SearchState(u: seq<bool>, n: nat, aligned: bool, p: nat,
                              found: nat, foundPoor: nat, poor: Option<nat>)
  {
    found == GoodLen(u, p, aligned) && found < n && foundPoor == RunLen(u, p)
    && NoHit(u, n, aligned, p) && poor == PoorAt(u, n, p)
  }

  lemma {:induction false} NoHitBelow(u: seq<bool>, n: nat, aligned: bool, p: nat, e: nat)
    requires NoHit(u, n, aligned, p) && 0 < e <= p
    ensures GoodLen(u, e, aligned) < n
  {
    if e < p {
      NoHitBelow(u, n, aligned, p - 1, e);
    }
  }

  lemma NoHitMeans(u: seq<bool>, limit: int, n: nat, aligned: bool, p: nat)
    requires n >= 1 && NoHit(u, n, aligned, p)
    ensures NoGood(u, limit, n, aligned, p)
  {
    forall s | 0 <= s && s + n <= p
      ensures !Good(u, limit, s, n, aligned)
    {
      NoHitBelow(u, n, aligned, p, s + n);
      if Good(u, limit, s, n, aligned) {
        GoodLenReaches(u, limit, s, n, aligned);
      }
    }
  }

  lemma {:induction false} PoorMeans(u: seq<bool>, n: nat, p: nat)
    requires n >= 1
    ensures PoorAt(u, n, p).None? ==> NoFree(u, n, p)
    ensures PoorAt(u, n, p).Some? ==> FreeRun(u, p, PoorAt(u, n, p).value, n)
                                      && FirstFree(u, PoorAt(u, n, p).value, n)
  {
    if p > 0 {
      PoorMeans(u, n, p - 1);
      if PoorAt(u, n, p - 1).None? && n <= p {
        RunLenFree(u, p, n);
      }
    }
  }

  lemma SearchHit(u: seq<bool>, limit: int, n: nat, aligned: bool, p: nat,
                  found: nat, foundPoor: nat, poor: Option<nat>)
    requires SearchState(u, n, aligned, p, found, foundPoor, poor)
    requires p < limit && GoodLen(u, p + 1, aligned) >= n
    ensures n <= p + 1 && FirstGood(u, limit, p + 1 - n, n, aligned)
    ensures !NoFree(u, n, limit)
  {
    GoodLenShape(u, p + 1, aligned);
    assert GoodLen(u, p + 1, aligned) == n;
    RunLenFree(u, p + 1, n);
    NoHitMeans(u, limit, n, aligned, p);
    assert Good(u, limit, p + 1 - n, n, aligned);
  }

  /** A block whose byte is 255 has no free sub-block: the search resets both counts. */
  lemma {:induction false} SkipFull(u: seq<bool>, n: nat, aligned: bool, j: nat, k: nat,
                                    found: nat, foundPoor: nat, poor: Option<nat>)
    requires ByteMatches(u, j, 0xFF) && k <= 8
    requires SearchState(u, n, aligned, 8 * j, found, foundPoor, poor)
    ensures SearchState(u, n, aligned, 8 * j + k, if k == 0 then found else 0, if k == 0 then foundPoor else 0, poor)
  {
    if k > 0 {
      SkipFull(u, n, aligned, j, k - 1, found, foundPoor, poor);
      assert Used(u, 8 * j + (k - 1));
    }
  }

  /** `calc_address`: the run of `required` sub-blocks that ends at bit `bit` of
      block `block`, as its first sub-block and its address. */
  function CalcAddress(base: nat, block: nat, bit: nat, required: nat): (r: (nat, nat))
    requires required <= 8 * block + bit + 1
    ensures r.1 + required == 8 * block + bit + 1 && r.0 == base + 256 * r.1
  {
    var offset := 8 * block + bit + 1 - required;
    (base + offset * 256, offset)
  }

  // ---------------------------------------------------------------------------
  // Setting and clearing runs of sub-blocks.

  function Min(a: int, b: int): int { if a < b then a else b }

  /** `1 << k` as a byte. A negative `k` is undefined behaviour in C; the model
      lets it contribute no bit. */
  function ShiftedOne(k: int): bv8
  {
    if 0 <= k < 8 then (1 as bv8) << k else 0
  }

  /** The bits of sub-blocks `o`, ..., `o + n - 1` of a block. */
  function Span(o: nat, n: nat): bv8
    requires o + n <= 8
  {
    if n == 0 then 0 else Span(o, n - 1) | Bit(o + n - 1)
  }

  /** `mask` set or cleared in `b`: `b |= mask` or `b &= ~mask`. */
  function Apply(b: bv8, mask: bv8, value: bool): bv8
  {
    if value then b | mask else b & !mask
  }

  /** The sub-blocks `lo`, ..., `hi - 1` become `value` (used or free) and every
      other sub-block keeps its state. */
  ghost predicate Updated(u: seq<bv8>, v: seq<bv8>, lo: int, hi: int, value: bool)
  {
    |v| == |u| && Marked(Flags(u), Flags(v), lo, hi, value)
  }

  /** The same on flattened bitmaps. */
  ghost predicate Marked(f: seq<bool>, g: seq<bool>, lo: int, hi: int, value: bool)
  {
    |g| == |f| && forall p :: 0 <= p < |f| ==> g[p] == (if lo <= p < hi then value else f[p])
  }

  lemma OneShl(k: nat)
    requires k < 8
    ensures ShiftedOne(7 - k) == Bit(k)
  {
  }

  lemma BitsApart(k: nat, m: nat)
    requires k < 8 && m < 8
    ensures Bit(k) & Bit(m) != 0 <==> k == m
  {
  }

  lemma {:induction false} SpanBits(o: nat, n: nat, k: nat)
    requires o + n <= 8 && k < 8
    ensures Span(o, n) & Bit(k) != 0 <==> o <= k < o + n
  {
    if n > 0 {
      SpanBits(o, n - 1, k);
      BitsApart(o + n - 1, k);
    }
  }

  lemma ApplyBit(b: bv8, mask: bv8, value: bool, k: nat)
    requires k < 8
    ensures Apply(b, mask, value) & Bit(k) != 0 <==> if mask & Bit(k) != 0 then value else b & Bit(k) != 0
  {
  }

  lemma ByteUpdate(u: seq<bv8>, j: nat, o: nat, n: nat, value: bool)
    requires j < |u| && o + n <= 8
    ensures Updated(u, u[j := Apply(u[j], Span(o, n), value)], 8 * j + o, 8 * j + o + n, value)
  {
    var v := u[j := Apply(u[j], Span(o, n), value)];
    forall p | 0 <= p < 8 * |u|
      ensures Flags(v)[p] == (if 8 * j + o <= p < 8 * j + o + n then value else Flags(u)[p])
    {
      var b, k := p / 8, p % 8;
      assert Flags(v)[p] == (v[b] & Bit(k) != 0) && Flags(u)[p] == (u[b] & Bit(k) != 0);
      if b == j {
        ApplyBit(u[j], Span(o, n), value, k);
        SpanBits(o, n, k);
        assert 8 * j + o <= p < 8 * j + o + n <==> o <= k < o + n;
      } else {
        assert v[b] == u[b];
      }
    }
  }

  lemma UpdatedChain(u: seq<bv8>, v: seq<bv8>, w: seq<bv8>, a: int, b: int, c: int, d: int, value: bool)
    requires Updated(u, v, a, b, value) && Updated(v, w, c, d, value)
    requires a <= b && c <= d && (c == b || c == d)
    ensures Updated(u, w, a, if c == d then b else d, value)
  {
  }

  lemma FullByte(b: bv8, value: bool)
    ensures (if value then 255 else 0) == Apply(b, Span(0, 8), value)
  {
    assert Span(0, 8) == 0xFF;
  }

  lemma SpanEmpty(o: nat, n: nat)
    requires o + n <= 8
    ensures Span(o, n) == 0 <==> n == 0
  {
    if n > 0 {
      SpanBits(o, n, o);
    }
  }

  lemma SpanNext(o: nat, i: nat, mask: bv8)
    requires o < 8 && mask == Span(o, Min(i, 8 - o))
    ensures mask | ShiftedOne(7 - (o + i)) == Span(o, Min(i + 1, 8 - o))
  {
    if o + i < 8 {
      SpanGrow(o, i);
    } else {
      NoBitPast(o + i);
      assert Min(i + 1, 8 - o) == Min(i, 8 - o);
    }
  }

  lemma SpanGrow(o: nat, i: nat)
    requires o + i < 8
    ensures Span(o, i) | ShiftedOne(7 - (o + i)) == Span(o, i + 1)
  {
    OneShl(o + i);
  }

  lemma NoBitPast(k: nat)
    requires k >= 8
    ensures ShiftedOne(7 - k) == 0
  {
  }

  /** `for (i = 0; i < c; ++i) mask |= 1 << (7 - (offset + i))`: the bits of
      the sub-blocks from `offset` that fit in the block. */
  method LeadingMask(offset: nat, c: nat) returns (mask: bv8)
    requires offset < 8 && c <= 8
    ensures mask == Span(offset, Min(c, 8 - offset))
  {
    mask := 0;
    var i := 0;
    while i < c
      invariant i <= c && mask == Span(offset, Min(i, 8 - offset))
    {
      SpanNext(offset, i, mask);
      mask := mask | ShiftedOne(7 - (offset + i));
      i := i + 1;
    }
  }

  /** How many sub-blocks at the end of a run `alloc_malloc` as written leaves
      unmarked: those the first-block loop pushes past bit 0. */
  function Lost(offset: nat, count: nat): nat
  {
    if offset + Min(count, 8) > 8 then offset + Min(count, 8) - 8 else 0
  }

  /** The inner loop of `alloc_next_available_ex` over the eight sub-blocks of
      block `j`, whose usage byte is `byte`, most significant bit first. */
  method ScanBlock(ghost u: seq<bool>, ghost limit: nat, base: nat, size: nat, required: nat, j: nat, byte: bv8,
                   found0: nat, foundPoor0: nat, poor0: Option<nat>, poorAddress0: nat)
    returns (found: nat, foundPoor: nat, poor: Option<nat>, poorAddress: nat,
             hit: Option<nat>, hitAddress: nat)
    requires ByteMatches(u, j, byte) && 8 * j + 8 <= limit
    requires SearchState(u, required, size >= 2048, 8 * j, found0, foundPoor0, poor0)
    requires poor0.Some? ==> poorAddress0 == base + 256 * poor0.value
    ensures hit.Some? ==> hitAddress == base + 256 * hit.value
                          && FirstGood(u, limit, hit.value, required, size >= 2048)
                          && !NoFree(u, required, limit)
    ensures hit.None? ==> SearchState(u, required, size >= 2048, 8 * j + 8, found, foundPoor, poor)
                          && (poor.Some? ==> poorAddress == base + 256 * poor.value)
  {
    found, foundPoor, poor, poorAddress, hit, hitAddress := found0, foundPoor0, poor0, poorAddress0, None, 0;
    var t := byte;
    var i := 0;
    while i < 8
      invariant 0 <= i <= 8 && hit.None?
      invariant t == Shifted(byte, i)
      invariant SearchState(u, required, size >= 2048, 8 * j + i, found, foundPoor, poor)
      invariant poor.Some? ==> poorAddress == base + 256 * poor.value
    {
      ShiftedTop(byte, i);
      assert Used(u, 8 * j + i) <==> byte & Bit(8 * j + i - 8 * j) != 0;
      found, foundPoor, poor, poorAddress, hit, hitAddress :=
        ScanBit(u, limit, base, size, required, j, i, t & 0x80 == 0, found, foundPoor, poor, poorAddress);
      if hit.Some? {
        return;
      }
      t := t << 1;
      i := i + 1;
    }
  }

  /** One step of the inner loop: sub-block `i` of block `j`, free or not. */
  method ScanBit(ghost u: seq<bool>, ghost limit: nat, base: nat, size: nat, required: nat, j: nat, i: nat,
                 free: bool, found0: nat, foundPoor0: nat, poor0: Option<nat>, poorAddress0: nat)
    returns (found: nat, foundPoor: nat, poor: Option<nat>, poorAddress: nat,
             hit: Option<nat>, hitAddress: nat)
    requires i < 8 && 8 * j + 8 <= limit
    requires free <==> !Used(u, 8 * j + i)
    requires SearchState(u, required, size >= 2048, 8 * j + i, found0, foundPoor0, poor0)
    requires poor0.Some? ==> poorAddress0 == base + 256 * poor0.value
    ensures hit.Some? ==> hitAddress == base + 256 * hit.value
                          && FirstGood(u, limit, hit.value, required, size >= 2048)
                          && !NoFree(u, required, limit)
    ensures hit.None? ==> SearchState(u, required, size >= 2048, 8 * j + (i + 1), found, foundPoor, poor)
                          && (poor.Some? ==> poorAddress == base + 256 * poor.value)
  {
    if free {
      found, foundPoor, poor, poorAddress, hit, hitAddress :=
        ScanFreeBit(u, limit, base, size, required, j, i, found0, foundPoor0, poor0, poorAddress0);
    } else {
      var aligned := size >= 2048;
      ghost var p := 8 * j + i;
      found, foundPoor, poor, poorAddress, hit, hitAddress := 0, 0, poor0, poorAddress0, None, 0;
      assert GoodLen(u, p + 1, aligned) == 0 && RunLen(u, p + 1) == 0;
      assert PoorAt(u, required, p + 1) == poor;
    }
  }

  /** The free case of `ScanBit`: both run counters grow (the aligned one
      restarts where the source resets it), and a long enough run is a hit. */
  method ScanFreeBit(ghost u: seq<bool>, ghost limit: nat, base: nat, size: nat, required: nat, j: nat, i: nat,
                     found0: nat, foundPoor0: nat, poor0: Option<nat>, poorAddress0: nat)
    returns (found: nat, foundPoor: nat, poor: Option<nat>, poorAddress: nat,
             hit: Option<nat>, hitAddress: nat)
    requires i < 8 && 8 * j + 8 <= limit
    requires !Used(u, 8 * j + i)
    requires SearchState(u, required, size >= 2048, 8 * j + i, found0, foundPoor0, poor0)
    requires poor0.Some? ==> poorAddress0 == base + 256 * poor0.value
    ensures hit.Some? ==> hitAddress == base + 256 * hit.value
                          && FirstGood(u, limit, hit.value, required, size >= 2048)
                          && !NoFree(u, required, limit)
    ensures hit.None? ==> SearchState(u, required, size >= 2048, 8 * j + (i + 1), found, foundPoor, poor)
                          && (poor.Some? ==> poorAddress == base + 256 * poor.value)
  {
    var aligned := size >= 2048;
    ghost var p := 8 * j + i;
    assert p % 8 == i;
    found, foundPoor, poor, poorAddress, hit, hitAddress := found0, foundPoor0, poor0, poorAddress0, None, 0;
    found := CountFree(found, size, i);
    FreeCount(u, p, aligned);
    foundPoor := foundPoor + 1;
    if found >= required {
      SearchHit(u, limit, required, aligned, p, found0, foundPoor0, poor0);
      var slot := CalcAddress(base, j, i, required);
      ghost var s := p + 1 - required;
      assert slot.1 == s && FirstGood(u, limit, s, required, aligned);
      hit, hitAddress := Some(slot.1), slot.0;
      return;
    }
    FreeNoHit(u, required, aligned, p, found0, foundPoor0, poor0);
    if poor.None? && foundPoor >= required {
      var slot := CalcAddress(base, j, i, required);
      poor, poorAddress := Some(slot.1), slot.0;
    }
  }

  /** The update of `found_subblocks` at a free sub-block `i` of a block:
      an aligned search restarts a run that did not begin at a block
      boundary, and an in-block search restarts at each new block. */
  method CountFree(found0: nat, size: nat, i: nat) returns (found: nat)
    ensures found == AfterFree(found0, size >= 2048, i)
  {
    found := found0;
    var blockOverflow := size < 2048 && found > 0 && i == 0;
    var reset := (size >= 2048 && found == 0 && i != 0) || blockOverflow;
    if reset {
      found := 0;
    } else {
      found := found + 1;
    }
    if blockOverflow {
      found := found + 1;
    }
  }

  function AfterFree(found: nat, aligned: bool, i: nat): nat
  {
    if aligned && found == 0 && i != 0 then 0
    else if !aligned && found > 0 && i == 0 then 1
    else found + 1
  }

  /** `AfterFree` is how the aligned-run count grows over a free sub-block. */
  lemma FreeCount(u: seq<bool>, p: nat, aligned: bool)
    requires !Used(u, p)
    ensures RunLen(u, p + 1) == RunLen(u, p) + 1
    ensures GoodLen(u, p + 1, aligned) == AfterFree(GoodLen(u, p, aligned), aligned, p % 8)
  {
    CountsOverFree(u, p, aligned);
  }

  /** Past a free sub-block `p` that completes no run, the search state
      moves on by one; the fallback is recorded once the free count reaches
      `n`. */
  lemma FreeNoHit(u: seq<bool>, n: nat, aligned: bool, p: nat, found: nat, foundPoor: nat, poor: Option<nat>)
    requires SearchState(u, n, aligned, p, found, foundPoor, poor) && !Used(u, p)
    requires GoodLen(u, p + 1, aligned) < n
    ensures SearchState(u, n, aligned, p + 1, GoodLen(u, p + 1, aligned), foundPoor + 1, PoorAt(u, n, p + 1))
    ensures PoorAt(u, n, p + 1) == if poor.None? && foundPoor + 1 >= n then Some(p + 1 - n) else poor
  {
    CountsOverFree(u, p, aligned);
  }

  // ---------------------------------------------------------------------------
  // Counting used and free sub-blocks.

  const NibbleLookup: seq<nat> := [0, 1, 1, 2, 1, 2, 2, 3, 1, 2, 2, 3, 2, 3, 3, 4]

  function Ones(c: bool): nat { if c then 1 else 0 }

  /** The used sub-blocks one usage byte records, bit by bit. */
  function PopCount(b: bv8): nat
  {
    Ones(b & Bit(0) != 0) + Ones(b & Bit(1) != 0) + Ones(b & Bit(2) != 0) + Ones(b & Bit(3) != 0)
      + Ones(b & Bit(4) != 0) + Ones(b & Bit(5) != 0) + Ones(b & Bit(6) != 0) + Ones(b & Bit(7) != 0)
  }

  /** `count_ones`: two lookups in a table of nibble weights. */
  function CountOnes(b: bv8): (r: nat)
    ensures r == PopCount(b)
  {
    NibbleCount(b);
    NibbleLookup[(b & 0x0F) as int] + NibbleLookup[(b >> 4) as int]
  }

  lemma NibbleTable(n: bv8)
    requires n < 16
    ensures NibbleLookup[n as int] == Ones(n & 8 != 0) + Ones(n & 4 != 0) + Ones(n & 2 != 0) + Ones(n & 1 != 0)
  {
    if n == 0 {} else if n == 1 {} else if n == 2 {} else if n == 3 {}
    else if n == 4 {} else if n == 5 {} else if n == 6 {} else if n == 7 {}
    else if n == 8 {} else if n == 9 {} else if n == 10 {} else if n == 11 {}
    else if n == 12 {} else if n == 13 {} else if n == 14 {} else {}
  }

  lemma HighNibble(b: bv8)
    ensures NibbleLookup[(b >> 4) as int]
            == Ones(b & Bit(0) != 0) + Ones(b & Bit(1) != 0) + Ones(b & Bit(2) != 0) + Ones(b & Bit(3) != 0)
  {
    NibbleTable(b >> 4);
    assert (b >> 4) & 8 != 0 <==> b & Bit(0) != 0;
    assert (b >> 4) & 4 != 0 <==> b & Bit(1) != 0;
    assert (b >> 4) & 2 != 0 <==> b & Bit(2) != 0;
    assert (b >> 4) & 1 != 0 <==> b & Bit(3) != 0;
  }

  lemma LowNibble(b: bv8)
    ensures NibbleLookup[(b & 0x0F) as int]
            == Ones(b & Bit(4) != 0) + Ones(b & Bit(5) != 0) + Ones(b & Bit(6) != 0) + Ones(b & Bit(7) != 0)
  {
    NibbleTable(b & 0x0F);
    assert (b & 0x0F) & 8 != 0 <==> b & Bit(4) != 0;
    assert (b & 0x0F) & 4 != 0 <==> b & Bit(5) != 0;
    assert (b & 0x0F) & 2 != 0 <==> b & Bit(6) != 0;
    assert (b & 0x0F) & 1 != 0 <==> b & Bit(7) != 0;
  }

  lemma NibbleCount(b: bv8)
    ensures NibbleLookup[(b & 0x0F) as int] + NibbleLookup[(b >> 4) as int] == PopCount(b)
  {
    HighNibble(b);
    LowNibble(b);
  }

  /** Used sub-blocks below `e`. */
  ghost function UsedCount(u: seq<bool>, e: nat): (r: nat)
    ensures r <= e
  {
    if e == 0 then 0 else UsedCount(u, e - 1) + Ones(Used(u, e - 1))
  }

  lemma UsedCountStep(u: seq<bool>, j: nat, byte: bv8, k: nat)
    requires ByteMatches(u, j, byte) && k < 8
    ensures UsedCount(u, 8 * j + k + 1) == UsedCount(u, 8 * j + k) + Ones(byte & Bit(k) != 0)
  {
    assert Used(u, 8 * j + k) <==> byte & Bit(8 * j + k - 8 * j) != 0;
  }

  lemma LowHalfCount(u: seq<bool>, j: nat, byte: bv8)
    requires ByteMatches(u, j, byte)
    ensures UsedCount(u, 8 * j + 4) == UsedCount(u, 8 * j)
              + Ones(byte & Bit(0) != 0) + Ones(byte & Bit(1) != 0) + Ones(byte & Bit(2) != 0) + Ones(byte & Bit(3) != 0)
  {
    UsedCountStep(u, j, byte, 0);
    UsedCountStep(u, j, byte, 1);
    UsedCountStep(u, j, byte, 2);
    UsedCountStep(u, j, byte, 3);
  }

  lemma HighHalfCount(u: seq<bool>, j: nat, byte: bv8)
    requires ByteMatches(u, j, byte)
    ensures UsedCount(u, 8 * j + 8) == UsedCount(u, 8 * j + 4)
              + Ones(byte & Bit(4) != 0) + Ones(byte & Bit(5) != 0) + Ones(byte & Bit(6) != 0) + Ones(byte & Bit(7) != 0)
  {
    UsedCountStep(u, j, byte, 4);
    UsedCountStep(u, j, byte, 5);
    UsedCountStep(u, j, byte, 6);
    UsedCountStep(u, j, byte, 7);
  }

  /** One block adds the weight of its byte. */
  lemma UsedCountBlock(u: seq<bool>, j: nat, byte: bv8)
    requires ByteMatches(u, j, byte)
    ensures UsedCount(u, 8 * j + 8) == UsedCount(u, 8 * j) + PopCount(byte)
  {
    LowHalfCount(u, j, byte);
    HighHalfCount(u, j, byte);
  }

  /** How many of `lo`, ..., `hi - 1` lie below `e`. */
  function Inside(lo: int, hi: int, e: int): int
  {
    if e <= lo then 0 else if e >= hi then hi - lo else e - lo
  }

  /** Marking a free run used adds its length to the used count; clearing a
      used run takes it away. */
  lemma {:induction false} UsedCountFlipped(u: seq<bool>, v: seq<bool>, lo: int, hi: int, value: bool, e: nat)
    requires Marked(u, v, lo, hi, value) && 0 <= lo <= hi && e <= |u|
    requires forall p :: lo <= p < hi && 0 <= p < e ==> u[p] == !value
    ensures UsedCount(v, e) == UsedCount(u, e) + (if value then Inside(lo, hi, e) else -Inside(lo, hi, e))
  {
    if e > 0 {
      UsedCountFlipped(u, v, lo, hi, value, e - 1);
      assert Used(v, e - 1) == (if lo <= e - 1 < hi then value else Used(u, e - 1));
    }
  }

  /** The longest run of free sub-blocks below `e`. */
  ghost function Longest(u: seq<bool>, e: nat): nat
  {
    if e == 0 then 0 else Max(Longest(u, e - 1), RunLen(u, e))
  }

  function Max(a: int, b: int): int { if a < b then b else a }

  /** No free run below `e` is longer than `Longest`. */
  lemma {:induction false} LongestBound(u: seq<bool>, e: nat, s: nat, n: nat)
    requires FreeRun(u, e, s, n)
    ensures n <= Longest(u, e)
  {
    if s + n == e {
      RunLenFree(u, e, n);
    } else {
      LongestBound(u, e - 1, s, n);
    }
  }

  /** And a free run of that length exists. */
  lemma {:induction false} LongestWitness(u: seq<bool>, e: nat) returns (s: nat)
    ensures FreeRun(u, e, s, Longest(u, e))
  {
    if e == 0 {
      s := 0;
    } else if Longest(u, e - 1) < RunLen(u, e) || Longest(u, e) == RunLen(u, e) {
      RunLenFree(u, e, RunLen(u, e));
      s := e - RunLen(u, e);
    } else {
      s := LongestWitness(u, e - 1);
    }
  }

  /** One sub-block of `alloc_count_continuous` as the source writes it: a used
      sub-block resets the run before its length is compared, so only the run
      that reaches the end of the pool is ever recorded. */
  method ContinuousBitAsWritten(ghost u: seq<bool>, ghost p: nat, bitSet: bool, freeBits0: nat, largest0: nat)
    returns (freeBits: nat, largest: nat)
    requires bitSet <==> Used(u, p)
    requires freeBits0 == RunLen(u, p) && largest0 == 0
    ensures freeBits == RunLen(u, p + 1) && largest == 0
  {
    freeBits, largest := freeBits0, largest0;
    if !bitSet {
      freeBits := freeBits + 1;
    } else {
      freeBits := 0;
      var freeSize: nat := freeBits * 256;
      if freeSize > largest {
        largest := freeSize;
      }
    }
  }

  /** One sub-block of `alloc_count_continuous` with the run compared before
      it is reset. */
  method ContinuousBit(ghost u: seq<bool>, ghost p: nat, bitSet: bool, freeBits0: nat, largest0: nat)
    returns (freeBits: nat, largest: nat)
    requires bitSet <==> Used(u, p)
    requires freeBits0 == RunLen(u, p) && largest0 <= 256 * Longest(u, p)
    requires Max(largest0, 256 * freeBits0) == 256 * Longest(u, p)
    ensures freeBits == RunLen(u, p + 1) && largest <= 256 * Longest(u, p + 1)
    ensures Max(largest, 256 * freeBits) == 256 * Longest(u, p + 1)
  {
    freeBits, largest := freeBits0, largest0;
    if !bitSet {
      freeBits := freeBits + 1;
    } else {
      var freeSize := freeBits * 256;
      if freeSize > largest {
        largest := freeSize;
      }
      freeBits := 0;
    }
  }

  // ---------------------------------------------------------------------------
  // The search result as a function of the bitmap.

  /** What `alloc_next_available_ex` settles on for `n` sub-blocks: nothing
      when no free run of `n` lies below `limit`, otherwise the start of the
      lowest accepted run or, when there is none, of the lowest free run. */
  ghost predicate Chosen(u: seq<bool>, limit: int, n: nat, aligned: bool, start: Option<int>)
  {
    (start.None? <==> n == 0 || NoFree(u, n, limit))
    && (start.Some? ==>
          FreeRun(u, limit, start.value, n)
          && (FirstGood(u, limit, start.value, n, aligned)
              || (NoGood(u, limit, n, aligned, limit) && FirstFree(u, start.value, n))))
  }

  /** The search is deterministic: the bitmap fixes its answer. */
  lemma ChosenUnique(u: seq<bool>, limit: int, n: nat, aligned: bool, a: Option<int>, b: Option<int>)
    requires Chosen(u, limit, n, aligned, a) && Chosen(u, limit, n, aligned, b)
    ensures a == b
  {
    if a.Some? && b.Some? {
      var s, t := a.value, b.value;
      if FirstGood(u, limit, s, n, aligned) {
        assert FirstGood(u, limit, t, n, aligned);
      } else {
        assert !FirstGood(u, limit, t, n, aligned);
      }
    }
  }

  /** An all-zero bitmap marks no sub-block. */
  lemma ZeroFlags(u: seq<bv8>)
    requires forall j :: 0 <= j < |u| ==> u[j] == 0
    ensures forall p :: 0 <= p < |Flags(u)| ==> !Flags(u)[p]
  {
  }

  /** The inner loop of `alloc_count_continuous` as the source writes it, over
      block `j` with usage byte `t`, bit 7 first. */
  method ContinuousBlockAsWritten(ghost u: seq<bool>, j: nat, t: bv8, freeBits0: nat, largest0: nat)
    returns (freeBits: nat, largest: nat)
    requires ByteMatches(u, j, t)
    requires freeBits0 == RunLen(u, 8 * j) && largest0 == 0
    ensures freeBits == RunLen(u, 8 * j + 8) && largest == 0
  {
    freeBits, largest := freeBits0, largest0;
    var i := 7;
    while i >= 0
      invariant -1 <= i <= 7
      invariant freeBits == RunLen(u, 8 * j + (7 - i)) && largest == 0
    {
      var bitSet := t & ShiftedOne(i) != 0;
      BitOfSubblock(u, j, t, i);
      freeBits, largest := ContinuousBitAsWritten(u, 8 * j + (7 - i), bitSet, freeBits, largest);
      i := i - 1;
    }
  }

  /** The inner loop of `alloc_count_continuous` with the comparison moved
      before the reset. */
  method ContinuousBlock(ghost u: seq<bool>, j: nat, t: bv8, freeBits0: nat, largest0: nat)
    returns (freeBits: nat, largest: nat)
    requires ByteMatches(u, j, t)
    requires freeBits0 == RunLen(u, 8 * j) && largest0 <= 256 * Longest(u, 8 * j)
    requires Max(largest0, 256 * freeBits0) == 256 * Longest(u, 8 * j)
    ensures freeBits == RunLen(u, 8 * j + 8) && largest <= 256 * Longest(u, 8 * j + 8)
    ensures Max(largest, 256 * freeBits) == 256 * Longest(u, 8 * j + 8)
  {
    freeBits, largest := freeBits0, largest0;
    var i := 7;
    while i >= 0
      invariant -1 <= i <= 7
      invariant freeBits == RunLen(u, 8 * j + (7 - i)) && largest <= 256 * Longest(u, 8 * j + (7 - i))
      invariant Max(largest, 256 * freeBits) == 256 * Longest(u, 8 * j + (7 - i))
    {
      var bitSet := t & ShiftedOne(i) != 0;
      BitOfSubblock(u, j, t, i);
      freeBits, largest := ContinuousBit(u, 8 * j + (7 - i), bitSet, freeBits, largest);
      i := i - 1;
    }
  }

  /** `t & (1 << i)` tests sub-block `7 - i` of the block. */
  lemma BitOfSubblock(u: seq<bool>, j: nat, t: bv8, i: int)
    requires ByteMatches(u, j, t) && 0 <= i < 8
    ensures (t & ShiftedOne(i) != 0) <==> Used(u, 8 * j + (7 - i))
  {
    OneShl(7 - i);
    assert Used(u, 8 * j + (7 - i)) <==> t & Bit(8 * j + (7 - i) - 8 * j) != 0;
  }

  /** The facts the search establishes amount to `Chosen`. */
  lemma ChosenOfSearch(u: seq<bool>, limit: int, n: nat, aligned: bool, found: bool, start: nat, fallback: bool)
    requires !found <==> n == 0 || NoFree(u, n, limit)
    requires found ==> FreeRun(u, limit, start, n)
    requires found && !fallback ==> FirstGood(u, limit, start, n, aligned)
    requires found && fallback ==> NoGood(u, limit, n, aligned, limit) && FirstFree(u, start, n)
    ensures Chosen(u, limit, n, aligned, if found then Some(start) else None)
  {
  }

  // ---------------------------------------------------------------------------
  // Where the code as written goes wrong.

  /** Only an oversized first loop loses bits, and no accepted run makes it
      oversized: the loss is confined to fallback runs. */
  lemma GoodRunLosesNothing(u: seq<bool>, limit: int, s: nat, n: nat, aligned: bool)
    requires Good(u, limit, s, n, aligned)
    ensures Lost(s % 8, n) == 0
  {
    if !aligned && n > 0 {
      assert 8 * (s / 8) <= s + n - 1 < 8 * (s / 8) + 8;
    }
  }

  /** Sub-blocks 7 and 8 are the only free ones of a two-block pool whose bytes
      read 0xFE and 0x7F. */
  lemma StraddleFlags()
    ensures forall p :: 0 <= p < 16 ==> (Used(Flags([0xFE, 0x7F]), p) <==> p != 7 && p != 8)
  {
    var u: seq<bv8> := [0xFE, 0x7F];
    forall p | 0 <= p < 16
      ensures Used(Flags(u), p) <==> p != 7 && p != 8
    {
      assert Flags(u)[p] == (u[p / 8] & Bit(p % 8) != 0);
      if p < 8 {
        assert u[p / 8] == 0xFE;
        assert p % 8 == p;
      } else {
        assert u[p / 8] == 0x7F;
        assert p % 8 == p - 8;
      }
    }
  }

  /** On that pool a 512-byte request falls back to the run 7..8, which crosses
      the block boundary, and the first mask loop as written pushes the bit of
      sub-block 8 past bit 0: it is left free after the allocation. */
  lemma StraddleLosesSubblock()
    ensures Chosen(Flags([0xFE, 0x7F]), 16, SubblockCount(512), 512 >= 2048, Some(7))
    ensures Lost(7 % 8, SubblockCount(512)) == 1
  {
    var u := Flags([0xFE, 0x7F]);
    StraddleFlags();
    assert SubblockCount(512) == 2;
    assert AllFree(u, 7, 2);
    forall s | 0 <= s && s + 2 <= 16
      ensures !Good(u, 16, s, 2, false)
    {
      if s != 7 {
        assert Used(u, s) || Used(u, s + 1);
      }
    }
    forall s | 0 <= s < 7
      ensures !AllFree(u, s, 2)
    {
      assert Used(u, s);
    }
  }

  /** `alloc_release_blocks` runs the same loops with `value` false, so as
      written it clears exactly what `alloc_malloc` as written set.  Once the
      allocation is corrected, the run 7..8 on `[0xFE, 0x7F]` is marked in
      full and the pool reads `[0xFF, 0xFF]`; releasing that entry with the
      loops as written then clears sub-block 7 only, so sub-block 8 stays
      used: the two loops must be corrected together. */
  lemma StraddleReleaseTruncated(v: seq<bv8>)
    requires Updated([0xFF, 0xFF], v, 7, 7 + SubblockCount(512) - Lost(7 % 8, SubblockCount(512)), false)
    ensures Updated([0xFE, 0x7F], [0xFF, 0xFF], 7, 7 + SubblockCount(512), true)
    ensures !Used(Flags(v), 7) && Used(Flags(v), 8)
  {
    var u: seq<bv8> := [0xFF, 0xFF];
    StraddleLosesSubblock();
    StraddleFlags();
    forall p | 0 <= p < 16
      ensures Used(Flags(u), p)
    {
      assert Flags(u)[p] == (u[p / 8] & Bit(p % 8) != 0);
      assert u[p / 8] == 0xFF;
      FullByteBit(p % 8);
    }
    assert Flags(v)[8] == Flags(u)[8];
  }

  /** Every bit of a full byte is set. */
  lemma FullByteBit(k: nat)
    requires k < 8
    ensures 0xFF & Bit(k) != 0
  {
    if k == 0 { } else if k == 1 { } else if k == 2 { } else if k == 3 { }
    else if k == 4 { } else if k == 5 { } else if k == 6 { } else { }
  }

  /** A one-block pool whose byte reads 0x01: sub-blocks 0..6 are free and 7 is
      used. */
  lemma InteriorFlags()
    ensures forall p :: 0 <= p < 8 ==> (Used(Flags([0x01]), p) <==> p == 7)
  {
    var u: seq<bv8> := [0x01];
    forall p | 0 <= p < 8
      ensures Used(Flags(u), p) <==> p == 7
    {
      assert Flags(u)[p] == (u[0] & Bit(p) != 0);
    }
  }

  /** There the longest free run is seven sub-blocks, but the run reaching the
      end of the pool, which is all `alloc_count_continuous` as written
      reports, is empty. */
  lemma InteriorRunMissed()
    ensures RunLen(Flags([0x01]), 8) == 0 && Longest(Flags([0x01]), 8) == 7
  {
    var u := Flags([0x01]);
    InteriorFlags();
    assert AllFree(u, 0, 7);
    RunLenFree(u, 7, 7);
    LongestBound(u, 7, 0, 7);
    var s := LongestWitness(u, 8);
  }
}
