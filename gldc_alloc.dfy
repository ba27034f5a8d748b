/** The GLdc video-memory allocator: one pool, a bitmap of its 256-byte
    sub-blocks and the list of live allocations. */
module GldcAlloc {
  import opened Wrappers
  import opened GldcBitmap
  import opened GldcEntries

  /** What `alloc_malloc` hands back: an address, `NULL`, or, in a debug build,
      the assertion that `ctx` is new. */
  datatype MallocResult = Allocated(address: nat) | NoSpace | DuplicateCtx

  /** One call of the defragmenter's callback: old address, new address, context. */
  datatype Move = Move(from: nat, to: nat, ctx: int)

  lemma MulSucc(a: nat, b: nat)
    ensures (a + 1) * b == a * b + b
  {
  }

  /** The search for a run of `e`'s size on bitmap `u` offers `e` no run
      below its address: `alloc_run_defrag` leaves it where it is. */
  ghost predicate Stays(u: seq<bool>, limit: int, base: nat, e: Entry)
  {
    forall r :: Chosen(u, limit, Len(e), e.size >= 2048, r) ==> !(r.Some? && base + 256 * r.value < e.pointer)
  }

  lemma StaysIff(u: seq<bool>, limit: int, base: nat, e: Entry, r: Option<int>)
    requires Chosen(u, limit, Len(e), e.size >= 2048, r)
    ensures Stays(u, limit, base, e) <==> !(r.Some? && base + 256 * r.value < e.pointer)
  {
    var n, aligned := Len(e), e.size >= 2048;
    forall r' | Chosen(u, limit, n, aligned, r')
      ensures r' == r
    {
      ChosenUnique(u, limit, n, aligned, r', r);
    }
  }

  /** The `ctx` `pvr_mem_malloc` passes: `nullptr`. */
  const NullCtx: int := 0

  class Allocator {
    /** `block_usage`: one byte per 2 KiB block, one bit per 256-byte sub-block. */
    const usage: array<bv8>
    /** `pool`: the start of the managed region, 0 while uninitialised. */
    var pool: nat
    var baseAddress: nat
    var blockCount: nat
    var poolSize: nat
    /** `allocations`: the live allocations, largest first. */
    var allocations: seq<Entry>

    /** The pool header leaves every entry inside the pool, every entry's
        sub-blocks marked used, every other sub-block free, no two entries
        overlapping and the list in descending size order. */
    ghost predicate Valid()
      reads this, usage
    {
      usage.Length == BlockCount && blockCount <= BlockCount && poolSize == 2048 * blockCount
      && Invariant(baseAddress, 8 * blockCount, Flags(usage[..]), allocations)
    }

    ghost predicate SameLayout(p: nat, b: nat, bc: nat, ps: nat)
      reads this
    {
      pool == p && baseAddress == b && blockCount == bc && poolSize == ps
    }

    /** The static `pool_header`: no pool, an empty bitmap and no allocations. */
    constructor ()
      ensures Valid() && pool == 0 && blockCount == 0 && allocations == []
    {
      usage := new bv8[BlockCount](_ => 0);
      pool, baseAddress, blockCount, poolSize := 0, 0, 0, 0;
      allocations := [];
      new;
      ZeroFlags(usage[..]);
    }

    /** The middle and trailing loops shared by `alloc_malloc` and
        `alloc_release_blocks`: whole blocks while more than eight sub-blocks
        remain, then a mask for the rest. */
    method UpdateTail(block: nat, remaining: nat, value: bool)
      requires usage.Length == BlockCount && 8 * block + remaining <= 8 * BlockCount
      modifies usage
      ensures Updated(old(usage[..]), usage[..], 8 * block, 8 * block + remaining, value)
    {
      var b, r := block, remaining;
      while r > 8
        invariant 8 * b + r == 8 * block + remaining
        invariant Updated(old(usage[..]), usage[..], 8 * block, 8 * b, value)
      {
        ghost var before := usage[..];
        FullByte(usage[b], value);
        ByteUpdate(before, b, 0, 8, value);
        usage[b] := if value then 255 else 0;
        assert usage[..] == before[b := Apply(before[b], Span(0, 8), value)];
        UpdatedChain(old(usage[..]), before, usage[..], 8 * block, 8 * b, 8 * b, 8 * b + 8, value);
        b, r := b + 1, r - 8;
      }
      var mask := LeadingMask(0, r);
      SpanEmpty(0, r);
      ghost var before := usage[..];
      if mask != 0 {
        ByteUpdate(before, b, 0, r, value);
        usage[b] := Apply(usage[b], mask, value);
        assert usage[..] == before[b := Apply(before[b], Span(0, r), value)];
        UpdatedChain(old(usage[..]), before, usage[..], 8 * block, 8 * b, 8 * b, 8 * b + r, value);
      }
    }

    /** The three mask loops of `alloc_malloc` (`value` true) and
        `alloc_release_blocks` (`value` false) as they are evidently meant:
        the first loop is bounded by the room left in the first block, so the
        whole run is marked.  `UpdateRangeAsWritten` is the loops as the
        source writes them; `Malloc` and `ReleaseBlocks` use this one. */
    method UpdateRange(start: nat, count: nat, value: bool)
      requires usage.Length == BlockCount && start + count <= 8 * BlockCount
      modifies usage
      ensures Updated(old(usage[..]), usage[..], start, start + count, value)
    {
      var block, offset := start / 8, start % 8;
      var c := if count < 8 - offset then count else 8 - offset;
      var mask := LeadingMask(offset, c);
      var remaining := count - c;
      SpanEmpty(offset, c);
      if mask != 0 {
        ByteUpdate(usage[..], block, offset, c, value);
        usage[block] := Apply(usage[block], mask, value);
        block := block + 1;
      }
      ghost var middle := usage[..];
      UpdateTail(block, remaining, value);
      UpdatedChain(old(usage[..]), middle, usage[..], start, start + c, 8 * block, 8 * block + remaining, value);
    }

    /** The same loops as the source writes them: the first loop runs
        `min(count, 8)` times from `offset`, so the bits it shifts past bit 0
        are lost and the run ends early by `Lost(offset, count)` sub-blocks. */
    method UpdateRangeAsWritten(start: nat, count: nat, value: bool)
      requires usage.Length == BlockCount && start + count <= 8 * BlockCount
      modifies usage
      ensures Updated(old(usage[..]), usage[..], start, start + count - Lost(start % 8, count), value)
    {
      var block, offset := start / 8, start % 8;
      var c := if count < 8 then count else 8;
      var mask := LeadingMask(offset, c);
      var remaining := count - c;
      SpanEmpty(offset, Min(c, 8 - offset));
      if mask != 0 {
        ByteUpdate(usage[..], block, offset, Min(c, 8 - offset), value);
        usage[block] := Apply(usage[block], mask, value);
        block := block + 1;
      }
      ghost var middle := usage[..];
      UpdateTail(block, remaining, value);
      UpdatedChain(old(usage[..]), middle, usage[..], start, start + Min(c, 8 - offset),
                   8 * block, 8 * block + remaining, value);
    }

    /** `alloc_next_available_ex`: the first block-aligned (2 KiB or more) or
        in-block (smaller) run of free sub-blocks; failing that, the first free
        run of any shape, flagged as the fallback. */
    method NextAvailable(size: nat) returns (address: Option<nat>, start: nat, required: nat, fallback: bool)
      requires usage.Length == BlockCount && blockCount <= BlockCount
      ensures required == SubblockCount(size)
      ensures address.None? <==> required == 0 || NoFree(Flags(usage[..]), required, 8 * blockCount)
      ensures address.Some? ==> address.value == baseAddress + 256 * start
                                && FreeRun(Flags(usage[..]), 8 * blockCount, start, required)
      ensures address.Some? && !fallback ==> FirstGood(Flags(usage[..]), 8 * blockCount, start, required, size >= 2048)
      ensures address.Some? && fallback ==>
                NoGood(Flags(usage[..]), 8 * blockCount, required, size >= 2048, 8 * blockCount)
                && FirstFree(Flags(usage[..]), start, required)
    {
      ghost var u := Flags(usage[..]);
      ghost var limit := 8 * blockCount;
      required := SubblockCount(size);
      var aligned := size >= 2048;
      start, fallback := 0, false;
      var hit, hitAddress, found, foundPoor, poor, poorAddress := SearchBlocks(size, required);
      if hit.Some? {
        address, start := Some(hitAddress), hit.value;
        return;
      }
      if required > 0 {
        PoorMeans(u, required, limit);
        NoHitMeans(u, limit, required, aligned, limit);
      }
      if poor.Some? {
        address, start, fallback := Some(poorAddress), poor.value, true;
      } else {
        address := None;
      }
    }

    /** The block loop of `alloc_next_available_ex`: it returns at the first
        accepted run, and otherwise ends with the search state after every
        block. */
    method SearchBlocks(size: nat, required: nat)
      returns (hit: Option<nat>, hitAddress: nat, found: nat, foundPoor: nat, poor: Option<nat>, poorAddress: nat)
      requires usage.Length == BlockCount && blockCount <= BlockCount
      ensures hit.Some? ==> required > 0 && hitAddress == baseAddress + 256 * hit.value
                            && FirstGood(Flags(usage[..]), 8 * blockCount, hit.value, required, size >= 2048)
                            && !NoFree(Flags(usage[..]), required, 8 * blockCount)
      ensures hit.None? && required == 0 ==> poor.None?
      ensures hit.None? && required > 0 ==>
                SearchState(Flags(usage[..]), required, size >= 2048, 8 * blockCount, found, foundPoor, poor)
      ensures hit.None? && poor.Some? ==> poorAddress == baseAddress + 256 * poor.value
    {
      ghost var u := Flags(usage[..]);
      ghost var limit := 8 * blockCount;
      var aligned := size >= 2048;
      poor, poorAddress, hit, hitAddress := None, 0, None, 0;
      found, foundPoor := 0, 0;
      var j := 0;
      while j < blockCount
        invariant j <= blockCount && hit.None?
        invariant required == 0 ==> poor.None?
        invariant required == 0 || SearchState(u, required, aligned, 8 * j, found, foundPoor, poor)
        invariant poor.Some? ==> poorAddress == baseAddress + 256 * poor.value
      {
        found, foundPoor, poor, poorAddress, hit, hitAddress := SearchBlock(size, required, j, found, foundPoor, poor, poorAddress);
        if hit.Some? {
          return;
        }
        j := j + 1;
      }
    }

    /** One pass of the block loop: a full block resets both counts, any other
        block is scanned bit by bit. */
    method SearchBlock(size: nat, required: nat, j: nat, found0: nat, foundPoor0: nat, poor0: Option<nat>, poorAddress0: nat)
      returns (found: nat, foundPoor: nat, poor: Option<nat>, poorAddress: nat, hit: Option<nat>, hitAddress: nat)
      requires usage.Length == BlockCount && j < blockCount <= BlockCount
      requires required == 0 ==> poor0.None?
      requires required == 0 || SearchState(Flags(usage[..]), required, size >= 2048, 8 * j, found0, foundPoor0, poor0)
      requires poor0.Some? ==> poorAddress0 == baseAddress + 256 * poor0.value
      ensures hit.Some? ==> required > 0 && hitAddress == baseAddress + 256 * hit.value
                            && FirstGood(Flags(usage[..]), 8 * blockCount, hit.value, required, size >= 2048)
                            && !NoFree(Flags(usage[..]), required, 8 * blockCount)
      ensures hit.None? ==> (required == 0 ==> poor.None?)
                            && (required == 0 || SearchState(Flags(usage[..]), required, size >= 2048, 8 * (j + 1), found, foundPoor, poor))
                            && (poor.Some? ==> poorAddress == baseAddress + 256 * poor.value)
    {
      ghost var u := Flags(usage[..]);
      found, foundPoor, poor, poorAddress, hit, hitAddress := found0, foundPoor0, poor0, poorAddress0, None, 0;
      if found < required {
        var t := usage[j];
        FlagsMatch(usage[..], j);
        if t == 255 {
          SkipFull(u, required, size >= 2048, j, 8, found, foundPoor, poor);
          found, foundPoor := 0, 0;
        } else {
          found, foundPoor, poor, poorAddress, hit, hitAddress :=
            ScanBlock(u, 8 * blockCount, baseAddress, size, required, j, t, found, foundPoor, poor, poorAddress);
        }
      }
    }

    /** `alloc_init`: claims the region `[p, p + size)`. It fails when a pool is
        already set or the region is larger than the bitmap can describe;
        otherwise the pool starts at the first 2 KiB boundary at or above `p`
        and holds every whole block that fits. */
    method Init(p: nat, size: nat) returns (r: int)
      requires Valid()
      modifies this, usage
      ensures Valid()
      ensures r == 0 || r == -1
      ensures r == -1 <==> old(pool) != 0 || size > EightMeg
      ensures r == -1 ==> pool == old(pool) && baseAddress == old(baseAddress) && blockCount == old(blockCount)
                          && poolSize == old(poolSize) && allocations == old(allocations) && usage[..] == old(usage[..])
      ensures r == 0 ==> pool == p && allocations == [] && (forall j :: 0 <= j < usage.Length ==> usage[j] == 0)
      ensures r == 0 ==> baseAddress % TwoKilobytes == 0 && p <= baseAddress < p + TwoKilobytes
      ensures r == 0 ==> poolSize == blockCount * TwoKilobytes
                         && (blockCount > 0 ==> baseAddress + poolSize <= p + size)
                         && p + size < baseAddress + poolSize + TwoKilobytes
    {
      if pool != 0 {
        return -1;
      }
      if size > EightMeg {
        return -1;
      }
      forall j | 0 <= j < usage.Length {
        usage[j] := 0;
      }
      pool := p;
      var b := RoundUp(p, TwoKilobytes);
      baseAddress := b;
      // `(p + size) - base_address` is signed and above -2048, so the division
      // truncates a negative difference to 0.
      blockCount := if p + size >= b then (p + size - b) / TwoKilobytes else 0;
      poolSize := blockCount * TwoKilobytes;
      allocations := [];
      ZeroFlags(usage[..]);
      r := 0;
    }

    /** `alloc_malloc`: reserves the run `alloc_next_available_ex` chooses for
        `size` bytes, marks it used and, unless the call comes from the
        defragmenter, links a new entry in by size. In a debug build
        (`debugChecks`) a `ctx` already in the list trips an assertion, which
        the model reports as `DuplicateCtx` with nothing changed.  The run is
        marked with the intended `UpdateRange`, not `UpdateRangeAsWritten`,
        which loses the bits past the first block of a straddling run. */
    method Malloc(ctx: int, size: nat, forDefrag: bool, debugChecks: bool) returns (r: MallocResult)
      requires Valid()
      modifies this, usage
      ensures usage.Length == BlockCount && SameLayout(old(pool), old(baseAddress), old(blockCount), old(poolSize))
      ensures r.DuplicateCtx? <==> debugChecks && !forDefrag && HasCtx(old(allocations), ctx)
      ensures !r.Allocated? ==> allocations == old(allocations) && usage[..] == old(usage[..])
      ensures !r.DuplicateCtx? ==>
                Chosen(old(Flags(usage[..])), 8 * blockCount, SubblockCount(size), size >= 2048,
                       if r.Allocated? then Some((r.address - baseAddress) / 256) else None)
      ensures r.Allocated? ==>
                r.address >= baseAddress && (r.address - baseAddress) % 256 == 0
                && Updated(old(usage[..]), usage[..], (r.address - baseAddress) / 256,
                           (r.address - baseAddress) / 256 + SubblockCount(size), true)
      ensures r.Allocated? && forDefrag ==> allocations == old(allocations)
      ensures r.Allocated? && !forDefrag ==>
                allocations == SizeInsert(old(allocations), Entry(r.address, size, ctx))
                && UsedCount(Flags(usage[..]), 8 * blockCount)
                   == old(UsedCount(Flags(usage[..]), 8 * blockCount)) + SubblockCount(size)
      ensures !(r.Allocated? && forDefrag) ==> Valid()
    {
      if debugChecks && !forDefrag {
        var inUse := CtxInUse(ctx);
        if inUse {
          return DuplicateCtx;
        }
      }
      var address, start, required, fallback := NextAvailable(size);
      ChosenOfSearch(Flags(usage[..]), 8 * blockCount, required, size >= 2048, address.Some?, start, fallback);
      if address.None? {
        return NoSpace;
      }
      ghost var before := usage[..];
      FreshStart(baseAddress, Entry(address.value, size, ctx), start);
      UpdateRange(start, required, true);
      if forDefrag {
        return Allocated(address.value);
      }
      var e := Entry(address.value, size, ctx);
      LinkEntry(e);
      MallocKeeps(baseAddress, 8 * blockCount, before, usage[..], old(allocations), e, start);
      r := Allocated(address.value);
    }

    /** The debug-build check of `alloc_malloc`: does any entry carry `ctx`? */
    method CtxInUse(ctx: int) returns (inUse: bool)
      ensures inUse <==> HasCtx(allocations, ctx)
    {
      var k := 0;
      while k < |allocations|
        invariant k <= |allocations|
        invariant forall i :: 0 <= i < k ==> allocations[i].ctx != ctx
      {
        if allocations[k].ctx == ctx {
          return true;
        }
        k := k + 1;
      }
      return false;
    }

    /** The list walk of `alloc_malloc`: `e` goes before the first smaller
        entry, or last. */
    method LinkEntry(e: Entry)
      modifies this
      ensures allocations == SizeInsert(old(allocations), e)
      ensures SameLayout(old(pool), old(baseAddress), old(blockCount), old(poolSize))
    {
      var k := 0;
      while k < |allocations| && allocations[k].size >= e.size
        invariant k <= |allocations|
        invariant SizeInsert(allocations, e) == allocations[..k] + SizeInsert(allocations[k..], e)
      {
        assert allocations[k..][1..] == allocations[k + 1..];
        k := k + 1;
      }
      assert allocations[k..] == [] || allocations[k..][0].size < e.size;
      allocations := allocations[..k] + [e] + allocations[k..];
    }

    /** `alloc_release_blocks`: clears the sub-blocks of `e`, with the
        intended `UpdateRange`.  As written the loops are those of
        `UpdateRangeAsWritten` with `value` false: they clear what the
        allocation as written set, but a run marked in full keeps its
        sub-blocks past the first block used (`StraddleReleaseTruncated`). */
    method ReleaseBlocks(e: Entry)
      requires usage.Length == BlockCount && e.pointer >= baseAddress
      requires Start(baseAddress, e) + Len(e) <= 8 * BlockCount
      modifies usage
      ensures Updated(old(usage[..]), usage[..], Start(baseAddress, e), Start(baseAddress, e) + Len(e), false)
    {
      var subblock := (e.pointer - baseAddress) / 256;
      UpdateRange(subblock, SubblockCount(e.size), false);
    }

    /** `alloc_free`: releases and unlinks the first entry whose pointer is
        `pointer`. An unknown pointer trips the source's assertion; the model
        reports it as `false` and changes nothing. */
    method Free(pointer: nat) returns (found: bool)
      requires Valid()
      modifies this, usage
      ensures Valid() && SameLayout(old(pool), old(baseAddress), old(blockCount), old(poolSize))
      ensures found <==> PointerIndex(old(allocations), pointer) < |old(allocations)|
      ensures !found ==> allocations == old(allocations) && usage[..] == old(usage[..])
      ensures found ==>
                var k := PointerIndex(old(allocations), pointer);
                var e := old(allocations)[k];
                allocations == old(allocations)[..k] + old(allocations)[k + 1..]
                && Updated(old(usage[..]), usage[..], Start(baseAddress, e), Start(baseAddress, e) + Len(e), false)
                && UsedCount(Flags(usage[..]), 8 * blockCount) + Len(e)
                   == old(UsedCount(Flags(usage[..]), 8 * blockCount))
    {
      var k := 0;
      while k < |allocations| && allocations[k].pointer != pointer
        invariant k <= |allocations| && PointerIndex(allocations, pointer) >= k
      {
        k := k + 1;
      }
      if k == |allocations| {
        return false;
      }
      var e := allocations[k];
      ghost var before := usage[..];
      ReleaseBlocks(e);
      allocations := allocations[..k] + allocations[k + 1..];
      FreeKeeps(baseAddress, 8 * blockCount, before, usage[..], old(allocations), k);
      found := true;
    }

    /** No entry is offered a lower run: a defragmentation pass would move
        nothing. */
    ghost predicate Settled()
      reads this, usage
    {
      forall j :: 0 <= j < |allocations| ==> Stays(Flags(usage[..]), 8 * blockCount, baseAddress, allocations[j])
    }

    /** One step of `alloc_run_defrag`: moves entry `k` to the run the search
        chooses for its size when that run lies below it, marking the new run
        used and clearing the old one. */
    method DefragEntry(k: nat) returns (m: Option<Move>)
      requires Valid() && k < |allocations|
      modifies this, usage
      ensures Valid() && SameLayout(old(pool), old(baseAddress), old(blockCount), old(poolSize))
      ensures m.None? <==> Stays(old(Flags(usage[..])), 8 * blockCount, baseAddress, old(allocations)[k])
      ensures Shrunk(old(allocations), allocations)
      ensures forall i :: 0 <= i < |allocations| && i != k ==> allocations[i] == old(allocations)[i]
      ensures m.None? ==> allocations == old(allocations) && usage[..] == old(usage[..])
      ensures m.Some? ==>
                m.value == Move(old(allocations)[k].pointer, allocations[k].pointer, allocations[k].ctx)
                && m.value.to < m.value.from
                && Chosen(old(Flags(usage[..])), 8 * blockCount, Len(allocations[k]), allocations[k].size >= 2048,
                          Some(Start(baseAddress, allocations[k])))
      ensures UsedCount(Flags(usage[..]), 8 * blockCount) == old(UsedCount(Flags(usage[..]), 8 * blockCount))
    {
      var e := allocations[k];
      var dest, start, required, fallback := NextAvailable(e.size);
      ChosenOfSearch(Flags(usage[..]), 8 * blockCount, required, e.size >= 2048, dest.Some?, start, fallback);
      StaysIff(Flags(usage[..]), 8 * blockCount, baseAddress, e, if dest.Some? then Some(start) else None);
      if dest.Some? && dest.value < e.pointer {
        ghost var f := usage[..];
        var r := Malloc(e.ctx, e.size, true, false);
        ChosenUnique(Flags(f), 8 * blockCount, required, e.size >= 2048, Some(start),
                     if r.Allocated? then Some((r.address - baseAddress) / 256) else None);
        ghost var g := usage[..];
        EntryInPool(baseAddress, 8 * blockCount, Flags(f), allocations, k);
        ReleaseBlocks(e);
        var moved := Entry(r.address, e.size, e.ctx);
        FreshStart(baseAddress, moved, start);
        allocations := allocations[k := moved];
        DefragKeeps(baseAddress, 8 * blockCount, f, g, usage[..], old(allocations), k, moved, start);
        m := Some(Move(e.pointer, r.address, e.ctx));
      } else {
        m := None;
      }
    }

    /** One pass of `alloc_run_defrag` over the list, in list order. */
    method DefragPass() returns (passMoves: seq<Move>)
      requires Valid()
      modifies this, usage
      ensures Valid() && SameLayout(old(pool), old(baseAddress), old(blockCount), old(poolSize))
      ensures Shrunk(old(allocations), allocations)
      ensures forall q :: 0 <= q < |passMoves| ==> passMoves[q].to < passMoves[q].from
      ensures |passMoves| <= |allocations|
      ensures passMoves == [] ==> allocations == old(allocations) && usage[..] == old(usage[..])
      ensures passMoves == [] ==> Settled()
      ensures UsedCount(Flags(usage[..]), 8 * blockCount) == old(UsedCount(Flags(usage[..]), 8 * blockCount))
    {
      passMoves := [];
      var k := 0;
      while k < |allocations|
        invariant Valid() && SameLayout(old(pool), old(baseAddress), old(blockCount), old(poolSize))
        invariant k <= |allocations| && Shrunk(old(allocations), allocations)
        invariant forall q :: 0 <= q < |passMoves| ==> passMoves[q].to < passMoves[q].from
        invariant |passMoves| <= k
        invariant passMoves == [] ==> allocations == old(allocations) && usage[..] == old(usage[..])
        invariant passMoves == [] ==>
                    forall j :: 0 <= j < k ==> Stays(Flags(usage[..]), 8 * blockCount, baseAddress, allocations[j])
        invariant UsedCount(Flags(usage[..]), 8 * blockCount) == old(UsedCount(Flags(usage[..]), 8 * blockCount))
      {
        ghost var es := allocations;
        var m := DefragEntry(k);
        ShrunkTrans(old(allocations), es, allocations);
        if m.Some? {
          passMoves := passMoves + [m.value];
        }
        k := k + 1;
      }
    }

    /** `alloc_run_defrag`: at most `maxIterations` passes over the list, each
        offering every entry a lower run; it stops early on an empty list or a
        pass that moves nothing. The callback a move triggers is recorded in
        `moves`; the copy of the contents is not modelled. */
    method RunDefrag(maxIterations: int) returns (moves: seq<Move>, passes: nat)
      requires Valid()
      modifies this, usage
      ensures Valid() && SameLayout(old(pool), old(baseAddress), old(blockCount), old(poolSize))
      ensures Shrunk(old(allocations), allocations)
      ensures forall q :: 0 <= q < |moves| ==> moves[q].to < moves[q].from
      ensures passes <= (if maxIterations < 0 then 0 else maxIterations)
      ensures |moves| <= passes * |allocations|
      ensures passes < maxIterations ==> Settled()
      ensures UsedCount(Flags(usage[..]), 8 * blockCount) == old(UsedCount(Flags(usage[..]), 8 * blockCount))
    {
      moves, passes := [], 0;
      ghost var n := |allocations|;
      var stop := false;
      while passes < maxIterations && !stop
        invariant Valid() && SameLayout(old(pool), old(baseAddress), old(blockCount), old(poolSize))
        invariant (passes <= maxIterations || passes == 0) && Shrunk(old(allocations), allocations)
        invariant forall q :: 0 <= q < |moves| ==> moves[q].to < moves[q].from
        invariant |allocations| == n && |moves| <= passes * n
        invariant stop ==> Settled()
        invariant UsedCount(Flags(usage[..]), 8 * blockCount) == old(UsedCount(Flags(usage[..]), 8 * blockCount))
        decreases maxIterations - passes, if stop then 0 else 1
      {
        if |allocations| == 0 {
          stop := true;
        } else {
          var moved;
          moves, passes, moved := DefragRound(moves, passes, n);
          stop := !moved;
        }
      }
    }

    /** One iteration of `alloc_run_defrag`'s outer loop on a non-empty list:
        a pass, its moves appended to `moves0`; `moved` is `move_occurred`. */
    method DefragRound(moves0: seq<Move>, passes0: nat, ghost n: nat)
      returns (moves: seq<Move>, passes: nat, moved: bool)
      requires Valid() && 0 < |allocations| == n && |moves0| <= passes0 * n
      requires forall q :: 0 <= q < |moves0| ==> moves0[q].to < moves0[q].from
      modifies this, usage
      ensures Valid() && SameLayout(old(pool), old(baseAddress), old(blockCount), old(poolSize))
      ensures Shrunk(old(allocations), allocations) && |allocations| == n
      ensures passes == passes0 + 1 && |moves0| <= |moves| <= passes * n && moves[..|moves0|] == moves0
      ensures forall q :: 0 <= q < |moves| ==> moves[q].to < moves[q].from
      ensures moved <==> |moves| > |moves0|
      ensures !moved ==> Settled()
      ensures UsedCount(Flags(usage[..]), 8 * blockCount) == old(UsedCount(Flags(usage[..]), 8 * blockCount))
    {
      var passMoves := DefragPass();
      assert |passMoves| <= n;
      MulSucc(passes0, n);
      moves := moves0 + passMoves;
      passes := passes0 + 1;
      moved := |passMoves| > 0;
    }

    /** `alloc_count_free`: the pool size less 256 bytes for every used
        sub-block, with each byte's bits counted by `count_ones`. */
    method CountFree() returns (r: nat)
      requires Valid()
      ensures r == poolSize - 256 * UsedCount(Flags(usage[..]), 8 * blockCount)
    {
      ghost var u := Flags(usage[..]);
      var total := 0;
      var i := 0;
      while i < blockCount
        invariant i <= blockCount && total == 256 * UsedCount(u, 8 * i)
      {
        FlagsMatch(usage[..], i);
        UsedCountBlock(u, i, usage[i]);
        total := total + CountOnes(usage[i]) * 256;
        i := i + 1;
      }
      r := poolSize - total;
    }

    /** `alloc_count_continuous` as the source writes it: the result is the free
        run that reaches the end of the pool, not the longest one. */
    method CountContinuousAsWritten() returns (r: nat)
      requires usage.Length == BlockCount && blockCount <= BlockCount
      ensures r == 256 * RunLen(Flags(usage[..]), 8 * blockCount)
    {
      ghost var u := Flags(usage[..]);
      var largest: nat := 0;
      var freeBits: nat := 0;
      var j := 0;
      while j < blockCount
        invariant j <= blockCount && freeBits == RunLen(u, 8 * j) && largest == 0
      {
        FlagsMatch(usage[..], j);
        freeBits, largest := ContinuousBlockAsWritten(u, j, usage[j], freeBits, largest);
        j := j + 1;
      }
      if freeBits > 0 && freeBits * 256 > largest {
        largest := freeBits * 256;
      }
      r := largest;
    }

    /** `alloc_count_continuous` with each run compared before it is reset:
        the longest free run in bytes. */
    method CountContinuous() returns (r: nat)
      requires usage.Length == BlockCount && blockCount <= BlockCount
      ensures r == 256 * Longest(Flags(usage[..]), 8 * blockCount)
    {
      ghost var u := Flags(usage[..]);
      var largest: nat := 0;
      var freeBits: nat := 0;
      var j := 0;
      while j < blockCount
        invariant j <= blockCount && freeBits == RunLen(u, 8 * j)
        invariant largest <= 256 * Longest(u, 8 * j) && Max(largest, 256 * freeBits) == 256 * Longest(u, 8 * j)
      {
        FlagsMatch(usage[..], j);
        freeBits, largest := ContinuousBlock(u, j, usage[j], freeBits, largest);
        j := j + 1;
      }
      if freeBits > 0 && freeBits * 256 > largest {
        largest := freeBits * 256;
      }
      r := largest;
    }

    /** `pvr_mem_malloc`: `alloc_malloc` with a null `ctx`. Every entry it makes
        carries that same `ctx`, so in a debug build a second call trips the
        uniqueness assertion. */
    method PvrMemMalloc(size: nat, debugChecks: bool) returns (r: MallocResult)
      requires Valid()
      modifies this, usage
      ensures Valid()
      ensures r.DuplicateCtx? <==> debugChecks && HasCtx(old(allocations), NullCtx)
      ensures r.Allocated? ==> HasCtx(allocations, NullCtx)
    {
      r := Malloc(NullCtx, size, false, debugChecks);
      if r.Allocated? {
        SizeInsertHas(old(allocations), Entry(r.address, size, NullCtx));
      }
    }
  }
}
