/** The emulated PowerVR register file and its interrupt queue
    (vendor/emu/refsw/pvr_regs.cpp): aligned 32-bit register reads and
    writes with the side effects the write path triggers, the reset values
    of `pvrInit`, and `pvr_queue_interrupt`, which runs the interrupt
    handler without nesting and drains interrupts raised meanwhile in
    first-in first-out order. */
module PvrRegs {
  import opened Wrappers

  type u32 = x: nat | x < 0x1_0000_0000

  /** Register-file size in bytes, as the address assertion bounds it. */
  const RegBytes: nat := 0x8000
  /** The same in 32-bit words. */
  const RegWords: nat := 0x2000

  /** The registers the write path and `pvrInit` name. */
  datatype Reg =
    | Id | Revision | SoftReset | StartRender | TaListInit | TaYuvTexCnt | TaListCont
    | SpgHblankInt | SpgVblankInt | FpuParamCfg | HalfOffset | IspFeedCfg
    | SdramRefresh | SdramArbCfg | SdramCfg | SpgHblank | SpgLoad | SpgVblank | SpgWidth
    | VoControl | VoStartx | VoStarty | ScalerCtl | FbBurstctrl | PtAlphaRef

  /** A register layout gives each named register its own word of the
      file; its byte address is four times the word index. */
  ghost predicate LayoutOk(index: Reg -> nat)
  {
    && (forall r :: index(r) < RegWords)
    && (forall r, s :: index(r) == index(s) ==> r == s)
  }

  /** The calls the register file makes into the rest of the emulator, in
      the order it makes them. */
  datatype Effect =
    | BuildTables     // pvrInit
    | RenderCore      // a STARTRENDER write
    | TaInit          // TA_LIST_INIT with bit 31 set
    | TaReset         // SOFTRESET with bit 0 set
    | Handler(code: int)  // one run of the interrupt handler

  /** The registers `pvrInit` sets and the values it gives them, in the
      order it sets them. */
  const ResetTable: seq<(Reg, u32)> := [
    (Id, 0x17FD11DB), (Revision, 0x00000011), (SoftReset, 0x00000007),
    (SpgHblankInt, 0x031D0000), (SpgVblankInt, 0x01500104), (FpuParamCfg, 0x0007DF77),
    (HalfOffset, 0x00000007), (IspFeedCfg, 0x00402000), (SdramRefresh, 0x00000020),
    (SdramArbCfg, 0x0000001F), (SdramCfg, 0x15F28997), (SpgHblank, 0x007E0345),
    (SpgLoad, 0x01060359), (SpgVblank, 0x01500104), (SpgWidth, 0x07F1933F),
    (VoControl, 0x00000108), (VoStartx, 0x0000009D), (VoStarty, 0x00000015),
    (ScalerCtl, 0x00000400), (FbBurstctrl, 0x00090639), (PtAlphaRef, 0x000000FF)
  ]

  /** Each register is set once, so every one keeps the value it is given;
      the registers the write path singles out, other than the identity,
      revision and soft-reset ones, are not among them. */
  lemma ResetTableDistinct()
    ensures forall i, j :: 0 <= i < j < |ResetTable| ==> ResetTable[i].0 != ResetTable[j].0
    ensures forall i :: 0 <= i < |ResetTable| ==> ResetTable[i].0 !in {StartRender, TaListInit, TaYuvTexCnt, TaListCont}
  {
  }

  // ---------------------------------------------------------------------
  // The register write

  /** The register file after `pvrRegWrite(addr, data)`: read-only
      registers and STARTRENDER keep their word, SOFTRESET stores 0 and
      every other address stores `data`. */
  function StoreWord(index: Reg -> nat, words: seq<u32>, addr: nat, data: u32): (r: seq<u32>)
    requires |words| == RegWords && addr < RegBytes && addr % 4 == 0
    ensures |r| == RegWords
    ensures forall j :: 0 <= j < RegWords && j != addr / 4 ==> r[j] == words[j]
  {
    if addr == 4 * index(Id) || addr == 4 * index(Revision) || addr == 4 * index(TaYuvTexCnt) then words
    else if addr == 4 * index(StartRender) then words
    else if addr == 4 * index(SoftReset) then words[addr / 4 := 0]
    else words[addr / 4 := data]
  }

  /** The calls a write makes before it stores, other than the render
      start: a TA reset for an odd SOFTRESET value and a TA init for a
      TA_LIST_INIT value with bit 31 set. */
  function WriteEffects(index: Reg -> nat, addr: nat, data: u32): (r: seq<Effect>)
    ensures r == [TaInit] ==> addr == 4 * index(TaListInit) && data >= 0x8000_0000
    ensures r == [TaReset] ==> addr == 4 * index(SoftReset) && data % 2 == 1
    ensures |r| <= 1
  {
    if addr == 4 * index(Id) || addr == 4 * index(Revision) || addr == 4 * index(TaYuvTexCnt) then []
    else if addr == 4 * index(StartRender) then []
    else if addr == 4 * index(TaListInit) && data >= 0x8000_0000 then [TaInit]
    else if addr == 4 * index(SoftReset) && data % 2 == 1 then [TaReset]
    else []
  }

  /** The read-only registers ignore writes. */
  lemma ReadOnlyIgnored(index: Reg -> nat, words: seq<u32>, r: Reg, data: u32)
    requires LayoutOk(index) && |words| == RegWords
    requires r in {Id, Revision, TaYuvTexCnt}
    ensures StoreWord(index, words, 4 * index(r), data) == words
    ensures WriteEffects(index, 4 * index(r), data) == []
  {
  }

  /** A SOFTRESET write always reads back as 0, and resets the TA exactly
      when bit 0 is set. */
  lemma SoftResetReadsZero(index: Reg -> nat, words: seq<u32>, data: u32)
    requires LayoutOk(index) && |words| == RegWords
    ensures StoreWord(index, words, 4 * index(SoftReset), data)[index(SoftReset)] == 0
    ensures WriteEffects(index, 4 * index(SoftReset), data) == (if data % 2 == 1 then [TaReset] else [])
  {
    assert index(SoftReset) != index(Id) && index(SoftReset) != index(Revision);
    assert index(SoftReset) != index(TaYuvTexCnt) && index(SoftReset) != index(StartRender);
    assert index(SoftReset) != index(TaListInit);
  }

  /** Every other write reads back unchanged, and only TA_LIST_INIT has a
      side effect, the TA init for bit 31. */
  lemma WriteReadsBack(index: Reg -> nat, words: seq<u32>, addr: nat, data: u32)
    requires LayoutOk(index) && |words| == RegWords && addr < RegBytes && addr % 4 == 0
    requires forall r :: r in {Id, Revision, TaYuvTexCnt, StartRender, SoftReset} ==> addr != 4 * index(r)
    ensures StoreWord(index, words, addr, data)[addr / 4] == data
    ensures WriteEffects(index, addr, data) == (if addr == 4 * index(TaListInit) && data >= 0x8000_0000 then [TaInit] else [])
  {
    assert addr != 4 * index(Id) && addr != 4 * index(Revision) && addr != 4 * index(TaYuvTexCnt);
    assert addr != 4 * index(StartRender) && addr != 4 * index(SoftReset);
  }

  // ---------------------------------------------------------------------
  // The interrupt queue

  /** The interrupts the `k`-th run of the handler raises while it runs.
      The handler is outside the register file; `raises` scripts what it
      does. */
  function Raised(raises: seq<seq<int>>, k: nat): seq<int>
  {
    if k < |raises| then raises[k] else []
  }

  /** How many interrupts the handler runs from the `k`-th on still
      raise. */
  function Remaining(raises: seq<seq<int>>, k: nat): nat
    decreases |raises| - k
  {
    if k >= |raises| then 0 else |Raised(raises, k)| + Remaining(raises, k + 1)
  }

  /** The interrupts raised by the handler runs `k .. k + n - 1`, in
      order. */
  function RaisedRun(raises: seq<seq<int>>, k: nat, n: nat): seq<int>
    decreases n
  {
    if n == 0 then [] else Raised(raises, k) + RaisedRun(raises, k + 1, n - 1)
  }

  /** The handler runs that drain the queue `q` when the next run is the
      `k`-th: the front is handled, and what it raises joins the back. */
  function Drain(raises: seq<seq<int>>, q: seq<int>, k: nat): seq<int>
    decreases |q| + Remaining(raises, k)
  {
    if q == [] then []
    else
      assert k < |raises| ==> Remaining(raises, k) == |raises[k]| + Remaining(raises, k + 1);
      [q[0]] + Drain(raises, q[1..] + Raised(raises, k), k + 1)
  }

  /** First in, first out: the queued interrupts are handled first and in
      the order they were queued, then those their handlers raised, in the
      order raised. */
  lemma {:induction false} DrainAppend(raises: seq<seq<int>>, a: seq<int>, b: seq<int>, k: nat)
    ensures Drain(raises, a + b, k) == a + Drain(raises, b + RaisedRun(raises, k, |a|), k + |a|)
    decreases |a|
  {
    if a == [] {
      assert a + b == b && b + RaisedRun(raises, k, 0) == b;
    } else {
      // The sequence identities come first, before any fact about Drain
      // is in scope, so that they stay cheap.
      var x, a1 := a[0], a[1..];
      var rest := b + Raised(raises, k);
      var later := RaisedRun(raises, k + 1, |a| - 1);
      assert a + b == [x] + (a1 + b);
      assert (a1 + b) + Raised(raises, k) == a1 + rest;
      assert RaisedRun(raises, k, |a|) == Raised(raises, k) + later;
      AppendAssoc(b, Raised(raises, k), later);
      assert [x] + a1 == a;
      AppendAssoc([x], a1, Drain(raises, b + RaisedRun(raises, k, |a|), k + |a|));
      DrainCons(raises, x, a1 + b, k);
      DrainAppend(raises, a1, rest, k + 1);
    }
  }

  lemma AppendAssoc<T>(x: seq<T>, y: seq<T>, z: seq<T>)
    ensures (x + y) + z == x + (y + z)
  {
  }

  lemma DrainCons(raises: seq<seq<int>>, x: int, q: seq<int>, k: nat)
    ensures Drain(raises, [x] + q, k) == [x] + Drain(raises, q + Raised(raises, k), k + 1)
  {
    assert ([x] + q)[0] == x && ([x] + q)[1..] == q;
  }

  /** When no handler raises anything, the interrupts are handled exactly
      in call order. */
  lemma {:induction false} DrainQuiet(raises: seq<seq<int>>, q: seq<int>, k: nat)
    requires k >= |raises|
    ensures Drain(raises, q, k) == q
    decreases |q|
  {
    if q != [] {
      assert q[1..] + Raised(raises, k) == q[1..];
      DrainQuiet(raises, q[1..], k + 1);
    }
  }

  /** The handler runs as effects. */
  function Handlers(codes: seq<int>): (r: seq<Effect>)
    ensures |r| == |codes| && forall i :: 0 <= i < |codes| ==> r[i] == Handler(codes[i])
  {
    if codes == [] then [] else [Handler(codes[0])] + Handlers(codes[1..])
  }

  // ---------------------------------------------------------------------
  // The register file object

  /** `pvr_regs` with the interrupt state of the same file. The register
      file is held as 32-bit words, the only width this file reads and
      writes it at. */
  class Pvr {
    const index: Reg -> nat
    const renderDoneTsp: int
    const raises: seq<seq<int>>
    const words: array<u32>
    var effects: seq<Effect>
    var queue: seq<int>
    var inInterrupt: bool
    var calls: nat

    /** The queue only holds interrupts while the handler runs. */
    ghost predicate Valid()
      reads this
    {
      && words.Length == RegWords
      && LayoutOk(index)
      && (!inInterrupt ==> queue == [])
    }

    constructor (index: Reg -> nat, renderDoneTsp: int, raises: seq<seq<int>>)
      requires LayoutOk(index)
      ensures Valid() && fresh(words)
      ensures this.index == index && this.renderDoneTsp == renderDoneTsp && this.raises == raises
      ensures words[..] == seq(RegWords, _ => 0)
      ensures effects == [] && queue == [] && !inInterrupt && calls == 0
    {
      this.index := index;
      this.renderDoneTsp := renderDoneTsp;
      this.raises := raises;
      words := new u32[RegWords](_ => 0);
      effects := [];
      queue := [];
      inInterrupt := false;
      calls := 0;
    }

    /** `pvrRegRead`. */
    method RegRead(addr: nat) returns (v: u32)
      requires Valid() && addr < RegBytes && addr % 4 == 0
      ensures v == words[addr / 4]
    {
      v := words[addr / 4];
    }

    /** `pvrRegWrite`: the stored word follows `StoreWord`; the calls made
        follow `WriteEffects`, and a STARTRENDER write renders and raises
        the render-done interrupt. A write to TA_LIST_CONT fails the
        source's assertion and is excluded. */
    method RegWrite(addr: nat, data: u32)
      requires Valid() && addr < RegBytes && addr % 4 == 0
      requires addr != 4 * index(TaListCont)
      modifies this, words
      ensures Valid()
      ensures words[..] == StoreWord(index, old(words[..]), addr, data)
      ensures addr != 4 * index(StartRender) ==>
        && effects == old(effects) + WriteEffects(index, addr, data)
        && queue == old(queue) && inInterrupt == old(inInterrupt) && calls == old(calls)
      ensures addr == 4 * index(StartRender) && !old(inInterrupt) ==>
        var handled := Drain(raises, [renderDoneTsp], old(calls));
        && effects == old(effects) + [RenderCore] + Handlers(handled)
        && queue == [] && !inInterrupt && calls == old(calls) + |handled|
      ensures addr == 4 * index(StartRender) && old(inInterrupt) ==>
        && effects == old(effects) + [RenderCore]
        && queue == old(queue) + [renderDoneTsp] && inInterrupt && calls == old(calls)
    {
      if addr == 4 * index(Id) {
        return;
      }
      if addr == 4 * index(Revision) {
        return;
      }
      if addr == 4 * index(TaYuvTexCnt) {
        return;
      }
      if addr == 4 * index(StartRender) {
        effects := effects + [RenderCore];
        QueueInterrupt(renderDoneTsp);
        return;
      }
      var value := data;
      if addr == 4 * index(TaListInit) {
        if data >= 0x8000_0000 {
          effects := effects + [TaInit];
        }
      }
      if addr == 4 * index(SoftReset) {
        if value != 0 {
          if value % 2 == 1 {
            effects := effects + [TaReset];
          }
          value := 0;
        }
      }
      words[addr / 4] := value;
    }

    /** `pvrInit`: builds the lookup tables, then sets the reset values
        of `ResetTable`; every other word keeps its value. */
    method Init()
      requires Valid()
      modifies this, words
      ensures Valid()
      ensures effects == old(effects) + [BuildTables]
      ensures queue == old(queue) && inInterrupt == old(inInterrupt) && calls == old(calls)
      ensures forall i :: 0 <= i < |ResetTable| ==> words[index(ResetTable[i].0)] == ResetTable[i].1
      ensures forall j :: 0 <= j < RegWords && (forall i :: 0 <= i < |ResetTable| ==> index(ResetTable[i].0) != j) ==>
        words[j] == old(words[j])
    {
      effects := effects + [BuildTables];
      ResetTableDistinct();
      SetRegisters(ResetTable);
    }

    /** The assignments of `pvrInit`, one register after the other. Each
        register is set once, so each keeps the value it is given. */
    method SetRegisters(table: seq<(Reg, u32)>)
      requires Valid()
      requires forall i, j :: 0 <= i < j < |table| ==> table[i].0 != table[j].0
      modifies words
      ensures forall i :: 0 <= i < |table| ==> words[index(table[i].0)] == table[i].1
      ensures forall j :: 0 <= j < RegWords && (forall i :: 0 <= i < |table| ==> index(table[i].0) != j) ==>
        words[j] == old(words[j])
    {
      for i := 0 to |table|
        invariant forall k :: 0 <= k < i ==> words[index(table[k].0)] == table[k].1
        invariant forall j :: 0 <= j < RegWords && (forall k :: 0 <= k < i ==> index(table[k].0) != j) ==>
          words[j] == old(words[j])
      {
        var (r, v) := table[i];
        forall k | 0 <= k < i
          ensures index(table[k].0) != index(r)
        {
          assert table[k].0 != r;
        }
        words[index(r)] := v;
      }
    }

    /** `pvr_queue_interrupt`: outside the handler, runs it for `code` and
        then for every queued interrupt until the queue is empty; inside
        it, only queues `code`. */
    method QueueInterrupt(code: int)
      requires Valid()
      modifies this
      decreases if inInterrupt then 0 else 4
      ensures Valid()
      ensures old(inInterrupt) ==>
        && inInterrupt && queue == old(queue) + [code] && effects == old(effects) && calls == old(calls)
      ensures !old(inInterrupt) ==>
        var handled := Drain(raises, [code], old(calls));
        && !inInterrupt && queue == [] && effects == old(effects) + Handlers(handled)
        && calls == old(calls) + |handled|
    {
      if !inInterrupt {
        ghost var start, before := calls, effects;
        inInterrupt := true;
        RunHandler(code);
        assert [code][1..] + Raised(raises, start) == queue;
        DrainStep(raises, [code], start, before);
        DrainQueue();
        inInterrupt := false;
      } else {
        queue := queue + [code];
      }
    }

    /** The loop of `pvr_queue_interrupt`: runs the handler for the front
        of the queue until the queue is empty. */
    method DrainQueue()
      requires Valid() && inInterrupt
      modifies this
      decreases 3
      ensures Valid() && inInterrupt && queue == []
      ensures effects == old(effects) + Handlers(Drain(raises, old(queue), old(calls)))
      ensures calls == old(calls) + |Drain(raises, old(queue), old(calls))|
    {
      while |queue| > 0
        invariant Valid() && inInterrupt
        invariant effects + Handlers(Drain(raises, queue, calls))
          == old(effects) + Handlers(Drain(raises, old(queue), old(calls)))
        invariant calls + |Drain(raises, queue, calls)| == old(calls) + |Drain(raises, old(queue), old(calls))|
        decreases |queue| + Remaining(raises, calls)
      {
        HandleNext();
      }
    }

    /** One turn of the drain loop: the front of the queue is popped and
        handled. What is left to handle, after what has been, is
        unchanged. */
    method HandleNext()
      requires Valid() && inInterrupt && queue != []
      modifies this
      decreases 2
      ensures Valid() && inInterrupt
      ensures effects + Handlers(Drain(raises, queue, calls))
        == old(effects) + Handlers(Drain(raises, old(queue), old(calls)))
      ensures calls + |Drain(raises, queue, calls)| == old(calls) + |Drain(raises, old(queue), old(calls))|
      ensures |queue| + Remaining(raises, calls) < old(|queue| + Remaining(raises, calls))
    {
      var ni := queue[0];
      ghost var q, k, e := queue, calls, effects;
      queue := queue[1..];
      RunHandler(ni);
      DrainStep(raises, q, k, e);
    }

    /** One run of the interrupt handler while `inInterrupt` is set: it is
        logged, and the interrupts it raises go through
        `pvr_queue_interrupt`, which only queues them. */
    method RunHandler(code: int)
      requires Valid() && inInterrupt
      modifies this
      decreases 1
      ensures Valid() && inInterrupt
      ensures effects == old(effects) + [Handler(code)]
      ensures queue == old(queue) + Raised(raises, old(calls)) && calls == old(calls) + 1
    {
      effects := effects + [Handler(code)];
      var raised := Raised(raises, calls);
      calls := calls + 1;
      for j := 0 to |raised|
        invariant Valid() && inInterrupt
        invariant effects == old(effects) + [Handler(code)]
        invariant queue == old(queue) + raised[..j] && calls == old(calls) + 1
      {
        QueueInterrupt(raised[j]);
        assert raised[..j + 1] == raised[..j] + [raised[j]];
      }
      assert raised[..|raised|] == raised;
    }
  }

  /** Handling the front of the queue `q` at run `k`, after effects `e`,
      leaves the same effects and runs still to come. */
  lemma DrainStep(raises: seq<seq<int>>, q: seq<int>, k: nat, e: seq<Effect>)
    requires q != []
    ensures var rest := Drain(raises, q[1..] + Raised(raises, k), k + 1);
      && (e + [Handler(q[0])]) + Handlers(rest) == e + Handlers(Drain(raises, q, k))
      && k + 1 + |rest| == k + |Drain(raises, q, k)|
      && |q[1..] + Raised(raises, k)| + Remaining(raises, k + 1) < |q| + Remaining(raises, k)
  {
    var rest := Drain(raises, q[1..] + Raised(raises, k), k + 1);
    assert Drain(raises, q, k) == [q[0]] + rest;
    HandlersAppend([q[0]], rest);
    assert k < |raises| ==> Remaining(raises, k) == |raises[k]| + Remaining(raises, k + 1);
  }

  lemma {:induction false} HandlersAppend(a: seq<int>, b: seq<int>)
    ensures Handlers(a + b) == Handlers(a) + Handlers(b)
  {
  }
}
