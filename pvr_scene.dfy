/** The display-list registration of the KallistiOS PVR scene API as the
    emulator hosts it (vendor/koshle/hlepvr_scene.cpp): a frame opens and
    closes each list at most once, primitives go to the open list, and
    finishing the scene closes every enabled list. The DMA vertex buffers
    of `pvr_state` are modelled with their base, write pointer and size
    per list. The build modelled is the debug build, in which the
    `#ifndef NDEBUG` checks are present. */
module PvrScene {
  type u8 = x: nat | x < 256
  type u32 = x: nat | x < 0x1_0000_0000

  /** The 32-byte end-of-list marker. */
  const Zeros32: seq<u8> := [0, 0, 0, 0, 0, 0, 0, 0, 0, 0, 0, 0, 0, 0, 0, 0,
    0, 0, 0, 0, 0, 0, 0, 0, 0, 0, 0, 0, 0, 0, 0, 0]

  /** The calls the scene code makes into the rest of the emulator, in
      order. */
  datatype Event =
    | PumpEvents            // emu_pump_events
    | SyncRegStart          // pvr_sync_stats(PVR_SYNC_REGSTART)
    | SyncBufStart          // pvr_sync_stats(PVR_SYNC_BUFSTART)
    | DrFinish              // pvr_dr_finish: store queues released
    | BlankHeader(list: nat)  // pvr_blank_polyhdr(list)
    | TaData(bytes: seq<u8>)  // pvr_ta_data(bytes, |bytes|)

  /** The list-registration part of `pvr_state`: whether DMA mode is on,
      the open list (-1 for none), the closed lists (the `lists_closed`
      bit mask as a set) and whether the store queues are in use. */
  datatype Lists = Lists(dma: bool, open: int, closed: set<nat>, drUsed: bool)

  /** A list that is closed is not the open one. Outside DMA mode every
      operation below keeps this. */
  predicate OpenNotClosed(s: Lists)
  {
    !s.dma ==> s.open == -1 || s.open !in s.closed
  }

  /** What `pvr_list_finish` does to the list state, the events it sends
      and its return value. Outside DMA mode, finishing with no list open
      is refused with -1 and changes nothing; otherwise the open list is
      closed, after a blank header and an end-of-list marker. */
  function FinishList(s: Lists): (r: (Lists, seq<Event>, int))
    requires s.open >= -1
    ensures r.2 == 0 || r.2 == -1
    ensures r.2 == -1 <==> !s.dma && s.open == -1
    ensures r.2 == -1 ==> r.0 == s && r.1 == []
    ensures r.2 == 0 ==> r.0.open == -1 && r.0.dma == s.dma
    ensures r.2 == 0 && !s.dma ==> r.0.closed == s.closed + {s.open} && !r.0.drUsed
    ensures r.2 == 0 && !s.dma ==> |r.1| >= 2 && r.1[|r.1| - 2..] == [BlankHeader(s.open), TaData(Zeros32)]
    ensures s.dma ==> r.0.closed == s.closed && r.1 == []
  {
    if !s.dma && s.open == -1 then (s, [], -1)
    else if !s.dma then
      var release := if s.drUsed then [DrFinish] else [];
      (Lists(false, -1, s.closed + {s.open}, false), release + [BlankHeader(s.open), TaData(Zeros32)], 0)
    else (s.(open := -1), [], 0)
  }

  /** What `pvr_list_begin(list)` does. Outside DMA mode a closed list is
      refused with -1; otherwise a different open list is finished first
      and `list` becomes the open one. */
  function BeginList(s: Lists, list: nat): (r: (Lists, seq<Event>, int))
    requires s.open >= -1
    ensures r.2 == 0 || r.2 == -1
    ensures r.2 == -1 <==> !s.dma && list in s.closed
    ensures r.2 == -1 ==> r.0 == s && r.1 == []
    ensures r.2 == 0 ==> r.0.open == list && r.0.dma == s.dma
    ensures r.2 == 0 && !s.dma ==>
      r.0.closed == s.closed + (if s.open != -1 && s.open != list then {s.open} else {})
    ensures s.dma ==> r.0.closed == s.closed
    ensures r.1 != [] ==> !s.dma && s.open != -1 && s.open != list
  {
    if !s.dma && list in s.closed then (s, [], -1)
    else if s.open != -1 && s.open != list then
      var f := FinishList(s);
      (f.0.(open := list), f.1, 0)
    else (s.(open := list), [], 0)
  }

  /** The operations a frame is built from between `pvr_scene_begin` and
      `pvr_scene_finish`. A primitive does not change the list state. */
  datatype Op = Begin(list: nat) | Finish | Prim

  function Step(s: Lists, op: Op): (r: Lists)
    requires s.open >= -1
    ensures r.open >= -1 && r.dma == s.dma
  {
    match op
    case Begin(list) => BeginList(s, list).0
    case Finish => FinishList(s).0
    case Prim => s
  }

  function Run(s: Lists, ops: seq<Op>): (r: Lists)
    requires s.open >= -1
    ensures r.open >= -1 && r.dma == s.dma
    decreases |ops|
  {
    if ops == [] then s else Run(Step(s, ops[0]), ops[1..])
  }

  /** One step never reopens or un-closes a list. */
  lemma StepKeepsClosed(s: Lists, op: Op)
    requires s.open >= -1 && OpenNotClosed(s)
    ensures OpenNotClosed(Step(s, op)) && s.closed <= Step(s, op).closed
  {
    match op
    case Begin(list) =>
      var (t, e, c) := BeginList(s, list);
      if c == 0 && !s.dma {
        assert list !in s.closed;
      }
    case Finish =>
    case Prim =>
  }

  /** Lists can never be opened again within a frame once they have been
      closed: outside DMA mode, a list closed at some point stays closed
      and is never the open list, whatever operations follow. */
  lemma {:induction false} ClosedForTheFrame(s: Lists, ops: seq<Op>, list: nat)
    requires s.open >= -1 && OpenNotClosed(s) && !s.dma && list in s.closed
    ensures list in Run(s, ops).closed && Run(s, ops).open != list
    ensures BeginList(Run(s, ops), list).2 == -1
    decreases |ops|
  {
    if ops != [] {
      StepKeepsClosed(s, ops[0]);
      ClosedForTheFrame(Step(s, ops[0]), ops[1..], list);
    }
  }

  /** The events of one blank list: `pvr_scene_finish` sends a blank
      header, and finishing the list sends another and the end-of-list
      marker. */
  function BlankListEvents(i: nat): seq<Event>
  {
    [BlankHeader(i), BlankHeader(i), TaData(Zeros32)]
  }

  /** The blank-list loop of `pvr_scene_finish` from list `i` on, with no
      list open and the store queues released: each enabled list not yet
      closed is opened, given a blank header and finished. */
  function BlankLists(s: Lists, enabled: set<nat>, i: nat, count: nat): (r: (Lists, seq<Event>))
    requires !s.dma && s.open == -1 && !s.drUsed
    ensures !r.0.dma && r.0.open == -1 && !r.0.drUsed
    decreases count - i
  {
    if i >= count then (s, [])
    else if i in enabled && i !in s.closed then
      var rest := BlankLists(s.(closed := s.closed + {i}), enabled, i + 1, count);
      (rest.0, BlankListEvents(i) + rest.1)
    else BlankLists(s, enabled, i + 1, count)
  }

  /** One turn of `BlankLists` is what `pvr_list_begin`, a blank header
      and `pvr_list_finish` do: opening a list with none open sends
      nothing, and finishing it closes it. */
  lemma BlankListIsBeginFinish(s: Lists, i: nat)
    requires !s.dma && s.open == -1 && !s.drUsed && i !in s.closed
    ensures BeginList(s, i) == (s.(open := i), [], 0)
    ensures var f := FinishList(BeginList(s, i).0);
      && f.0 == s.(closed := s.closed + {i})
      && [] + [BlankHeader(i)] + f.1 == BlankListEvents(i)
  {
  }

  /** `pvr_scene_finish` outside DMA mode: the store queues are released,
      an open list is finished, and blank lists are sent for the rest. */
  function FinishScene(s: Lists, enabled: set<nat>, count: nat): (r: (Lists, seq<Event>))
    requires !s.dma && s.open >= -1
    ensures !r.0.dma && r.0.open == -1
  {
    var e0 := if s.drUsed then [DrFinish] else [];
    var s0 := s.(drUsed := false);
    var s1 := if s0.open != -1 then FinishList(s0).0 else s0;
    var e1 := if s0.open != -1 then FinishList(s0).1 else [];
    var r2 := BlankLists(s1.(drUsed := false), enabled, 0, count);
    (r2.0, e0 + e1 + r2.1)
  }

  /** The blank-list loop closes exactly the enabled lists from `i` on
      that were not closed already, and sends no data to a closed one. */
  lemma {:induction false} BlankListsCloses(s: Lists, enabled: set<nat>, i: nat, count: nat)
    requires !s.dma && s.open == -1 && !s.drUsed
    ensures var r := BlankLists(s, enabled, i, count).0;
      && s.closed <= r.closed
      && (forall j :: i <= j < count && j in enabled ==> j in r.closed)
      && (forall j :: j in r.closed ==> j in s.closed || (i <= j < count && j in enabled))
    ensures forall j :: j in s.closed ==> BlankHeader(j) !in BlankLists(s, enabled, i, count).1
    decreases count - i
  {
    if i < count {
      if i in enabled && i !in s.closed {
        BlankListsCloses(s.(closed := s.closed + {i}), enabled, i + 1, count);
      } else {
        BlankListsCloses(s, enabled, i + 1, count);
      }
    }
  }

  /** After a scene is finished no list is open, every enabled list is
      closed, together with the list that was open and those closed
      before, and no other; so no list can be opened again until the next
      scene. */
  lemma SceneFinishClosesAll(s: Lists, enabled: set<nat>, count: nat)
    requires !s.dma && s.open >= -1
    ensures var r := FinishScene(s, enabled, count).0;
      && r.open == -1 && !r.drUsed
      && s.closed <= r.closed && (s.open != -1 ==> s.open in r.closed)
      && (forall j :: 0 <= j < count && j in enabled ==> j in r.closed && BeginList(r, j).2 == -1)
      && (forall j :: j in r.closed ==> j in s.closed || j == s.open || (0 <= j < count && j in enabled))
  {
    var s0 := s.(drUsed := false);
    var s1 := if s0.open != -1 then FinishList(s0).0 else s0;
    BlankListsCloses(s1.(drUsed := false), enabled, 0, count);
  }

  /** `memcpy(at, data, |data|)` on the memory `mem`, one byte after the
      other. */
  function Copy(mem: map<nat, u8>, at: nat, data: seq<u8>): map<nat, u8>
    decreases |data|
  {
    if data == [] then mem else Copy(mem[at := data[0]], at + 1, data[1..])
  }

  /** After the copy the data is at `at`, the bytes outside it keep their
      values and no other address is written. */
  lemma {:induction false} CopyContents(mem: map<nat, u8>, at: nat, data: seq<u8>)
    ensures forall a: nat :: at <= a < at + |data| ==> a in Copy(mem, at, data) && Copy(mem, at, data)[a] == data[a - at]
    ensures forall a :: a in mem && !(at <= a < at + |data|) ==> a in Copy(mem, at, data) && Copy(mem, at, data)[a] == mem[a]
    ensures forall a :: a in Copy(mem, at, data) ==> a in mem || at <= a < at + |data|
    decreases |data|
  {
    if data != [] {
      CopyContents(mem[at := data[0]], at + 1, data[1..]);
    }
  }

  /** The two DMA vertex buffers of `pvr_state`: per list, the base
      address (0 for none), the write offset and the size. */
  datatype DmaBuffer = DmaBuffer(base: seq<nat>, ptr: seq<u32>, size: seq<u32>, ready: bool)

  class PvrState {
    /** PVR_OPB_COUNT, the number of display lists. */
    const listCount: nat
    var dmaMode: bool
    var listsEnabled: set<nat>
    var listsClosed: set<nat>
    var listRegOpen: int
    var drUsed: bool
    var ramTarget: nat
    var dmaBuffers: seq<DmaBuffer>
    /** The memory the vertex buffers point into. */
    var mem: map<nat, u8>
    var events: seq<Event>

    ghost predicate Valid()
      reads this
    {
      && |dmaBuffers| == 2 && ramTarget < 2
      && (forall b :: 0 <= b < 2 ==>
            |dmaBuffers[b].base| == listCount && |dmaBuffers[b].ptr| == listCount
            && |dmaBuffers[b].size| == listCount)
      && (listRegOpen == -1 || 0 <= listRegOpen < listCount)
    }

    ghost function ListState(): Lists
      reads this
    {
      Lists(dmaMode, listRegOpen, listsClosed, drUsed)
    }

    constructor (listCount: nat, dmaMode: bool, listsEnabled: set<nat>)
      ensures Valid()
      ensures this.listCount == listCount && this.dmaMode == dmaMode && this.listsEnabled == listsEnabled
      ensures listsClosed == {} && listRegOpen == -1 && !drUsed && ramTarget == 0
      ensures forall b :: 0 <= b < 2 ==>
        dmaBuffers[b] == DmaBuffer(seq(listCount, _ => 0), seq(listCount, _ => 0), seq(listCount, _ => 0), false)
      ensures mem == map[] && events == []
    {
      this.listCount := listCount;
      this.dmaMode := dmaMode;
      this.listsEnabled := listsEnabled;
      listsClosed := {};
      listRegOpen := -1;
      drUsed := false;
      ramTarget := 0;
      var empty := DmaBuffer(seq(listCount, _ => 0), seq(listCount, _ => 0), seq(listCount, _ => 0), false);
      dmaBuffers := [empty, empty];
      mem := map[];
      events := [];
    }

    /** `pvr_set_vertbuf`: gives `list` a new vertex buffer, split into two
        halves of `len / 2` bytes, one per DMA buffer, with both write
        offsets at 0; returns the old base of the first. */
    method SetVertbuf(list: nat, buffer: nat, len: nat) returns (oldbuf: nat)
      requires Valid() && dmaMode && list < listCount && list in listsEnabled
      requires buffer % 32 == 0 && len % 64 == 0 && len < 0x8000_0000
      modifies this
      ensures Valid() && oldbuf == old(dmaBuffers[0].base[list])
      ensures forall b :: 0 <= b < 2 ==>
        && dmaBuffers[b].base == old(dmaBuffers[b].base)[list := buffer + b * (len / 2)]
        && dmaBuffers[b].ptr == old(dmaBuffers[b].ptr)[list := 0]
        && dmaBuffers[b].size == old(dmaBuffers[b].size)[list := len / 2]
        && !dmaBuffers[b].ready
      ensures dmaBuffers[1].base[list] + dmaBuffers[1].size[list] == buffer + len
      ensures ListState() == old(ListState()) && ramTarget == old(ramTarget)
      ensures mem == old(mem) && events == old(events)
    {
      oldbuf := dmaBuffers[0].base[list];
      var b0, b1 := dmaBuffers[0], dmaBuffers[1];
      b0 := DmaBuffer(b0.base[list := buffer], b0.ptr[list := 0], b0.size[list := len / 2], false);
      b1 := DmaBuffer(b1.base[list := buffer + len / 2], b1.ptr[list := 0], b1.size[list := len / 2], false);
      dmaBuffers := [b0, b1];
    }

    /** `pvr_vertbuf_tail`: the address just past what has been written to
        `list` in the current buffer. */
    method VertbufTail(list: nat) returns (tail: nat)
      requires Valid() && list < listCount && dmaMode
      requires dmaBuffers[ramTarget].base[list] != 0
      ensures tail >= dmaBuffers[ramTarget].base[list]
      ensures tail - dmaBuffers[ramTarget].base[list] == dmaBuffers[ramTarget].ptr[list]
    {
      var b := dmaBuffers[ramTarget];
      tail := b.base[list] + b.ptr[list];
    }

    /** `pvr_vertbuf_written`: `amt` more bytes were written at the tail.
        The offset is a 32-bit sum and must stay below the size. */
    method VertbufWritten(list: nat, amt: u32)
      requires Valid() && list < listCount && dmaMode
      requires (dmaBuffers[ramTarget].ptr[list] + amt) % 0x1_0000_0000 < dmaBuffers[ramTarget].size[list]
      modifies this
      ensures Valid()
      ensures var b := old(dmaBuffers[ramTarget]);
        dmaBuffers == old(dmaBuffers)[ramTarget := b.(ptr := b.ptr[list := (b.ptr[list] + amt) % 0x1_0000_0000])]
      ensures ListState() == old(ListState()) && ramTarget == old(ramTarget)
      ensures mem == old(mem) && events == old(events)
    {
      var b := dmaBuffers[ramTarget];
      var val := (b.ptr[list] + amt) % 0x1_0000_0000;
      dmaBuffers := dmaBuffers[ramTarget := b.(ptr := b.ptr[list := val])];
    }

    /** `pvr_scene_begin`: no list is open; in DMA mode every write offset
        of the current buffer is reset, otherwise no list is closed. */
    method SceneBegin()
      requires Valid()
      modifies this
      ensures Valid() && listRegOpen == -1
      ensures dmaMode ==> listsClosed == old(listsClosed)
      ensures dmaMode ==> var b := old(dmaBuffers[ramTarget]);
        dmaBuffers == old(dmaBuffers)[ramTarget := b.(ptr := seq(listCount, _ => 0))]
      ensures !dmaMode ==> listsClosed == {} && dmaBuffers == old(dmaBuffers)
      ensures events == old(events) + [PumpEvents, if dmaMode then SyncBufStart else SyncRegStart]
      ensures dmaMode == old(dmaMode) && drUsed == old(drUsed) && ramTarget == old(ramTarget)
      ensures mem == old(mem) && listsEnabled == old(listsEnabled)
    {
      events := events + [PumpEvents];
      listRegOpen := -1;
      if dmaMode {
        var b := dmaBuffers[ramTarget];
        var ptr := b.ptr;
        for i := 0 to listCount
          invariant |ptr| == listCount
          invariant forall k :: 0 <= k < i ==> ptr[k] == 0
        {
          ptr := ptr[i := 0];
        }
        assert ptr == seq(listCount, _ => 0);
        dmaBuffers := dmaBuffers[ramTarget := b.(ptr := ptr)];
        events := events + [SyncBufStart];
      } else {
        listsClosed := {};
        events := events + [SyncRegStart];
      }
    }

    /** `pvr_list_begin`, as `BeginList` says. */
    method ListBegin(list: nat) returns (r: int)
      requires Valid() && list < listCount
      modifies this
      ensures Valid()
      ensures var (s, e, c) := BeginList(old(ListState()), list);
        ListState() == s && events == old(events) + e && r == c
      ensures listsEnabled == old(listsEnabled) && ramTarget == old(ramTarget)
      ensures dmaBuffers == old(dmaBuffers) && mem == old(mem)
    {
      if !dmaMode && list in listsClosed {
        return -1;
      }
      if listRegOpen != -1 && listRegOpen != list {
        var _ := ListFinish();
      }
      listRegOpen := list;
      return 0;
    }

    /** `pvr_list_finish`, as `FinishList` says. */
    method ListFinish() returns (r: int)
      requires Valid()
      modifies this
      ensures Valid()
      ensures var (s, e, c) := FinishList(old(ListState()));
        ListState() == s && events == old(events) + e && r == c
      ensures listsEnabled == old(listsEnabled) && ramTarget == old(ramTarget)
      ensures dmaBuffers == old(dmaBuffers) && mem == old(mem)
    {
      if !dmaMode && listRegOpen == -1 {
        return -1;
      }
      if !dmaMode {
        if drUsed {
          drUsed := false;
          events := events + [DrFinish];
        }
        events := events + [BlankHeader(listRegOpen)];
        listsClosed := listsClosed + {listRegOpen};
        events := events + [TaData(Zeros32)];
      }
      listRegOpen := -1;
      return 0;
    }

    /** `pvr_prim`: refused with -1 when no list is open; otherwise the
        data goes to the TA directly, or in DMA mode into the open list's
        vertex buffer. */
    method SubmitPrim(data: seq<u8>) returns (r: int)
      requires Valid() && |data| < 0x8000_0000
      requires dmaMode && listRegOpen != -1 ==> ListPrimOk(listRegOpen, |data|)
      modifies this
      ensures Valid() && r == (if old(listRegOpen) == -1 then -1 else 0)
      ensures ListState() == old(ListState()) && listsEnabled == old(listsEnabled)
      ensures ramTarget == old(ramTarget)
      ensures old(listRegOpen) == -1 || dmaMode ==> events == old(events)
      ensures old(listRegOpen) != -1 && !dmaMode ==>
        events == old(events) + [TaData(data)] && dmaBuffers == old(dmaBuffers) && mem == old(mem)
      ensures old(listRegOpen) != -1 && dmaMode ==> var b := old(dmaBuffers[ramTarget]);
        && mem == Copy(old(mem), b.base[listRegOpen] + b.ptr[listRegOpen], data)
        && dmaBuffers == old(dmaBuffers)[ramTarget := b.(ptr := b.ptr[listRegOpen := (b.ptr[listRegOpen] + |data|) % 0x1_0000_0000])]
      ensures old(listRegOpen) == -1 ==> dmaBuffers == old(dmaBuffers) && mem == old(mem)
    {
      if listRegOpen == -1 {
        return -1;
      }
      if !dmaMode {
        events := events + [TaData(data)];
      } else {
        r := ListPrim(listRegOpen, data);
        return;
      }
      return 0;
    }

    /** The conditions `pvr_list_prim` asserts: the list has a buffer, the
        size is a multiple of 32 and the advanced 32-bit offset stays
        within the buffer. */
    ghost predicate ListPrimOk(list: nat, size: nat)
      requires Valid() && list < listCount
      reads this
    {
      var b := dmaBuffers[ramTarget];
      && b.base[list] != 0 && size % 32 == 0
      && (b.ptr[list] + size) % 0x1_0000_0000 <= b.size[list]
    }

    /** `pvr_list_prim`: copies `data` to the tail of the list's vertex
        buffer in the current DMA buffer and advances the offset. */
    method ListPrim(list: nat, data: seq<u8>) returns (r: int)
      requires Valid() && list < listCount && |data| < 0x8000_0000
      requires ListPrimOk(list, |data|)
      modifies this
      ensures Valid() && r == 0
      ensures var b := old(dmaBuffers[ramTarget]);
        && mem == Copy(old(mem), b.base[list] + b.ptr[list], data)
        && dmaBuffers == old(dmaBuffers)[ramTarget := b.(ptr := b.ptr[list := (b.ptr[list] + |data|) % 0x1_0000_0000])]
      ensures ListState() == old(ListState()) && listsEnabled == old(listsEnabled)
      ensures ramTarget == old(ramTarget) && events == old(events)
    {
      var b := dmaBuffers[ramTarget];
      mem := Copy(mem, b.base[list] + b.ptr[list], data);
      dmaBuffers := dmaBuffers[ramTarget := b.(ptr := b.ptr[list := (b.ptr[list] + |data|) % 0x1_0000_0000])];
      return 0;
    }

    /** One turn of the blank-list loop of `pvr_scene_finish`: list `i`,
        when enabled and not closed, is opened, given a blank header and
        finished; what remains of the loop then ends as before. */
    method BlankList(i: nat)
      requires Valid() && !dmaMode && listRegOpen == -1 && !drUsed && i < listCount
      modifies this
      ensures Valid() && !dmaMode && listRegOpen == -1 && !drUsed
      ensures listsEnabled == old(listsEnabled) && ramTarget == old(ramTarget)
      ensures dmaBuffers == old(dmaBuffers) && mem == old(mem)
      ensures var blank := i in listsEnabled && i !in old(listsClosed);
        && listsClosed == old(listsClosed) + (if blank then {i} else {})
        && events == old(events) + (if blank then BlankListEvents(i) else [])
    {
      if i in listsEnabled && i !in listsClosed {
        BlankListIsBeginFinish(ListState(), i);
        var _ := ListBegin(i);
        events := events + [BlankHeader(i)];
        var _ := ListFinish();
      }
    }

    /** The blank-list loop of `pvr_scene_finish`, as `BlankLists` says. */
    method SendBlankLists()
      requires Valid() && !dmaMode && listRegOpen == -1 && !drUsed
      modifies this
      ensures Valid() && !dmaMode
      ensures ListState() == BlankLists(old(ListState()), listsEnabled, 0, listCount).0
      ensures events == old(events) + BlankLists(old(ListState()), listsEnabled, 0, listCount).1
      ensures listsEnabled == old(listsEnabled) && ramTarget == old(ramTarget)
      ensures dmaBuffers == old(dmaBuffers) && mem == old(mem)
    {
      for i := 0 to listCount
        invariant Valid() && !dmaMode && listRegOpen == -1 && !drUsed
        invariant listsEnabled == old(listsEnabled) && ramTarget == old(ramTarget)
        invariant dmaBuffers == old(dmaBuffers) && mem == old(mem)
        invariant BlankLists(ListState(), listsEnabled, i, listCount).0 == BlankLists(old(ListState()), listsEnabled, 0, listCount).0
        invariant events + BlankLists(ListState(), listsEnabled, i, listCount).1
          == old(events) + BlankLists(old(ListState()), listsEnabled, 0, listCount).1
      {
        ghost var cur, before := ListState(), events;
        BlankList(i);
        ghost var rest := BlankLists(ListState(), listsEnabled, i + 1, listCount);
        if i in listsEnabled && i !in cur.closed {
          assert ListState() == cur.(closed := cur.closed + {i});
          assert BlankLists(cur, listsEnabled, i, listCount) == (rest.0, BlankListEvents(i) + rest.1);
          assert (before + BlankListEvents(i)) + rest.1 == before + (BlankListEvents(i) + rest.1);
        } else {
          assert ListState() == cur;
        }
      }
    }

    /** `pvr_scene_finish` outside DMA mode (DMA mode fails the source's
        assertion), as `FinishScene` says. */
    method SceneFinish() returns (r: int)
      requires Valid() && !dmaMode
      modifies this
      ensures Valid() && r == 0
      ensures ListState() == FinishScene(old(ListState()), listsEnabled, listCount).0
      ensures events == old(events) + FinishScene(old(ListState()), listsEnabled, listCount).1
      ensures listsEnabled == old(listsEnabled) && ramTarget == old(ramTarget)
      ensures dmaBuffers == old(dmaBuffers) && mem == old(mem)
    {
      if drUsed {
        drUsed := false;
        events := events + [DrFinish];
      }
      if listRegOpen != -1 {
        var _ := ListFinish();
      }
      SendBlankLists();
      return 0;
    }
  }
}
