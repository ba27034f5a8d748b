/** The allocation list of the GLdc video-memory allocator: the live
    allocations, largest first, each covering a run of sub-blocks. */
module GldcEntries {
  import opened GldcBitmap

  /** `struct AllocEntry` without its `next` link: the list is a sequence. */
  datatype Entry = Entry(pointer: nat, size: nat, ctx: int)

  /** `subblock_from_pointer`: the first sub-block of `e`. */
  function Start(base: nat, e: Entry): int
  {
    (e.pointer - base) / 256
  }

  /** The sub-blocks `e` occupies. */
  function Len(e: Entry): nat
  {
    SubblockCount(e.size)
  }

  ghost predicate Covers(base: nat, e: Entry, p: int)
  {
    Start(base, e) <= p < Start(base, e) + Len(e)
  }

  /** Some entry of `es` occupies sub-block `p`. */
  ghost predicate Covered(base: nat, es: seq<Entry>, p: int)
  {
    exists k :: 0 <= k < |es| && Covers(base, es[k], p)
  }

  /** `e` starts on a sub-block of the pool and ends inside it. */
  ghost predicate Placed(base: nat, limit: nat, e: Entry)
  {
    e.pointer >= base && (e.pointer - base) % 256 == 0 && Len(e) > 0 && Start(base, e) + Len(e) <= limit
  }

  ghost predicate Apart(base: nat, a: Entry, b: Entry)
  {
    Start(base, a) + Len(a) <= Start(base, b) || Start(base, b) + Len(b) <= Start(base, a)
  }

  ghost predicate Disjoint(base: nat, es: seq<Entry>)
  {
    forall i, j :: 0 <= i < |es| && 0 <= j < |es| && i != j ==> Apart(base, es[i], es[j])
  }

  /** Sizes descend along the list. */
  ghost predicate SortedBySize(es: seq<Entry>)
  {
    forall i, j :: 0 <= i < j < |es| ==> es[j].size <= es[i].size
  }

  /** The bitmap `f` marks exactly the sub-blocks the entries occupy. */
  ghost predicate Consistent(base: nat, f: seq<bool>, es: seq<Entry>)
  {
    forall p :: 0 <= p < |f| ==> (f[p] <==> Covered(base, es, p))
  }

  /** What the allocator keeps true between calls, on a bitmap `f` of which the
      first `limit` sub-blocks belong to the pool. */
  ghost predicate Invariant(base: nat, limit: nat, f: seq<bool>, es: seq<Entry>)
  {
    (forall k :: 0 <= k < |es| ==> Placed(base, limit, es[k]))
    && Disjoint(base, es) && SortedBySize(es) && Consistent(base, f, es)
  }

  /** Some entry carries `ctx`. */
  ghost predicate HasCtx(es: seq<Entry>, ctx: int)
  {
    exists k :: 0 <= k < |es| && es[k].ctx == ctx
  }

  /** The first entry whose pointer is `pointer`, or `|es|`. */
  function PointerIndex(es: seq<Entry>, pointer: nat): (k: nat)
    ensures k <= |es|
    ensures forall i :: 0 <= i < k ==> es[i].pointer != pointer
    ensures k < |es| ==> es[k].pointer == pointer
  {
    if es == [] then 0
    else if es[0].pointer == pointer then 0
    else 1 + PointerIndex(es[1..], pointer)
  }

  /** The list after `alloc_malloc` links `e` in: before the first entry smaller
      than it, or at the end. */
  function SizeInsert(es: seq<Entry>, e: Entry): seq<Entry>
  {
    if es == [] then [e]
    else if es[0].size < e.size then [e] + es
    else [es[0]] + SizeInsert(es[1..], e)
  }

  /** Where `SizeInsert` puts `e`: after every entry at least as large and
      before the first smaller one. */
  lemma {:induction false} SizeInsertSplit(es: seq<Entry>, e: Entry) returns (k: nat)
    ensures k <= |es| && SizeInsert(es, e) == es[..k] + [e] + es[k..]
    ensures forall i :: 0 <= i < k ==> es[i].size >= e.size
    ensures k < |es| ==> es[k].size < e.size
  {
    if es == [] {
      k := 0;
    } else if es[0].size < e.size {
      k := 0;
    } else {
      var k' := SizeInsertSplit(es[1..], e);
      k := k' + 1;
      assert es[..k] == [es[0]] + es[1..][..k'];
      assert es[k..] == es[1..][k'..];
    }
  }

  /** Insertion keeps the sizes descending. */
  lemma SizeInsertSorted(es: seq<Entry>, e: Entry)
    requires SortedBySize(es)
    ensures SortedBySize(SizeInsert(es, e))
  {
    var k := SizeInsertSplit(es, e);
    var r := SizeInsert(es, e);
    forall i, j | 0 <= i < j < |r|
      ensures r[j].size <= r[i].size
    {
      assert r[i] == if i < k then es[i] else if i == k then e else es[i - 1];
      assert r[j] == if j < k then es[j] else if j == k then e else es[j - 1];
    }
  }

  /** Insertion adds `e` and loses nothing. */
  lemma SizeInsertPermutes(es: seq<Entry>, e: Entry)
    ensures multiset(SizeInsert(es, e)) == multiset(es) + multiset{e}
  {
    var k := SizeInsertSplit(es, e);
    assert es == es[..k] + es[k..];
  }

  /** A placed entry that covers no sub-block of another sits apart from it. */
  lemma ApartFromCover(base: nat, a: Entry, b: Entry)
    requires Len(a) > 0 && Len(b) > 0
    requires !Covers(base, b, Start(base, a)) && !Covers(base, a, Start(base, b))
    ensures Apart(base, a, b)
  {
  }

  /** Under the invariant, a free run shares no sub-block with any entry. */
  lemma FreeApart(base: nat, limit: nat, f: seq<bool>, es: seq<Entry>, s: int, n: nat, k: nat)
    requires Invariant(base, limit, f, es) && limit <= |f| && FreeRun(f, limit, s, n) && n > 0 && k < |es|
    ensures Start(base, es[k]) + Len(es[k]) <= s || s + n <= Start(base, es[k])
  {
    var a := Start(base, es[k]);
    var q := if a < s then s else a;
    if q < s + n && q < a + Len(es[k]) {
      assert !Used(f, q);
      assert Covers(base, es[k], q);
      assert Covered(base, es, q);
      assert false;
    }
  }

  /** The entry `e` made from a free run from `s`. */
  ghost predicate FreshEntry(base: nat, limit: nat, f: seq<bool>, e: Entry, s: nat)
  {
    e.pointer == base + 256 * s && Len(e) > 0 && FreeRun(f, limit, s, Len(e))
  }

  lemma FreshStart(base: nat, e: Entry, s: nat)
    requires e.pointer == base + 256 * s
    ensures Start(base, e) == s && (e.pointer - base) % 256 == 0
  {
  }

  /** `r` is `es` with `e` at index `k`. */
  ghost predicate InsertedAt(es: seq<Entry>, r: seq<Entry>, e: Entry, k: nat)
  {
    k <= |es| && |r| == |es| + 1 && r[k] == e
    && (forall i :: 0 <= i < k ==> r[i] == es[i])
    && (forall i :: k < i < |r| ==> r[i] == es[i - 1])
  }

  lemma InsertedPlacedDisjoint(base: nat, limit: nat, f: seq<bool>, es: seq<Entry>, r: seq<Entry>, e: Entry, k: nat, s: nat)
    requires Invariant(base, limit, f, es) && limit <= |f|
    requires FreshEntry(base, limit, f, e, s) && InsertedAt(es, r, e, k)
    ensures (forall i :: 0 <= i < |r| ==> Placed(base, limit, r[i])) && Disjoint(base, r)
  {
    FreshStart(base, e, s);
    forall i | 0 <= i < |es|
      ensures Apart(base, e, es[i]) && Apart(base, es[i], e)
    {
      FreeApart(base, limit, f, es, s, Len(e), i);
    }
    forall i, j | 0 <= i < |r| && 0 <= j < |r| && i != j
      ensures Apart(base, r[i], r[j])
    {
      if i != k && j != k {
        assert Apart(base, es[if i < k then i else i - 1], es[if j < k then j else j - 1]);
      }
    }
  }

  lemma InsertedConsistent(base: nat, limit: nat, f: seq<bool>, g: seq<bool>, es: seq<Entry>, r: seq<Entry>,
                           e: Entry, k: nat, s: nat)
    requires Consistent(base, f, es) && e.pointer == base + 256 * s
    requires Marked(f, g, s, s + Len(e), true) && InsertedAt(es, r, e, k)
    ensures Consistent(base, g, r)
  {
    FreshStart(base, e, s);
    forall p | 0 <= p < |g|
      ensures g[p] <==> Covered(base, r, p)
    {
      if Covers(base, e, p) {
        assert Covers(base, r[k], p);
      } else if g[p] {
        assert Covered(base, es, p);
        var i :| 0 <= i < |es| && Covers(base, es[i], p);
        assert Covers(base, r[if i < k then i else i + 1], p);
      }
    }
  }

  /** `alloc_malloc`: a fresh entry marked used and linked in by size keeps the
      invariant. */
  lemma InsertKeeps(base: nat, limit: nat, f: seq<bool>, g: seq<bool>, es: seq<Entry>, e: Entry, s: nat)
    requires Invariant(base, limit, f, es) && limit <= |f|
    requires FreshEntry(base, limit, f, e, s) && Marked(f, g, s, s + Len(e), true)
    ensures Invariant(base, limit, g, SizeInsert(es, e))
  {
    var k := SizeInsertSplit(es, e);
    SizeInsertSorted(es, e);
    assert InsertedAt(es, SizeInsert(es, e), e, k);
    InsertedPlacedDisjoint(base, limit, f, es, SizeInsert(es, e), e, k, s);
    InsertedConsistent(base, limit, f, g, es, SizeInsert(es, e), e, k, s);
  }

  /** Under the invariant every sub-block of an entry is marked used. */
  lemma EntryUsed(base: nat, limit: nat, f: seq<bool>, es: seq<Entry>, k: nat, p: int)
    requires Invariant(base, limit, f, es) && limit <= |f| && k < |es| && Covers(base, es[k], p)
    ensures Used(f, p)
  {
    assert Covered(base, es, p);
  }

  /** An entry's pointer picks it out: no other entry starts at the same place. */
  lemma PointerUnique(base: nat, limit: nat, f: seq<bool>, es: seq<Entry>, i: nat, j: nat)
    requires Invariant(base, limit, f, es) && i < |es| && j < |es| && es[i].pointer == es[j].pointer
    ensures i == j
  {
  }

  lemma RemovedPlacedDisjoint(base: nat, limit: nat, f: seq<bool>, es: seq<Entry>, k: nat)
    requires Invariant(base, limit, f, es) && k < |es|
    ensures var r := es[..k] + es[k + 1..];
            (forall i :: 0 <= i < |r| ==> Placed(base, limit, r[i])) && Disjoint(base, r) && SortedBySize(r)
  {
    var r := es[..k] + es[k + 1..];
    assert forall i :: 0 <= i < |r| ==> r[i] == es[if i < k then i else i + 1];
    forall i, j | 0 <= i < |r| && 0 <= j < |r| && i != j
      ensures Apart(base, r[i], r[j])
    {
      assert Apart(base, es[if i < k then i else i + 1], es[if j < k then j else j + 1]);
    }
    forall i, j | 0 <= i < j < |r|
      ensures r[j].size <= r[i].size
    {
      assert es[if j < k then j else j + 1].size <= es[if i < k then i else i + 1].size;
    }
  }

  lemma RemovedConsistent(base: nat, limit: nat, f: seq<bool>, g: seq<bool>, es: seq<Entry>, k: nat)
    requires Invariant(base, limit, f, es) && k < |es|
    requires Marked(f, g, Start(base, es[k]), Start(base, es[k]) + Len(es[k]), false)
    ensures Consistent(base, g, es[..k] + es[k + 1..])
  {
    var r := es[..k] + es[k + 1..];
    assert forall i :: 0 <= i < |r| ==> r[i] == es[if i < k then i else i + 1];
    forall p | 0 <= p < |g|
      ensures g[p] <==> Covered(base, r, p)
    {
      if Covers(base, es[k], p) {
      } else if g[p] {
        var i :| 0 <= i < |es| && Covers(base, es[i], p);
        assert Covers(base, r[if i < k then i else i - 1], p);
      }
    }
  }

  /** `alloc_free`: an entry unlinked and its sub-blocks cleared keeps the
      invariant. */
  lemma RemoveKeeps(base: nat, limit: nat, f: seq<bool>, g: seq<bool>, es: seq<Entry>, k: nat)
    requires Invariant(base, limit, f, es) && k < |es|
    requires Marked(f, g, Start(base, es[k]), Start(base, es[k]) + Len(es[k]), false)
    ensures Invariant(base, limit, g, es[..k] + es[k + 1..])
  {
    RemovedPlacedDisjoint(base, limit, f, es, k);
    RemovedConsistent(base, limit, f, g, es, k);
  }

  lemma MovedPlacedDisjoint(base: nat, limit: nat, f: seq<bool>, es: seq<Entry>, k: nat, e: Entry, s: nat)
    requires Invariant(base, limit, f, es) && limit <= |f| && k < |es|
    requires FreshEntry(base, limit, f, e, s) && e.size == es[k].size
    ensures var r := es[k := e];
            (forall i :: 0 <= i < |r| ==> Placed(base, limit, r[i])) && Disjoint(base, r) && SortedBySize(r)
  {
    FreshStart(base, e, s);
    var r := es[k := e];
    forall i | 0 <= i < |es|
      ensures Apart(base, e, es[i]) && Apart(base, es[i], e)
    {
      FreeApart(base, limit, f, es, s, Len(e), i);
    }
    forall i, j | 0 <= i < |r| && 0 <= j < |r| && i != j
      ensures Apart(base, r[i], r[j])
    {
      if i != k && j != k {
        assert Apart(base, es[i], es[j]);
      }
    }
  }

  lemma MovedConsistent(base: nat, limit: nat, f: seq<bool>, h: seq<bool>, es: seq<Entry>, k: nat, e: Entry, s: nat)
    requires Invariant(base, limit, f, es) && limit <= |f| && k < |es|
    requires FreshEntry(base, limit, f, e, s) && e.size == es[k].size
    requires |h| == |f|
    requires forall p :: 0 <= p < |f| ==>
               h[p] == if Covers(base, es[k], p) then false else if Covers(base, e, p) then true else f[p]
    ensures Consistent(base, h, es[k := e])
  {
    FreshStart(base, e, s);
    var r := es[k := e];
    forall p | 0 <= p < |h|
      ensures h[p] <==> Covered(base, r, p)
    {
      if Covers(base, es[k], p) {
        if Covered(base, r, p) {
          var i :| 0 <= i < |r| && Covers(base, r[i], p);
          if i == k {
            FreeApart(base, limit, f, es, s, Len(e), k);
          }
        }
      } else if Covers(base, e, p) {
        assert Covers(base, r[k], p);
      } else if h[p] {
        var i :| 0 <= i < |es| && Covers(base, es[i], p);
        assert Covers(base, r[i], p);
      }
    }
  }

  /** `alloc_run_defrag`: an entry moved to a free run, the new run marked used
      and the old one cleared, keeps the invariant. */
  lemma MoveKeeps(base: nat, limit: nat, f: seq<bool>, g: seq<bool>, h: seq<bool>, es: seq<Entry>, k: nat, e: Entry, s: nat)
    requires Invariant(base, limit, f, es) && limit <= |f| && k < |es|
    requires FreshEntry(base, limit, f, e, s) && e.size == es[k].size
    requires Marked(f, g, s, s + Len(e), true)
    requires Marked(g, h, Start(base, es[k]), Start(base, es[k]) + Len(es[k]), false)
    ensures Invariant(base, limit, h, es[k := e])
  {
    FreshStart(base, e, s);
    MovedPlacedDisjoint(base, limit, f, es, k, e, s);
    MovedConsistent(base, limit, f, h, es, k, e, s);
  }

  lemma EntryInPool(base: nat, limit: nat, f: seq<bool>, es: seq<Entry>, k: nat)
    requires Invariant(base, limit, f, es) && k < |es|
    ensures Placed(base, limit, es[k])
  {
  }

  lemma SizeInsertHas(es: seq<Entry>, e: Entry)
    ensures HasCtx(SizeInsert(es, e), e.ctx)
  {
    var k := SizeInsertSplit(es, e);
    assert SizeInsert(es, e)[k] == e;
  }

  /** Every entry of `es` is the entry of `es0` at the same place, with the
      same size and context and a pointer no higher. */
  ghost predicate Shrunk(es0: seq<Entry>, es: seq<Entry>)
  {
    |es| == |es0|
    && forall i :: 0 <= i < |es| ==>
         es[i].size == es0[i].size && es[i].ctx == es0[i].ctx && es[i].pointer <= es0[i].pointer
  }

  lemma ShrunkTrans(a: seq<Entry>, b: seq<Entry>, c: seq<Entry>)
    requires Shrunk(a, b) && Shrunk(b, c)
    ensures Shrunk(a, c)
  {
  }

  /** The bitmap side of `alloc_malloc`: marking the chosen free run keeps the
      invariant for the new list and adds the run to the used count. */
  lemma MallocKeeps(base: nat, limit: nat, u: seq<bv8>, v: seq<bv8>, es: seq<Entry>, e: Entry, s: nat)
    requires Invariant(base, limit, Flags(u), es) && limit <= 8 * |u|
    requires FreshEntry(base, limit, Flags(u), e, s) && Updated(u, v, s, s + Len(e), true)
    ensures Invariant(base, limit, Flags(v), SizeInsert(es, e))
    ensures UsedCount(Flags(v), limit) == UsedCount(Flags(u), limit) + Len(e)
  {
    InsertKeeps(base, limit, Flags(u), Flags(v), es, e, s);
    forall p | s <= p < s + Len(e) && 0 <= p < limit
      ensures !Flags(u)[p]
    {
      assert !Used(Flags(u), p);
    }
    UsedCountFlipped(Flags(u), Flags(v), s, s + Len(e), true, limit);
  }

  /** The bitmap side of `alloc_free`. */
  lemma FreeKeeps(base: nat, limit: nat, u: seq<bv8>, v: seq<bv8>, es: seq<Entry>, k: nat)
    requires Invariant(base, limit, Flags(u), es) && limit <= 8 * |u| && k < |es|
    requires Updated(u, v, Start(base, es[k]), Start(base, es[k]) + Len(es[k]), false)
    ensures Invariant(base, limit, Flags(v), es[..k] + es[k + 1..])
    ensures UsedCount(Flags(v), limit) + Len(es[k]) == UsedCount(Flags(u), limit)
  {
    RemoveKeeps(base, limit, Flags(u), Flags(v), es, k);
    forall p | Start(base, es[k]) <= p < Start(base, es[k]) + Len(es[k]) && 0 <= p < limit
      ensures Flags(u)[p]
    {
      EntryUsed(base, limit, Flags(u), es, k, p);
    }
    UsedCountFlipped(Flags(u), Flags(v), Start(base, es[k]), Start(base, es[k]) + Len(es[k]), false, limit);
  }

  /** The bitmap side of one defragmenting move. */
  lemma DefragKeeps(base: nat, limit: nat, f: seq<bv8>, g: seq<bv8>, h: seq<bv8>, es: seq<Entry>, k: nat, e: Entry, s: nat)
    requires Invariant(base, limit, Flags(f), es) && limit <= 8 * |f| && k < |es|
    requires FreshEntry(base, limit, Flags(f), e, s) && e.size == es[k].size
    requires Updated(f, g, s, s + Len(e), true)
    requires Updated(g, h, Start(base, es[k]), Start(base, es[k]) + Len(es[k]), false)
    ensures Invariant(base, limit, Flags(h), es[k := e])
    ensures UsedCount(Flags(h), limit) == UsedCount(Flags(f), limit)
  {
    MoveKeeps(base, limit, Flags(f), Flags(g), Flags(h), es, k, e, s);
    forall p | s <= p < s + Len(e) && 0 <= p < limit
      ensures !Flags(f)[p]
    {
      assert !Used(Flags(f), p);
    }
    UsedCountFlipped(Flags(f), Flags(g), s, s + Len(e), true, limit);
    forall p | Start(base, es[k]) <= p < Start(base, es[k]) + Len(es[k]) && 0 <= p < limit
      ensures Flags(g)[p]
    {
      EntryUsed(base, limit, Flags(f), es, k, p);
    }
    UsedCountFlipped(Flags(g), Flags(h), Start(base, es[k]), Start(base, es[k]) + Len(es[k]), false, limit);
  }
}
