/** kernel/memctx.c: memory contexts, their block rows and their statistics. */
module MemCtx {
  import MemHeap
  import MemSums
  import MemWrap

  const MAX_CONTEXTS := 32
  const MAX_BLOCKS := 128

  datatype Stats = Stats(quota: nat, used: nat, peak: nat, allocations: nat)
  datatype Context = Context(active: bool, id: nat, owner: nat, stats: Stats)
  datatype Row = Row(ptr: nat, size: nat, ctx: nat)

  const NO_CONTEXT := Context(false, 0, 0, Stats(0, 0, 0, 0))
  const NO_ROW := Row(0, 0, 0)

  // ----- sums over the rows of one context

  function RowSize(r: Row, id: nat): nat { if r.ptr != 0 && r.ctx == id then r.size else 0 }
  function RowCount(r: Row, id: nat): nat { if r.ptr != 0 && r.ctx == id then 1 else 0 }

  function SumSize(rows: seq<Row>, id: nat): nat {
    if rows == [] then 0 else RowSize(rows[0], id) + SumSize(rows[1..], id)
  }

  function SumCount(rows: seq<Row>, id: nat): nat {
    if rows == [] then 0 else RowCount(rows[0], id) + SumCount(rows[1..], id)
  }

  lemma {:induction false} SumUpdate(rows: seq<Row>, i: nat, r: Row, id: nat)
    requires i < |rows|
    ensures SumSize(rows[i := r], id) + RowSize(rows[i], id) == SumSize(rows, id) + RowSize(r, id)
    ensures SumCount(rows[i := r], id) + RowCount(rows[i], id) == SumCount(rows, id) + RowCount(r, id)
  {
    if i == 0 {
      assert rows[0 := r][1..] == rows[1..];
    } else {
      SumUpdate(rows[1..], i - 1, r, id);
      assert rows[i := r][1..] == rows[1..][i - 1 := r];
    }
  }

  lemma {:induction false} SumBlank(rows: seq<Row>, id: nat)
    requires forall i :: 0 <= i < |rows| ==> rows[i].ptr == 0 || rows[i].ctx != id
    ensures SumSize(rows, id) == 0 && SumCount(rows, id) == 0
  {
    if rows != [] {
      SumBlank(rows[1..], id);
    }
  }

  lemma {:induction false} SumAtLeast(rows: seq<Row>, i: nat, id: nat)
    requires i < |rows|
    ensures RowSize(rows[i], id) <= SumSize(rows, id) && RowCount(rows[i], id) <= SumCount(rows, id)
  {
    if i > 0 {
      SumAtLeast(rows[1..], i - 1, id);
    }
  }

  // ----- the invariant

  /** Free rows are blank; used rows own distinct live allocations, for an active context. */
  ghost predicate RowsOk(rows: seq<Row>, contexts: seq<Context>, allocs: map<nat, nat>) {
    && |rows| == MAX_BLOCKS
    && (forall i :: 0 <= i < |rows| && rows[i].ptr == 0 ==> rows[i] == NO_ROW)
    && (forall i :: 0 <= i < |rows| && rows[i].ptr != 0 ==>
         rows[i].ptr in allocs && 0 < rows[i].size <= allocs[rows[i].ptr] && Known(contexts, rows[i].ctx))
    && (forall i, j :: 0 <= i < j < |rows| && rows[i].ptr != 0 ==> rows[i].ptr != rows[j].ptr)
  }

  ghost predicate Known(contexts: seq<Context>, id: nat) {
    exists c :: 0 <= c < |contexts| && contexts[c].active && contexts[c].id == id
  }

  ghost predicate ContextsOk(contexts: seq<Context>, nextId: nat) {
    && |contexts| == MAX_CONTEXTS && nextId > 0
    && (forall c :: 0 <= c < |contexts| && !contexts[c].active ==> contexts[c] == NO_CONTEXT)
    && (forall c :: 0 <= c < |contexts| && contexts[c].active ==> 0 < contexts[c].id < nextId)
    && (forall c, d :: 0 <= c < d < |contexts| && contexts[c].active && contexts[d].active ==>
      contexts[c].id != contexts[d].id)
  }

  /** The counters of a context are the sum and the number of its rows. */
  ghost predicate Accounted(c: Context, rows: seq<Row>) {
    c.active ==>
      && c.stats.used == SumSize(rows, c.id) && c.stats.allocations == SumCount(rows, c.id)
      && c.stats.used <= c.stats.peak
      && (c.stats.quota != 0 ==> c.stats.peak <= c.stats.quota)
  }

  /** Contexts, rows and live allocations agree. */
  ghost predicate Books(contexts: seq<Context>, rows: seq<Row>, nextId: nat, allocs: map<nat, nat>) {
    && ContextsOk(contexts, nextId)
    && RowsOk(rows, contexts, allocs)
    && forall c :: 0 <= c < |contexts| ==> Accounted(contexts[c], rows)
  }

  /** The payload pointers of one context. */
  ghost function OwnedPtrs(rows: seq<Row>, id: nat): set<nat> {
    set i | 0 <= i < |rows| && rows[i].ptr != 0 && rows[i].ctx == id :: rows[i].ptr
  }

  function Cleared(rows: seq<Row>, id: nat): (r: seq<Row>)
    ensures |r| == |rows|
    ensures forall i :: 0 <= i < |rows| ==> r[i] == if rows[i].ptr != 0 && rows[i].ctx == id then NO_ROW else rows[i]
  {
    seq(|rows|, i requires 0 <= i < |rows| => if rows[i].ptr != 0 && rows[i].ctx == id then NO_ROW else rows[i])
  }

  /** Slot c was inactive and now holds a new context. */
  ghost predicate Opened(before: seq<Context>, after: seq<Context>, c: int, id: nat, owner: nat, quota: nat) {
    0 <= c < |before| && before[c] == NO_CONTEXT &&
      after == before[c := Context(true, id, owner, Stats(quota, 0, 0, 0))]
  }

  /** Slot c gets `size` bytes refunded. */
  ghost predicate Refunded(before: seq<Context>, after: seq<Context>, c: int, id: nat, size: nat) {
    && 0 <= c < |before| && before[c].active && before[c].id == id
    && before[c].stats.used >= size && before[c].stats.allocations > 0
    && var st := before[c].stats;
       after == before[c := before[c].(stats := st.(used := st.used - size, allocations := st.allocations - 1))]
  }

  /** The context table without context id. */
  function Forgotten(contexts: seq<Context>, id: nat): (r: seq<Context>)
    ensures |r| == |contexts|
    ensures forall c :: 0 <= c < |contexts| ==>
              r[c] == if contexts[c].active && contexts[c].id == id then NO_CONTEXT else contexts[c]
  {
    seq(|contexts|, c requires 0 <= c < |contexts| => if contexts[c].active && contexts[c].id == id
                                                      then NO_CONTEXT else contexts[c])
  }

  /** Everything the contexts own: the two tables and the live allocations. */
  datatype Ledger = Ledger(contexts: seq<Context>, rows: seq<Row>, allocs: map<nat, nat>)

  /** The ledger as if context id had never existed. */
  ghost function Without(l: Ledger, id: nat): Ledger {
    Ledger(Forgotten(l.contexts, id), Cleared(l.rows, id), l.allocs - OwnedPtrs(l.rows, id))
  }

  class Contexts {
    const heap: MemHeap.Heap
    var contexts: seq<Context>
    var rows: seq<Row>
    var nextId: nat

    ghost predicate Valid()
      reads this, heap
    {
      heap.Valid() && Books(contexts, rows, nextId, heap.Allocations())
    }

    ghost function Snapshot(): Ledger
      reads this, heap
    {
      Ledger(contexts, rows, heap.Allocations())
    }

    constructor Init(h: MemHeap.Heap)
      requires h.Valid()
      ensures Valid() && heap == h && nextId == 1
      ensures forall c :: 0 <= c < MAX_CONTEXTS ==> contexts[c] == NO_CONTEXT
      ensures forall i :: 0 <= i < MAX_BLOCKS ==> rows[i] == NO_ROW
    {
      hide MemHeap.Heap.Valid, Books;
      heap := h;
      contexts := seq(MAX_CONTEXTS, _ => NO_CONTEXT);
      rows := seq(MAX_BLOCKS, _ => NO_ROW);
      nextId := 1;
      new;
      BooksBlank(contexts, rows, heap.Allocations());
    }

    method FindContext(id: nat) returns (c: int)
      requires |contexts| == MAX_CONTEXTS
      ensures -1 <= c < MAX_CONTEXTS
      ensures c == -1 <==> !Known(contexts, id)
      ensures c != -1 ==> contexts[c].active && contexts[c].id == id
    {
      for i := 0 to MAX_CONTEXTS
        invariant forall d :: 0 <= d < i ==> !(contexts[d].active && contexts[d].id == id)
      {
        if contexts[i].active && contexts[i].id == id {
          return i;
        }
      }
      return -1;
    }

    method FindRow(id: nat, ptr: nat) returns (r: int)
      requires |rows| == MAX_BLOCKS
      ensures -1 <= r < MAX_BLOCKS
      ensures r == -1 ==> forall i :: 0 <= i < MAX_BLOCKS ==> !(rows[i].ptr == ptr && rows[i].ctx == id)
      ensures r != -1 ==> rows[r].ptr == ptr && rows[r].ctx == id
    {
      for i := 0 to MAX_BLOCKS
        invariant forall d :: 0 <= d < i ==> !(rows[d].ptr == ptr && rows[d].ctx == id)
      {
        if rows[i].ptr == ptr && rows[i].ctx == id {
          return i;
        }
      }
      return -1;
    }

    /** memctx_create: the id, or -1 when every slot is active. */
    method Create(owner: nat, quota: nat) returns (id: int)
      requires Valid()
      modifies this`contexts, this`nextId
      ensures Valid()
      ensures |old(contexts)| == MAX_CONTEXTS
      ensures id == -1 <==> forall c :: 0 <= c < MAX_CONTEXTS ==> old(contexts)[c].active
      ensures id == -1 ==> contexts == old(contexts) && nextId == old(nextId)
      ensures id != -1 ==> id == old(nextId) && nextId == old(nextId) + 1 && !Known(old(contexts), id)
      ensures id != -1 ==> exists c :: 0 <= c < MAX_CONTEXTS && Opened(old(contexts), contexts, c, id, owner, quota)
      ensures id != -1 ==> Without(Snapshot(), id) == old(Snapshot()) && OwnedPtrs(rows, id) == {}
      ensures id != -1 && quota == 0 ==> Unlimited(contexts, id)
      ensures forall k :: Known(contexts, k) <==> Known(old(contexts), k) || k == id
    {
      hide MemHeap.Heap.Valid, MemHeap.Heap.Allocations, Books;
      BooksShape(contexts, rows, nextId, heap.Allocations());
      for i := 0 to MAX_CONTEXTS
        invariant forall d :: 0 <= d < i ==> contexts[d].active
      {
        if !contexts[i].active {
          id := nextId;
          BooksOpened(contexts, rows, nextId, heap.Allocations(), i, owner, quota);
          WithoutOpened(Snapshot(), i, nextId, owner, quota, nextId);
          KnownKept(contexts, i, Context(true, nextId, owner, Stats(quota, 0, 0, 0)));
          contexts := contexts[i := Context(true, nextId, owner, Stats(quota, 0, 0, 0))];
          nextId := nextId + 1;
          return;
        }
      }
      return -1;
    }

    /** The tests in front of the heap let the request pass. */
    ghost predicate Reaches(id: nat, size: nat)
      reads this
    {
      size > 0 && HasSpareRow(rows) && exists c :: 0 <= c < |contexts| && Passes(contexts[c], id, size)
    }

    /** The request is refused: for its size, its context, its quota, for want of a row or of memory. */
    ghost predicate Refused(id: nat, size: nat)
      reads this, heap
    {
      || size == 0 || !Known(contexts, id) || OverQuota(contexts, id, size) || !HasSpareRow(rows)
      || heap.NoRoom(MemWrap.Needed(size))
    }

    /** The context has no quota, and there are `k` rows and `n` bytes for it. */
    ghost predicate Affords(id: nat, k: nat, n: nat)
      reads this, heap
    {
      Ample(contexts, rows, heap.Ends(), id, k, n)
    }

    /** The tests of memctx_alloc: the slot of the context and a free row, or -1. */
    method Admit(id: nat, size: nat) returns (c: int, slot: int)
      requires Valid()
      ensures c == -1 <==> !Reaches(id, size)
      ensures c == -1 ==> size == 0 || !Known(contexts, id) || OverQuota(contexts, id, size) || !HasSpareRow(rows)
      ensures c != -1 ==> size > 0 && Known(contexts, id) && HasSpareRow(rows)
      ensures c != -1 ==> 0 <= c < |contexts| == MAX_CONTEXTS && contexts[c].active && contexts[c].id == id
      ensures c != -1 ==> 0 <= slot < |rows| == MAX_BLOCKS && rows[slot] == NO_ROW
      ensures c != -1 ==> var st := contexts[c].stats;
                && (st.quota == 0 || MemWrap.Wrap(st.used + size) <= st.quota)
                && (OverQuota(contexts, id, size) <==> st.quota != 0 && st.used + size > st.quota)
    {
      hide MemHeap.Heap.Valid, MemHeap.Heap.Allocations, Books, OverQuota, HasSpareRow, Known;
      c, slot := -1, -1;
      if size == 0 {
        return;
      }
      BooksShape(contexts, rows, nextId, heap.Allocations());
      var found := FindContext(id);
      if found == -1 {
        NotKnown(contexts, id);
        return;
      }
      OneContext(contexts, nextId, found);
      var st := contexts[found].stats;
      OverQuotaIs(contexts, nextId, found, size);
      if st.quota != 0 && MemWrap.Wrap(st.used + size) > st.quota {
        WrapLess(st.used + size);
        return;
      }
      slot := FreeRow();
      SpareRow(rows, slot);
      if slot < 0 {
        return;
      }
      assert Passes(contexts[found], id, size);
      c := found;
    }

    /** memctx_alloc: 0 on failure, in which case nothing changes but the allocator's own bookkeeping. */
    method Alloc(id: nat, size: nat) returns (p: nat)
      requires Valid() && (Reaches(id, size) ==> heap.CanServe(size))
      modifies this`contexts, this`rows, heap
      ensures Valid() && nextId == old(nextId)
      ensures p == 0 <==> old(Refused(id, size))
      ensures p == 0 ==> Snapshot() == old(Snapshot())
      ensures p != 0 ==>
                Without(Snapshot(), id) == old(Without(Snapshot(), id)) && Known(contexts, id) &&
                  OwnedPtrs(rows, id) == old(OwnedPtrs(rows, id)) + {p}
      ensures forall k :: Known(contexts, k) <==> Known(old(contexts), k)
      ensures p != 0 ==>
                size > 0 && p !in old(heap.Allocations()) && p in heap.Allocations() && heap.Allocations()[p] >= size
      ensures p != 0 ==> heap.Allocations() == old(heap.Allocations())[p := heap.Allocations()[p]]
      ensures p != 0 ==>
                exists i :: 0 <= i < |old(rows)| && old(rows)[i] == NO_ROW && rows == old(rows)[i := Row(p, size, id)]
      ensures p != 0 ==> exists c :: 0 <= c < |contexts| && Charged(old(contexts), contexts, c, id, size)
      ensures p != 0 ==> heap.Ends() == old(heap.Shape()).Granted(MemWrap.Needed(size))
    {
      hide MemHeap.Heap.Valid, MemHeap.Heap.Allocations, MemHeap.Heap.CanServe, MemHeap.Heap.NoRoom, Books, OverQuota;
      hide HasSpareRow, Reaches, Known, Passes, MemWrap.Wrap, MemWrap.Room.Granted, MemWrap.Carved, MemWrap.Has;
      var c, slot := Admit(id, size);
      if c == -1 {
        return 0;
      }
      var ctx := contexts[c];
      UsedBelow(this, c);
      p := heap.Alloc(size);
      if p == 0 {
        return;
      }
      MemSums.UsedFits(heap);
      var st := ctx.stats;
      rows := rows[slot := Row(p, size, id)];
      st := st.(used := st.used + size);
      if st.used > st.peak {
        st := st.(peak := st.used);
      }
      st := st.(allocations := st.allocations + 1);
      contexts := contexts[c := ctx.(stats := st)];
      RowAdded(old(rows), old(contexts), nextId, old(heap.Allocations()), slot, c, p, size, heap.Allocations(),
        contexts);
      WithoutAdded(old(Snapshot()), slot, c, id, p, size, Snapshot());
      KnownKept(old(contexts), c, contexts[c]);
    }

    /** memctx_free: give one row back. */
    method Free(id: nat, ptr: nat) returns (r: int)
      requires Valid()
      modifies this`contexts, this`rows, heap
      ensures Valid() && nextId == old(nextId)
      ensures r == 0 || r == -1
      ensures r == 0 <==> ptr != 0 && ptr in OwnedPtrs(old(rows), id)
      ensures r == -1 ==> Snapshot() == old(Snapshot())
      ensures r == 0 ==> heap.Allocations() == old(heap.Allocations()) - {ptr}
      ensures r == 0 ==>
                exists i ::
                  0 <= i < MAX_BLOCKS && old(rows)[i].ptr == ptr && old(rows)[i].ctx == id &&
                    rows == old(rows)[i := NO_ROW]
      ensures r == 0 ==> exists c, size :: Refunded(old(contexts), contexts, c, id, size)
      ensures r == 0 ==> Without(Snapshot(), id) == old(Without(Snapshot(), id))
      ensures forall k :: Known(contexts, k) <==> Known(old(contexts), k)
    {
      hide MemHeap.Heap.Valid, MemHeap.Heap.Allocations, Books, OwnedPtrs;
      if ptr == 0 {
        return -1;
      }
      BooksShape(contexts, rows, nextId, heap.Allocations());
      var c := FindContext(id);
      var i := FindRow(id, ptr);
      OwnedIs(rows, id, ptr);
      if i != -1 {
        RowFacts(contexts, rows, nextId, heap.Allocations(), i);
      }
      if c == -1 || i == -1 {
        return -1;
      }
      var size := rows[i].size;
      heap.LivePointer(ptr);
      var _ := heap.Free(ptr, size);
      var ctx := contexts[c];
      var st := ctx.stats;
      ContextFacts(contexts, rows, nextId, old(heap.Allocations()), c, i);
      if st.used >= size {
        st := st.(used := st.used - size);
      }
      if st.allocations > 0 {
        st := st.(allocations := st.allocations - 1);
      }
      contexts := contexts[c := ctx.(stats := st)];
      rows := rows[i := NO_ROW];
      RowDropped(old(rows), old(contexts), nextId, old(heap.Allocations()), i, c, contexts);
      assert Refunded(old(contexts), contexts, c, id, size);
      WithoutDropped(old(Snapshot()), i, c, id, Snapshot(), nextId);
      KnownKept(old(contexts), c, contexts[c]);
      return 0;
    }

    /** memctx_destroy: give every row of the context back, then forget the context. */
    method Destroy(id: nat) returns (r: int)
      requires Valid()
      modifies this`contexts, this`rows, heap
      ensures Valid() && nextId == old(nextId)
      ensures r == if Known(old(contexts), id) then 0 else -1
      ensures r == -1 ==> Snapshot() == old(Snapshot())
      ensures r == 0 ==> Snapshot() == old(Without(Snapshot(), id))
      ensures forall k :: Known(contexts, k) <==> Known(old(contexts), k) && k != id
      ensures heap.Ends() == old(heap.Ends()) && (r == -1 ==> heap.Shape() == old(heap.Shape()))
    {
      hide MemHeap.Heap.Valid, MemHeap.Heap.Allocations, Books, OwnedPtrs, Cleared, RowsOk, Forgotten;
      BooksShape(contexts, rows, nextId, heap.Allocations());
      var c := FindContext(id);
      if c == -1 {
        return -1;
      }
      ghost var rows0, allocs0 := rows, heap.Allocations();
      ClearStart(rows0, contexts, nextId, allocs0, id);
      for i := 0 to MAX_BLOCKS
        invariant |rows| == MAX_BLOCKS && contexts == old(contexts) && nextId == old(nextId)
        invariant heap.Ends() == old(heap.Ends())
        invariant heap.Valid() && Clearing(rows0, rows, allocs0, heap.Allocations(), id, i)
      {
        ClearFacts(rows0, rows, allocs0, heap.Allocations(), id, i);
        if rows[i].ptr != 0 && rows[i].ctx == id {
          heap.LivePointer(rows[i].ptr);
          var _ := heap.Free(rows[i].ptr, rows[i].size);
          rows := rows[i := NO_ROW];
        }
      }
      contexts := contexts[c := NO_CONTEXT];
      ClearEnd(rows0, rows, old(contexts), nextId, allocs0, heap.Allocations(), id, c);
      ForgetOne(old(contexts), nextId, c);
      KnownForgotten(old(contexts), id);
      return 0;
    }

    method FreeRow() returns (r: int)
      requires |rows| == MAX_BLOCKS
      ensures -1 <= r < MAX_BLOCKS
      ensures r == -1 ==> forall i :: 0 <= i < MAX_BLOCKS ==> rows[i].ptr != 0
      ensures r != -1 ==> rows[r].ptr == 0
    {
      for i := 0 to MAX_BLOCKS
        invariant forall d :: 0 <= d < i ==> rows[d].ptr != 0
      {
        if rows[i].ptr == 0 {
          return i;
        }
      }
      return -1;
    }
  }

  ghost predicate HasSpareRow(rows: seq<Row>) { exists i :: 0 <= i < |rows| && rows[i].ptr == 0 }

  lemma SpareRow(rows: seq<Row>, slot: int)
    requires if 0 <= slot < |rows| then rows[slot].ptr == 0 else forall i :: 0 <= i < |rows| ==> rows[i].ptr != 0
    ensures HasSpareRow(rows) <==> 0 <= slot < |rows|
  {
  }

  function SpareRows(rows: seq<Row>): nat {
    if rows == [] then 0 else (if rows[0].ptr == 0 then 1 else 0) + SpareRows(rows[1..])
  }

  lemma {:induction false} SpareUpdate(rows: seq<Row>, i: nat, r: Row)
    requires i < |rows| && rows[i].ptr == 0 && r.ptr != 0
    ensures SpareRows(rows[i := r]) + 1 == SpareRows(rows)
  {
    if i == 0 {
      assert rows[0 := r][1..] == rows[1..];
    } else {
      SpareUpdate(rows[1..], i - 1, r);
      assert rows[i := r][1..] == rows[1..][i - 1 := r];
    }
  }

  lemma {:induction false} SpareIs(rows: seq<Row>)
    ensures HasSpareRow(rows) <==> SpareRows(rows) > 0
  {
    if rows != [] {
      SpareIs(rows[1..]);
      if i :| 0 <= i < |rows[1..]| && rows[1..][i].ptr == 0 {
        assert rows[i + 1].ptr == 0;
      }
      if HasSpareRow(rows) && rows[0].ptr != 0 {
        var i :| 0 <= i < |rows| && rows[i].ptr == 0;
        assert rows[1..][i - 1].ptr == 0;
      }
    }
  }

  ghost predicate Unlimited(contexts: seq<Context>, id: nat) {
    forall c :: 0 <= c < |contexts| && contexts[c].active && contexts[c].id == id ==> contexts[c].stats.quota == 0
  }

  /** Context id has no quota, `k` rows are left, and the heap has room for `n` bytes. */
  ghost predicate Ample(contexts: seq<Context>, rows: seq<Row>, ends: MemWrap.Cursors, id: nat, k: nat, n: nat) {
    Known(contexts, id) && Unlimited(contexts, id) && SpareRows(rows) >= k && MemWrap.HasRoom(ends, n)
  }

  /** An ample memory grants a request. */
  lemma AmpleGrants(contexts: seq<Context>, rows: seq<Row>, room: MemWrap.Room, id: nat, size: nat, k: nat, n: nat)
    requires room.ends.Ok() && k > 0 && Ample(contexts, rows, room.ends, id, k, MemWrap.Needed(size) + n)
    ensures Known(contexts, id) && !OverQuota(contexts, id, size) && HasSpareRow(rows)
    ensures !room.Lacks(MemWrap.Needed(size))
  {
    hide MemWrap.HasRoom, MemWrap.Full, MemWrap.Tame, MemWrap.Carved;
    SpareIs(rows);
    MemWrap.RoomLeft(room.ends, MemWrap.Needed(size), n);
  }

  /** What a granted request did not need is still there. */
  lemma StillAmple(l: Ledger, l': Ledger, room: MemWrap.Room, i: int, c: int, p: nat, id: nat, size: nat, k: nat,
                   n: nat)
    requires room.ends.Ok() && Ample(l.contexts, l.rows, room.ends, id, k + 1, MemWrap.Needed(size) + n)
    requires 0 <= i < |l.rows| && l.rows[i] == NO_ROW && p != 0 && l'.rows == l.rows[i := Row(p, size, id)]
    requires Charged(l.contexts, l'.contexts, c, id, size)
    ensures Ample(l'.contexts, l'.rows, room.Granted(MemWrap.Needed(size)), id, k, n)
  {
    hide MemWrap.HasRoom, MemWrap.Full, MemWrap.Tame, MemWrap.Carved, SpareRows;
    SpareUpdate(l.rows, i, Row(p, size, id));
    MemWrap.RoomLeft(room.ends, MemWrap.Needed(size), n);
    MemWrap.RoomSplit(room.ends, n, MemWrap.Needed(size));
    assert l'.contexts[c].active && l'.contexts[c].id == id;
  }

  /** Context c is id's, and its quota, compared in 64 bits, allows `size` more bytes. */
  predicate Passes(c: Context, id: nat, size: nat) {
    c.active && c.id == id && (c.stats.quota == 0 || MemWrap.Wrap(c.stats.used + size) <= c.stats.quota)
  }

  /** `size` more bytes would exceed the quota of context id. */
  ghost predicate OverQuota(contexts: seq<Context>, id: nat, size: nat) {
    exists c :: 0 <= c < |contexts| && contexts[c].active && contexts[c].id == id
                && contexts[c].stats.quota != 0 && contexts[c].stats.used + size > contexts[c].stats.quota
  }

  lemma OverQuotaIs(contexts: seq<Context>, nextId: nat, c: int, size: nat)
    requires ContextsOk(contexts, nextId) && 0 <= c < |contexts| && contexts[c].active
    ensures OverQuota(contexts, contexts[c].id, size) <==>
            contexts[c].stats.quota != 0 && contexts[c].stats.used + size > contexts[c].stats.quota
  {
  }

  lemma NotKnown(contexts: seq<Context>, id: nat)
    requires !Known(contexts, id)
    ensures forall c :: 0 <= c < |contexts| ==> !(contexts[c].active && contexts[c].id == id)
  {
  }

  lemma OneContext(contexts: seq<Context>, nextId: nat, c: int)
    requires ContextsOk(contexts, nextId) && 0 <= c < |contexts| && contexts[c].active
    ensures Known(contexts, contexts[c].id)
    ensures forall d :: 0 <= d < |contexts| && contexts[d].active && contexts[d].id == contexts[c].id ==> d == c
  {
  }

  lemma WrapLess(n: nat)
    ensures MemWrap.Wrap(n) <= n
  {
  }

  /** The bytes charged to a context are live bytes. */
  lemma {:induction false} OwnedWithin(rows: seq<Row>, id: nat, allocs: map<nat, nat>)
    requires forall i :: 0 <= i < |rows| && rows[i].ptr != 0 ==>
               rows[i].ptr in allocs && rows[i].size <= allocs[rows[i].ptr]
    requires forall i, j :: 0 <= i < j < |rows| && rows[i].ptr != 0 ==> rows[i].ptr != rows[j].ptr
    ensures SumSize(rows, id) <= MemSums.MapSum(allocs)
  {
    if rows != [] {
      var r := rows[0];
      if r.ptr != 0 {
        MemSums.MapSumRemove(allocs, r.ptr);
        OwnedWithin(rows[1..], id, allocs - {r.ptr});
      } else {
        OwnedWithin(rows[1..], id, allocs);
      }
    }
  }

  lemma UsedBelow(k: Contexts, c: int)
    requires k.Valid() && 0 <= c < |k.contexts| && k.contexts[c].active
    ensures k.contexts[c].stats.used <= k.heap.used
  {
    hide MemHeap.Heap.Valid, MemHeap.Heap.Allocations, Books, MemSums.MapSum;
    BooksUsed(k.contexts, k.rows, k.nextId, k.heap.Allocations(), c);
    MemSums.UsedIs(k.heap);
  }

  lemma BooksUsed(contexts: seq<Context>, rows: seq<Row>, nextId: nat, allocs: map<nat, nat>, c: int)
    requires Books(contexts, rows, nextId, allocs) && 0 <= c < |contexts| && contexts[c].active
    ensures contexts[c].stats.used <= MemSums.MapSum(allocs)
  {
    hide SumSize, SumCount, MemSums.MapSum;
    assert Accounted(contexts[c], rows);
    OwnedWithin(rows, contexts[c].id, allocs);
  }

  /** One more allocation of `size` bytes is charged to context c. */
  ghost predicate Charged(before: seq<Context>, after: seq<Context>, c: int, id: nat, size: nat) {
    && 0 <= c < |before| && before[c].active && before[c].id == id
    && (before[c].stats.quota != 0 ==> before[c].stats.used + size <= before[c].stats.quota)
    && var st := before[c].stats;
       after == before[c := before[c].(stats := Stats(st.quota, st.used + size,
         if st.used + size > st.peak then st.used + size else st.peak, st.allocations + 1))]
  }

  lemma BooksShape(contexts: seq<Context>, rows: seq<Row>, nextId: nat, allocs: map<nat, nat>)
    requires Books(contexts, rows, nextId, allocs)
    ensures |contexts| == MAX_CONTEXTS && |rows| == MAX_BLOCKS && ContextsOk(contexts, nextId)
    ensures forall c :: 0 <= c < |contexts| && !contexts[c].active ==> contexts[c] == NO_CONTEXT
    ensures forall i :: 0 <= i < |rows| && rows[i].ptr == 0 ==> rows[i] == NO_ROW
  {
  }

  lemma BooksBlank(contexts: seq<Context>, rows: seq<Row>, allocs: map<nat, nat>)
    requires |contexts| == MAX_CONTEXTS && forall c :: 0 <= c < |contexts| ==> contexts[c] == NO_CONTEXT
    requires |rows| == MAX_BLOCKS && forall i :: 0 <= i < |rows| ==> rows[i] == NO_ROW
    ensures Books(contexts, rows, 1, allocs)
  {
  }

  /** A context opened in an inactive slot starts with no rows. */
  lemma BooksOpened(contexts: seq<Context>, rows: seq<Row>, nextId: nat, allocs: map<nat, nat>, i: nat, owner: nat,
                    quota: nat)
    requires Books(contexts, rows, nextId, allocs) && i < |contexts| && !contexts[i].active
    ensures !Known(contexts, nextId) && OwnedPtrs(rows, nextId) == {}
    ensures var contexts' := contexts[i := Context(true, nextId, owner, Stats(quota, 0, 0, 0))];
      Books(contexts', rows, nextId + 1, allocs) && Opened(contexts, contexts', i, nextId, owner, quota)
  {
    hide SumSize, SumCount;
    var contexts' := contexts[i := Context(true, nextId, owner, Stats(quota, 0, 0, 0))];
    assert !Known(contexts, nextId);
    SumBlank(rows, nextId);
    KnownKept(contexts, i, contexts'[i]);
  }

  lemma RowAdded(rows: seq<Row>, contexts: seq<Context>, nextId: nat, allocs: map<nat, nat>, i: int, c: int, p: nat,
                 size: nat,
                 allocs': map<nat, nat>, contexts': seq<Context>)
    requires Books(contexts, rows, nextId, allocs) && 0 <= i < |rows| && rows[i] == NO_ROW
    requires 0 <= c < |contexts| && Charged(contexts, contexts', c, contexts[c].id, size)
    requires 0 < p && p !in allocs && p in allocs' && 0 < size <= allocs'[p] && allocs' == allocs[p := allocs'[p]]
    ensures Books(contexts', rows[i := Row(p, size, contexts[c].id)], nextId, allocs')
  {
    hide SumSize, SumCount;
    var id := contexts[c].id;
    var rows' := rows[i := Row(p, size, id)];
    KnownKept(contexts, c, contexts'[c]);
    assert Known(contexts', id) by {
      assert contexts'[c].active && contexts'[c].id == id;
    }
    forall d | 0 <= d < |contexts'|
      ensures Accounted(contexts'[d], rows')
    {
      SumUpdate(rows, i, Row(p, size, id), contexts'[d].id);
      assert Accounted(contexts[d], rows);
    }
  }

  lemma OwnedIs(rows: seq<Row>, id: nat, ptr: nat)
    ensures ptr in OwnedPtrs(rows, id) <==>
              ptr != 0 && exists i :: 0 <= i < |rows| && rows[i].ptr == ptr && rows[i].ctx == id
  {
  }

  lemma RowFacts(contexts: seq<Context>, rows: seq<Row>, nextId: nat, allocs: map<nat, nat>, i: int)
    requires Books(contexts, rows, nextId, allocs) && 0 <= i < |rows| && rows[i].ptr != 0
    ensures rows[i].ptr in allocs && 0 < rows[i].size <= allocs[rows[i].ptr] && Known(contexts, rows[i].ctx)
  {
  }

  lemma ContextFacts(contexts: seq<Context>, rows: seq<Row>, nextId: nat, allocs: map<nat, nat>, c: int, i: int)
    requires Books(contexts, rows, nextId, allocs) && 0 <= c < |contexts| && contexts[c].active
    requires 0 <= i < |rows| && rows[i].ptr != 0 && rows[i].ctx == contexts[c].id
    ensures rows[i].size <= contexts[c].stats.used && contexts[c].stats.allocations > 0
  {
    SumAtLeast(rows, i, contexts[c].id);
    assert Accounted(contexts[c], rows);
  }

  lemma RowDropped(rows: seq<Row>, contexts: seq<Context>, nextId: nat, allocs: map<nat, nat>, i: int, c: int,
                   contexts': seq<Context>)
    requires Books(contexts, rows, nextId, allocs) && 0 <= i < |rows| && rows[i].ptr != 0
    requires 0 <= c < |contexts| && contexts[c].active && rows[i].ctx == contexts[c].id
    requires var st := contexts[c].stats;
      && st.used >= rows[i].size && st.allocations > 0
      && contexts' == contexts[c :=
        contexts[c].(stats := st.(used := st.used - rows[i].size, allocations := st.allocations - 1))]
    ensures Books(contexts', rows[i := NO_ROW], nextId, allocs - {rows[i].ptr})
  {
    hide SumSize, SumCount;
    var rows' := rows[i := NO_ROW];
    KnownKept(contexts, c, contexts'[c]);
    forall d | 0 <= d < |contexts'|
      ensures Accounted(contexts'[d], rows')
    {
      SumUpdate(rows, i, NO_ROW, contexts'[d].id);
      assert Accounted(contexts[d], rows);
    }
  }

  // ----- destroying a context, row by row

  /** The first n rows of `rows0` have been cleared of context id, and their memory given back. */
  ghost predicate Clearing(rows0: seq<Row>, rows: seq<Row>, allocs0: map<nat, nat>, allocs: map<nat, nat>, id: nat,
                           n: nat) {
    && n <= |rows0| == |rows|
    && (forall j :: 0 <= j < n ==> rows[j] == if rows0[j].ptr != 0 && rows0[j].ctx == id then NO_ROW else rows0[j])
    && (forall j :: n <= j < |rows| ==> rows[j] == rows0[j])
    && allocs == allocs0 - OwnedPtrs(rows0[..n], id)
    && (forall i, j :: 0 <= i < j < |rows0| && rows0[i].ptr != 0 ==> rows0[i].ptr != rows0[j].ptr)
    && (forall j :: 0 <= j < |rows0| && rows0[j].ptr != 0 ==>
      rows0[j].ptr in allocs0 && rows0[j].size <= allocs0[rows0[j].ptr])
  }

  lemma ClearStart(rows: seq<Row>, contexts: seq<Context>, nextId: nat, allocs: map<nat, nat>, id: nat)
    requires Books(contexts, rows, nextId, allocs)
    ensures Clearing(rows, rows, allocs, allocs, id, 0)
  {
    assert OwnedPtrs(rows[..0], id) == {};
  }

  lemma OwnedNext(rows: seq<Row>, id: nat, n: nat)
    requires n < |rows|
    ensures OwnedPtrs(rows[..n + 1], id) == OwnedPtrs(rows[..n], id) + (if rows[n].ptr != 0 && rows[n].ctx == id
                                                                        then {rows[n].ptr} else {})
  {
    var a, b := rows[..n], rows[..n + 1];
    assert forall i :: 0 <= i < n ==> a[i] == b[i];
    forall p | p in OwnedPtrs(b, id)
      ensures p in OwnedPtrs(a, id) || (p == rows[n].ptr && rows[n].ptr != 0 && rows[n].ctx == id)
    {
      var i :| 0 <= i < |b| && b[i].ptr != 0 && b[i].ctx == id && b[i].ptr == p;
      if i < n {
        assert a[i].ptr == p;
      }
    }
    forall p | p in OwnedPtrs(a, id)
      ensures p in OwnedPtrs(b, id)
    {
      var i :| 0 <= i < |a| && a[i].ptr != 0 && a[i].ctx == id && a[i].ptr == p;
      assert b[i].ptr == p;
    }
    if rows[n].ptr != 0 && rows[n].ctx == id {
      assert b[n].ptr == rows[n].ptr;
    }
  }

  lemma ClearFacts(rows0: seq<Row>, rows: seq<Row>, allocs0: map<nat, nat>, allocs: map<nat, nat>, id: nat, n: nat)
    requires Clearing(rows0, rows, allocs0, allocs, id, n) && n < |rows|
    ensures rows[n].ptr != 0 ==> rows[n].ptr in allocs && rows[n].size <= allocs[rows[n].ptr]
    ensures if rows[n].ptr != 0 && rows[n].ctx == id
            then Clearing(rows0, rows[n := NO_ROW], allocs0, allocs - {rows[n].ptr}, id, n + 1)
            else Clearing(rows0, rows, allocs0, allocs, id, n + 1)
  {
    OwnedNext(rows0, id, n);
    if rows[n].ptr != 0 {
      assert rows[n].ptr !in OwnedPtrs(rows0[..n], id);
    }
  }

  lemma {:induction false} SumCleared(rows: seq<Row>, id: nat, other: nat)
    requires id != other
    ensures SumSize(Cleared(rows, id), other) == SumSize(rows, other) &&
            SumCount(Cleared(rows, id), other) == SumCount(rows, other)
  {
    if rows != [] {
      SumCleared(rows[1..], id, other);
      assert Cleared(rows, id)[1..] == Cleared(rows[1..], id);
    }
  }

  lemma ClearEnd(rows0: seq<Row>, rows: seq<Row>, contexts: seq<Context>, nextId: nat, allocs0: map<nat, nat>,
                 allocs: map<nat, nat>, id: nat, c: int)
    requires Books(contexts, rows0, nextId, allocs0) && Clearing(rows0, rows, allocs0, allocs, id, MAX_BLOCKS)
    requires 0 <= c < |contexts| && contexts[c].active && contexts[c].id == id
    ensures rows == Cleared(rows0, id) && allocs == allocs0 - OwnedPtrs(rows0, id)
    ensures Books(contexts[c := NO_CONTEXT], rows, nextId, allocs)
  {
    hide SumSize, SumCount, Cleared;
    assert rows0[..MAX_BLOCKS] == rows0;
    var contexts' := contexts[c := NO_CONTEXT];
    assert rows == Cleared(rows0, id);
    forall i | 0 <= i < |rows| && rows[i].ptr != 0
      ensures rows[i].ptr in allocs && Known(contexts', rows[i].ctx)
    {
      OwnedIs(rows0, id, rows[i].ptr);
      assert Known(contexts, rows0[i].ctx);
      var d :| 0 <= d < |contexts| && contexts[d].active && contexts[d].id == rows0[i].ctx;
      assert contexts'[d].active && contexts'[d].id == rows[i].ctx;
    }
    forall d | 0 <= d < |contexts'| && contexts'[d].active
      ensures Accounted(contexts'[d], rows)
    {
      SumCleared(rows0, id, contexts'[d].id);
      assert Accounted(contexts[d], rows0);
    }
  }

  // ----- what an operation on one context leaves alone

  lemma ForgetOne(contexts: seq<Context>, nextId: nat, c: int)
    requires ContextsOk(contexts, nextId) && 0 <= c < |contexts| && contexts[c].active
    ensures contexts[c := NO_CONTEXT] == Forgotten(contexts, contexts[c].id)
  {
  }

  lemma NotOwned(rows: seq<Row>, id: nat)
    requires OwnedPtrs(rows, id) == {}
    ensures forall i :: 0 <= i < |rows| ==> !(rows[i].ptr != 0 && rows[i].ctx == id)
  {
    forall i | 0 <= i < |rows|
      ensures !(rows[i].ptr != 0 && rows[i].ctx == id)
    {
      OwnedIs(rows, id, rows[i].ptr);
    }
  }

  lemma WithoutOpened(l: Ledger, c: nat, id: nat, owner: nat, quota: nat, nextId: nat)
    requires ContextsOk(l.contexts, nextId) && c < |l.contexts| && !l.contexts[c].active && !Known(l.contexts, id)
    requires OwnedPtrs(l.rows, id) == {}
    ensures Without(l.(contexts := l.contexts[c := Context(true, id, owner, Stats(quota, 0, 0, 0))]), id) == l
  {
    NotOwned(l.rows, id);
    assert Cleared(l.rows, id) == l.rows;
    var contexts' := l.contexts[c := Context(true, id, owner, Stats(quota, 0, 0, 0))];
    assert Forgotten(contexts', id) == l.contexts;
  }

  lemma OwnedUpdate(rows: seq<Row>, i: int, r: Row, id: nat)
    requires 0 <= i < |rows|
    requires forall j :: 0 <= j < |rows| && j != i && rows[j].ptr != 0 ==> rows[j].ptr != rows[i].ptr
    ensures rows[i].ptr == 0 && r.ptr != 0 && r.ctx == id ==>
              OwnedPtrs(rows[i := r], id) == OwnedPtrs(rows, id) + {r.ptr}
    ensures rows[i].ptr != 0 && rows[i].ctx == id && r == NO_ROW ==>
              OwnedPtrs(rows[i := r], id) == OwnedPtrs(rows, id) - {rows[i].ptr}
  {
    var rows' := rows[i := r];
    assert forall j :: 0 <= j < |rows| && j != i ==> rows'[j] == rows[j];
    forall p: nat
      ensures p in OwnedPtrs(rows', id) ==> p in OwnedPtrs(rows, id) || (p == r.ptr && r.ptr != 0 && r.ctx == id)
      ensures p in OwnedPtrs(rows, id) ==> p in OwnedPtrs(rows', id) || p == rows[i].ptr
    {
      if p in OwnedPtrs(rows', id) {
        var j :| 0 <= j < |rows'| && rows'[j].ptr != 0 && rows'[j].ctx == id && rows'[j].ptr == p;
        if j != i { assert rows[j].ptr == p; }
      }
      if p in OwnedPtrs(rows, id) {
        var j :| 0 <= j < |rows| && rows[j].ptr != 0 && rows[j].ctx == id && rows[j].ptr == p;
        if j != i { assert rows'[j].ptr == p; }
      }
    }
    if r.ptr != 0 && r.ctx == id {
      assert rows'[i].ptr in OwnedPtrs(rows', id);
    } else if r == NO_ROW && rows[i].ptr != 0 {
      OwnedIs(rows', id, rows[i].ptr);
    }
  }

  lemma WithoutAdded(l: Ledger, i: int, c: int, id: nat, p: nat, size: nat, l': Ledger)
    requires 0 <= i < |l.rows| && l.rows[i] == NO_ROW && l'.rows == l.rows[i := Row(p, size, id)] && p != 0
    requires Charged(l.contexts, l'.contexts, c, id, size)
    requires p !in l.allocs && p in l'.allocs && l'.allocs == l.allocs[p := l'.allocs[p]]
    ensures Without(l', id) == Without(l, id) && Known(l'.contexts, id)
    ensures OwnedPtrs(l'.rows, id) == OwnedPtrs(l.rows, id) + {p}
  {
    assert Cleared(l'.rows, id) == Cleared(l.rows, id);
    assert Forgotten(l'.contexts, id) == Forgotten(l.contexts, id);
    OwnedUpdate(l.rows, i, Row(p, size, id), id);
    assert l'.allocs - OwnedPtrs(l'.rows, id) == l.allocs - OwnedPtrs(l.rows, id);
    assert l'.contexts[c].active && l'.contexts[c].id == id;
  }

  lemma WithoutDropped(l: Ledger, i: int, c: int, id: nat, l': Ledger, nextId: nat)
    requires Books(l.contexts, l.rows, nextId, l.allocs)
    requires 0 <= i < |l.rows| && l.rows[i].ptr != 0 && l.rows[i].ctx == id && l'.rows == l.rows[i := NO_ROW]
    requires Refunded(l.contexts, l'.contexts, c, id, l.rows[i].size)
    requires l'.allocs == l.allocs - {l.rows[i].ptr}
    ensures Without(l', id) == Without(l, id)
  {
    assert Cleared(l'.rows, id) == Cleared(l.rows, id);
    assert Forgotten(l'.contexts, id) == Forgotten(l.contexts, id);
    assert l.rows[i].ptr in OwnedPtrs(l.rows, id);
    OwnedUpdate(l.rows, i, NO_ROW, id);
    assert l'.allocs - OwnedPtrs(l'.rows, id) == l.allocs - OwnedPtrs(l.rows, id);
  }

  lemma KnownKept(contexts: seq<Context>, i: nat, c: Context)
    requires i < |contexts| && c.active && (!contexts[i].active || c.id == contexts[i].id)
    ensures forall id :: Known(contexts[i := c], id) <==> Known(contexts, id) || id == c.id
  {
    var contexts' := contexts[i := c];
    assert contexts'[i].active && contexts'[i].id == c.id;
    forall id
      ensures Known(contexts', id) <==> Known(contexts, id) || id == c.id
    {
      if Known(contexts, id) {
        var d :| 0 <= d < |contexts| && contexts[d].active && contexts[d].id == id;
        assert contexts'[d].active && contexts'[d].id == id;
      }
      if Known(contexts', id) {
        var d :| 0 <= d < |contexts'| && contexts'[d].active && contexts'[d].id == id;
        assert d != i ==> contexts[d].active && contexts[d].id == id;
      }
    }
  }

  lemma KnownForgotten(contexts: seq<Context>, id: nat)
    ensures forall k :: Known(Forgotten(contexts, id), k) <==> Known(contexts, k) && k != id
  {
    var contexts' := Forgotten(contexts, id);
    forall k
      ensures Known(contexts', k) <==> Known(contexts, k) && k != id
    {
      if Known(contexts, k) && k != id {
        var d :| 0 <= d < |contexts| && contexts[d].active && contexts[d].id == k;
        assert contexts'[d].active && contexts'[d].id == k;
      }
    }
  }
}
