/** Any run of a client that frees only what it holds and asks only for what can be served. */
module MemRun {
  import MemHeap
  import MemWrap

  datatype Op = Alloc(size: nat) | Free(addr: nat)

  /** Sizes are 64-bit numbers. */
  predicate Proper(op: Op) { op.Alloc? ==> op.size < MemWrap.SIZE_MAX }

  /** Whether the sums of a request mean what they should. */
  method Servable(h: MemHeap.Heap, size: nat) returns (b: bool)
    requires h.Valid() && size < MemWrap.SIZE_MAX
    ensures b <==> h.CanServe(size)
  {
    hide MemHeap.Heap.Valid, MemWrap.Has, MemWrap.Tame, MemWrap.Full;
    var total := MemWrap.Needed(size);
    if total < MemWrap.SIZE_MAX {
      var fit := h.Fits(total);
      return fit || MemWrap.Tame(h.Ends(), total);
    }
    var fit := h.Fits(total - MemWrap.SIZE_MAX);
    return !fit && MemWrap.Full(h.Ends(), total - MemWrap.SIZE_MAX);
  }

  /** Every pointer held is live, with at least the bytes asked for, and clear of every other. */
  ghost predicate Holds(allocs: map<nat, nat>, held: map<nat, nat>) {
    held.Keys == allocs.Keys && forall p :: p in held ==> held[p] <= allocs[p]
  }

  ghost predicate Clear(held: map<nat, nat>) {
    forall p, q :: p in held && q in held && p != q ==> p + held[p] <= q || q + held[q] <= p
  }

  method Run(h: MemHeap.Heap, ops: seq<Op>) returns (held: map<nat, nat>)
    requires h.Valid() && h.Allocations() == map[] && forall i :: 0 <= i < |ops| ==> Proper(ops[i])
    modifies h
    ensures h.Valid() && Holds(h.Allocations(), held) && Clear(held)
  {
    hide MemHeap.Heap.Valid, MemHeap.Heap.Allocations, MemHeap.Heap.CanServe;
    held := map[];
    for i := 0 to |ops|
      invariant h.Valid() && Holds(h.Allocations(), held)
    {
      match ops[i]
      case Alloc(size) =>
        assert Proper(ops[i]);
        var ok := Servable(h, size);
        if ok {
          var p := h.Alloc(size);
          if p != 0 {
            held := held[p := size];
          }
        }
      case Free(addr) =>
        if addr in held && addr != 0 {
          h.LivePointer(addr);
          var panicked := h.Free(addr, held[addr]);
          held := held - {addr};
        }
    }
    HeldApart(h, held);
  }

  lemma HeldApart(h: MemHeap.Heap, held: map<nat, nat>)
    requires h.Valid() && Holds(h.Allocations(), held)
    ensures Clear(held)
  {
    hide MemHeap.Heap.Valid, MemHeap.Heap.Allocations;
    forall p, q | p in held && q in held && p != q
      ensures p + held[p] <= q || q + held[q] <= p
    {
      h.NoOverlap(p, q);
    }
  }
}
