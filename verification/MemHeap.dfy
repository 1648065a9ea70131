/** kernel/mem.c: the kernel heap with its swap arena. */
module MemHeap {
  import opened Common
  import opened MemArena
  import opened MemList
  import opened MemState
  import opened MemMerge
  import opened MemWrap

  const SWAP_SIZE := 64 * 1024
  /** Marking the taken block after the link store is the same as marking it before. */
  lemma MarkLater(h: Headers, front: seq<nat>, x: nat, blk: nat)
    requires blk in h && (front != [] ==> front[|front| - 1] != blk)
    ensures blk in LinkNext(h, front, x)
    ensures LinkNext(h, front, x)[blk := h[blk].(guard := Active, next := 0)]
         == LinkNext(h[blk := h[blk].(guard := Active, next := 0)], front, x)
    ensures LinkNext(h, front, x)[blk] == h[blk]
  {
  }

  /** Node k of the list is a smallest one that holds `total` bytes. */
  ghost predicate BestFit(m: Arena, k: nat, total: nat) {
    && k < |m.free| && m.free[k] in m.hdr && m.hdr[m.free[k]].total >= total
    && forall j :: 0 <= j < |m.free| && m.free[j] in m.hdr && m.hdr[m.free[j]].total >= total ==>
         m.hdr[m.free[k]].total <= m.hdr[m.free[j]].total
  }

  /** Node k is handed out. If a header and eight bytes would be left over it is cut to `total` bytes, and the
      rest takes its place on the list; otherwise it is handed out as it is. All other free blocks stay. */
  ghost predicate Cut(m: Arena, m': Arena, k: nat, total: nat) {
    && k < |m.free| && m.free[k] in m.hdr && m.free[k] in m'.hdr
    && var x, had, sizes := m.free[k], m.hdr[m.free[k]].total, SizesOf(m.hdr, m.free);
       if had >= total + HDR + 8 then
         && m'.hdr[x].user == total - HDR && IsFree(m'.hdr, x + total) && m'.hdr[x + total].total == had - total
         && m'.free == m.free[k := x + total] && SizesOf(m'.hdr, m'.free) == sizes[k := had - total]
       else
         && m'.hdr[x].user == had - HDR
         && m'.free == m.free[..k] + m.free[k + 1..] && SizesOf(m'.hdr, m'.free) == sizes[..k] + sizes[k + 1..]
  }

  /** Block x was a best fit and has been handed out. */
  ghost predicate BestCut(m: Arena, m': Arena, total: nat, x: nat) {
    exists k: nat :: BestFit(m, k, total) && m.free[k] == x && Cut(m, m', k, total)
  }

  class Heap {
    const heapStart: nat
    const heapMaxEnd: nat
    const swapBase: nat
    var hdr: Headers
    var freeList: nat
    var heapPtr: nat
    var committed: nat
    var swapPtr: nat
    var used: nat
    var growCount: nat
    var failCount: nat
    ghost var free: seq<nat>
    ghost var heapTiles: seq<nat>
    ghost var swapTiles: seq<nat>

    ghost function State(): Arena
      reads this
    {
      Arena(hdr, freeList, free, Region(heapStart, heapPtr, heapTiles, false),
        Region(swapBase, swapPtr, swapTiles, true))
    }

    /** Where the regions end. */
    function Ends(): Cursors
      reads this
    {
      Cursors(heapPtr, committed, heapMaxEnd, swapPtr, swapBase + SWAP_SIZE)
    }

    /** The sizes on the free list. */
    ghost function FreeSizes(): seq<nat>
      reads this
    {
      SizesOf(hdr, free)
    }

    ghost function Shape(): Room
      reads this
    {
      Room(Ends(), FreeSizes())
    }

    ghost predicate Bounds()
      reads this
    {
      && Ends().Ok()
      && (heapMaxEnd <= swapBase || swapBase + SWAP_SIZE <= heapStart)
    }

    ghost predicate Valid()
      reads this
    {
      Bounds() && Consistent(State()) && used == Sum(LiveUser, hdr, State().All())
    }

    /** Payload pointer and usable size of every live allocation. */
    ghost function Allocations(): map<nat, nat>
      reads this
    {
      Live(State())
    }

    constructor Init(start: nat, size: nat, maxSize: nat, swap: nat)
      requires PAGE <= start && PAGE <= swap && swap + SWAP_SIZE + PAGE < SIZE_MAX
      requires var end := start + (if size < maxSize then maxSize else size);
        end + PAGE < SIZE_MAX && (end <= swap || swap + SWAP_SIZE <= start)
      ensures Valid() && Allocations() == map[] && used == 0
      ensures heapStart == start && committed == start + size
    {
      heapStart, heapPtr, committed := start, start, start + size;
      heapMaxEnd := if size < maxSize then start + maxSize else start + size;
      swapBase, swapPtr := swap, swap;
      hdr, freeList, used, growCount, failCount := map[], 0, 0, 0, 0;
      free, heapTiles, swapTiles := [], [], [];
    }

    /** A live pointer points behind a block header. */
    lemma LivePointer(p: nat)
      requires Valid() && p in Allocations()
      ensures p >= HDR && p - HDR in State().All()
    {
      LiveIs(State(), p);
    }

    /** In every valid heap a request is served as it should be if and only if it can be. */
    lemma ServedIff(size: nat)
      requires Valid() && size < SIZE_MAX
      ensures Delivers(Ends(), FreeSizes(), size) <==> CanServe(size)
    {
      hide Consistent;
      SizesBelow(State());
      DeliversIffSafe(Ends(), FreeSizes(), size);
    }

    /** Two live allocations never overlap. */
    lemma NoOverlap(p: nat, q: nat)
      requires Valid() && p in Allocations() && q in Allocations() && p != q
      ensures p + Allocations()[p] <= q || q + Allocations()[q] <= p
    {
      LiveApart(State(), p, q);
    }

    /** A store through the link the list walk has reached: the head, or the next field of `prev`. */
    method StoreLink(prev: nat, x: nat, ghost front: seq<nat>)
      requires if front == [] then prev == 0 else prev == front[|front| - 1] && prev != 0 && prev in hdr
      modifies this`hdr, this`freeList
      ensures hdr == LinkNext(old(hdr), front, x) && freeList == LinkHead(old(freeList), front, x)
    {
      if prev == 0 {
        freeList := x;
      } else {
        hdr := hdr[prev := hdr[prev].(next := x)];
      }
    }

    /** split_block: take node k off the list, returning the tail of a large enough block to it. */
    method SplitBlock(blk: nat, total: nat, prev: nat, ghost k: nat)
      requires Consistent(State()) && k < |free| && free[k] == blk
      requires prev == PrevAt(State(), k)
      requires blk in hdr && HDR <= total <= hdr[blk].total
      modifies this`hdr, this`freeList, this`free, this`heapTiles, this`swapTiles
      ensures blk in hdr && hdr[blk].total >= total
      ensures Took(old(State()), State(), blk, hdr[blk].user) && hdr[blk].user == hdr[blk].total - HDR
      ensures Cut(old(State()), State(), k, total)
    {
      hide Consistent, Took, Live, Sum, LinkNext, LinkHead, Cut;
      ghost var m := State();
      ghost var front := free[..k];
      PrevFacts(m, k);
      var available := hdr[blk].total;
      if available >= total + HDR + 8 {
        var rem := blk + total;
        hdr := hdr[rem := Header(available - total, available - total - HDR, Freed, hdr[blk].next, hdr[blk].fromSwap)];
        hdr := hdr[blk := Header(total, total - HDR, hdr[blk].guard, 0, hdr[blk].fromSwap)];
        assert hdr[blk := hdr[blk].(guard := Active, next := 0)] == SplitHeaders(m, blk, total);
        MarkLater(hdr, front, rem, blk);
        StoreLink(prev, rem, front);
        hdr := hdr[blk := hdr[blk].(guard := Active, next := 0)];
        heapTiles, swapTiles := SplitEither(m, k, total);
        free := front + [rem] + free[k + 1..];
        CutSplit(m, State(), k, total);
      } else {
        MarkLater(hdr, front, hdr[blk].next, blk);
        StoreLink(prev, hdr[blk].next, front);
        hdr := hdr[blk := hdr[blk].(guard := Active, next := 0)];
        TookWhole(m, k);
        free := front + free[k + 1..];
        CutWhole(m, State(), k, total);
      }
    }

    /** acquire_from_free_list: the smallest block that fits, if any. */
    method Acquire(total: nat) returns (blk: nat)
      requires Consistent(State()) && (HDR <= total || free == [])
      modifies this`hdr, this`freeList, this`free, this`heapTiles, this`swapTiles
      ensures blk == 0 <==> !Has(old(FreeSizes()), total)
      ensures blk == 0 ==> State() == old(State())
      ensures blk != 0 ==> BestCut(old(State()), State(), total, blk)
      ensures blk != 0 ==> blk in hdr && total - HDR <= hdr[blk].user && Took(old(State()), State(), blk, hdr[blk].user)
    {
      hide Consistent, Took, Live, Sum, Seg, NoDup, Cut;
      ghost var m := State();
      ListFacts(m);
      var prev := 0;
      blk := freeList;
      var bestPrev, best := 0, 0;
      ghost var i, bi: nat := 0, 0;
      while blk != 0
        invariant hdr == m.hdr && free == m.free && State() == m
        invariant i <= |m.free| && blk == ListAt(m, i) && prev == PrevAt(m, i)
        invariant best == 0 ==> forall j :: 0 <= j < i ==> m.hdr[m.free[j]].total < total
        invariant best != 0 ==> bi < i && best == m.free[bi] && bestPrev == PrevAt(m, bi) && m.hdr[best].total >= total
        invariant best != 0 ==>
                    forall j :: 0 <= j < i && m.hdr[m.free[j]].total >= total ==>
                      m.hdr[best].total <= m.hdr[m.free[j]].total
        decreases |m.free| - i
      {
        if hdr[blk].total >= total {
          if best == 0 || hdr[blk].total < hdr[best].total {
            best, bestPrev, bi := blk, prev, i;
            if hdr[blk].total == total {
              break;
            }
          }
        }
        ListNext(m, i);
        prev := blk;
        blk := hdr[blk].next;
        i := i + 1;
      }
      HasIs(m, total);
      if best == 0 {
        return 0;
      }
      assert BestFit(m, bi, total);
      SplitBlock(best, total, bestPrev, bi);
      blk := best;
    }

    /** fresh_block: carve a block off the unused end of the heap or of the swap arena. */
    method FreshBlock(swap: bool, limit: nat, total: nat) returns (blk: nat)
      requires Bounds() && Consistent(State())
      requires limit == if swap then swapBase + SWAP_SIZE else committed
      requires (if swap then swapPtr else heapPtr) + total < SIZE_MAX
      requires HDR <= total || (if swap then swapPtr else heapPtr) + total > limit
      modifies this`hdr, this`heapPtr, this`swapPtr, this`heapTiles, this`swapTiles
      ensures Bounds()
      ensures blk == 0 <==> (if swap then old(swapPtr) else old(heapPtr)) + total > limit
      ensures blk == 0 ==> State() == old(State())
      ensures blk != 0 ==> blk in hdr && hdr[blk].user == total - HDR && Took(old(State()), State(), blk, hdr[blk].user)
      ensures blk != 0 ==> blk == if swap then old(swapPtr) else old(heapPtr)
      ensures Ends() == if blk == 0 then old(Ends())
                        else if swap then old(Ends()).(swapPtr := Wrap(blk + total))
                             else old(Ends()).(heapPtr := Wrap(blk + total))
    {
      hide Consistent, Took, Live, Sum, Seg, NoDup;
      ghost var m := State();
      RegionFacts(m);
      blk := if swap then swapPtr else heapPtr;
      if Wrap(blk + total) > limit {
        return 0;
      }
      hdr := hdr[blk := Header(total, total - HDR, Active, 0, swap)];
      if swap {
        ConsistentFlip(m);
        TookFresh(m.Flip(), total);
        swapPtr := Wrap(blk + total);
        swapTiles := swapTiles + [blk];
        assert State().Flip() == Fresh(m.Flip(), total);
        TookFlip(m, State(), blk, total - HDR);
      } else {
        TookFresh(m, total);
        heapPtr := Wrap(blk + total);
        heapTiles := heapTiles + [blk];
      }
    }

    /** No free block fits, the heap cannot grow enough, and the swap arena is too full. */
    ghost predicate NoRoom(total: nat)
      reads this
    {
      !Has(FreeSizes(), total) && Full(Ends(), total)
    }

    /** The growth of the committed heap by whole pages, if the heap has them. */
    method Grow(total: nat)
      requires Bounds() && Tame(Ends(), total)
      modifies this`committed, this`growCount
      ensures Bounds() && Ends() == Grown(old(Ends()), total)
    {
      if Wrap(heapPtr + total) > committed {
        var need := Wrap(heapPtr + total) - committed;
        var grow := Wrap(RoundUpPage(need));
        if Wrap(committed + grow) <= heapMaxEnd {
          committed := Wrap(committed + grow);
          growCount := growCount + 1;
        }
      }
    }

    /** Free list first, then the heap, grown if that helps, then the swap arena; all sums in 64 bits. */
    method Obtain(total: nat) returns (blk: nat)
      requires Bounds() && Consistent(State()) && total < SIZE_MAX
      requires Has(FreeSizes(), total) || Tame(Ends(), total)
      requires HDR <= total || NoRoom(total)
      modifies this`hdr, this`freeList, this`free, this`heapTiles, this`swapTiles
      modifies this`heapPtr, this`swapPtr, this`committed, this`growCount
      ensures Bounds()
      ensures blk == 0 ==> State() == old(State())
      ensures blk != 0 ==> blk in hdr && total - HDR <= hdr[blk].user && Took(old(State()), State(), blk, hdr[blk].user)
      ensures blk == 0 <==> old(NoRoom(total))
      ensures if Has(old(FreeSizes()), total) then Ends() == old(Ends())
              else Carving(blk, Ends()) == Carved(old(Ends()), total)
      ensures blk != 0 && Has(old(FreeSizes()), total) ==> BestCut(old(State()), State(), total, blk)
      ensures blk != 0 && !Has(old(FreeSizes()), total) ==> hdr[blk].user == total - HDR && free == old(free)
    {
      hide Consistent, Took, BestCut, Has, Tame, Full, Carved, Grown, Wrap, SizesOf;
      if total < HDR {
        ShortMeansEmpty(State(), total);
      }
      blk := Acquire(total);
      if blk != 0 {
        return;
      }
      CarvedCases(Ends(), total);
      Grow(total);
      blk := FreshBlock(false, committed, total);
      if blk == 0 {
        blk := FreshBlock(true, swapBase + SWAP_SIZE, total);
      }
    }

    /** The request is served as it should be; `DeliversIffSafe` says that it is not otherwise. */
    ghost predicate CanServe(size: nat)
      reads this
    {
      size < SIZE_MAX && Safe(Ends(), FreeSizes(), size)
    }

    method Alloc(size: nat) returns (p: nat)
      requires Valid() && CanServe(size)
      modifies this
      ensures Valid()
      ensures p == 0 <==> old(NoRoom(Needed(size)))
      ensures p == 0 ==> Allocations() == old(Allocations()) && used == old(used) && failCount == old(failCount) + 1
      ensures p != 0 ==> p !in old(Allocations()) && p in Allocations() && Allocations()[p] >= size
      ensures p != 0 ==> Allocations() == old(Allocations())[p := Allocations()[p]]
      ensures p != 0 ==> used == old(used) + Allocations()[p] && failCount == old(failCount)
      ensures old(Has(FreeSizes(), Asked(size))) ==> Ends() == old(Ends())
      ensures old(!Has(FreeSizes(), Asked(size))) ==> Ends() == Carved(old(Ends()), Asked(size)).after
      ensures p != 0 ==> Ends() == old(Shape()).Granted(Needed(size))
      ensures p != 0 && old(Has(FreeSizes(), Needed(size))) ==>
                p >= HDR && BestCut(old(State()), State(), Needed(size), p - HDR)
      ensures p != 0 && old(!Has(FreeSizes(), Needed(size))) ==> Allocations()[p] == RoundUp8(size)
      ensures p != 0 ==> RoundUp8(size) <= Allocations()[p] < RoundUp8(size) + HDR + 8
    {
      hide Consistent, Live, Sum, Has, Tame, Carved, Full, BestCut, RoundUp8;
      AskedIs(size);
      SizesBelow(State());
      if Needed(size) >= SIZE_MAX {
        WrappedHasNoRoom(Ends(), FreeSizes(), size);
      }
      var rounded := Wrap(size + 7) / 8 * 8;
      var total := Wrap(Wrap(HDR + rounded) + 7) / 8 * 8;
      var blk := Obtain(total);
      if blk == 0 {
        failCount := failCount + 1;
        return 0;
      }
      if old(Has(FreeSizes(), Needed(size))) {
        CutSize(old(State()), State(), total, blk);
      }
      used := used + hdr[blk].user;
      return blk + HDR;
    }

    /** The arena with the heap first, or with the swap region first. */
    ghost function Facing(swap: bool): Arena
      reads this
    {
      if swap then State().Flip() else State()
    }

    /** One merge step: block k + 1 of the region is absorbed by block k. */
    method Absorb(l: nat, r: nat, ghost sw: bool, ghost blk: nat, ghost k: nat)
      requires Merging(Facing(sw), blk) && (l == blk || r == blk) && IsFree(hdr, l) && IsFree(hdr, r)
      requires k + 1 < |Facing(sw).a.tiles| && Facing(sw).a.tiles[k] == l && Facing(sw).a.tiles[k + 1] == r
      requires l != r && hdr[l].total >= HDR
      modifies this`hdr, this`heapTiles, this`swapTiles
      ensures Merging(Facing(sw), l) && Facing(sw).free == old(Facing(sw).free)
      ensures Live(Facing(sw)) == old(Live(Facing(sw)))
      ensures Sum(LiveUser, hdr, Facing(sw).All()) == old(Sum(LiveUser, hdr, Facing(sw).All()))
      ensures |Facing(sw).a.tiles| < old(|Facing(sw).a.tiles|)
    {
      hide Merging, Live, Sum, Merged;
      ghost var m := Facing(sw);
      MergedMerging(m, blk, k);
      hdr := hdr[l := hdr[l].(total := hdr[l].total + hdr[r].total)];
      hdr := hdr[l := hdr[l].(user := hdr[l].total - HDR)];
      hdr := hdr[r := hdr[r].(total := 0)];
      MergeStores(m, k, hdr);
      Retile(sw, Merged(m, k).a.tiles);
      assert Facing(sw) == Merged(m, k);
    }

    /** coalesce_block: merge `blk0` with the free blocks it touches, restarting after every merge. */
    method Coalesce(blk0: nat) returns (ghost blk: nat)
      requires blk0 in hdr && Merging(Facing(hdr[blk0].fromSwap), blk0)
      modifies this`hdr, this`heapTiles, this`swapTiles
      ensures var m := Facing(old(hdr)[blk0].fromSwap);
        && Merging(m, blk) && Quiet(m.hdr, m.a.tiles)
        && Live(m) == old(Live(Facing(hdr[blk0].fromSwap)))
        && Sum(LiveUser, m.hdr, m.All()) == old(Sum(LiveUser, hdr, Facing(hdr[blk0].fromSwap).All()))
    {
      hide Merging, Live, Sum, Quiet;
      ghost var sw := hdr[blk0].fromSwap;
      ghost var m := Facing(sw);
      var cur: nat, it: nat := blk0, freeList;
      ghost var i := 0;
      MergingList(m, cur);
      while it != 0
        invariant m == Facing(sw) && m.free == old(free)
        invariant Merging(m, cur) && Live(m) == old(Live(Facing(hdr[blk0].fromSwap)))
        invariant Sum(LiveUser, m.hdr, m.All()) == old(Sum(LiveUser, hdr, Facing(hdr[blk0].fromSwap).All()))
        invariant i <= |m.free| && it == ListAt(m, i)
        invariant forall j :: 0 <= j < i ==> Clear(m.hdr, cur, m.free[j])
        decreases |m.a.tiles|, |m.free| - i
      {
        MergingList(m, cur);
        MergingNext(m, cur, i);
        if it != cur && hdr[it].fromSwap == hdr[cur].fromSwap {
          if it + hdr[it].total == cur {
            ghost var k := TouchLeft(m, cur, it);
            Absorb(it, cur, sw, cur, k);
            cur := it;
            m, it, i := Facing(sw), freeList, 0;
            MergingList(m, cur);
            continue;
          }
          if cur + hdr[cur].total == it {
            ghost var k := TouchRight(m, cur, it);
            Absorb(cur, it, sw, cur, k);
            m, it, i := Facing(sw), freeList, 0;
            MergingList(m, cur);
            continue;
          }
        }
        it := hdr[it].next;
        i := i + 1;
      }
      blk := cur;
      AllClear(m, cur);
    }

    /** compact_free_list: unlink the nodes of size zero. */
    method Compact(ghost sw: bool, ghost blk: nat)
      requires Merging(Facing(sw), blk) && Quiet(hdr, Facing(sw).a.tiles)
      modifies this`hdr, this`freeList, this`free
      ensures Consistent(State())
      ensures Live(State()) == old(Live(Facing(sw)))
      ensures Sum(LiveUser, hdr, State().All()) == old(Sum(LiveUser, hdr, Facing(sw).All()))
    {
      hide Merging, Live, Sum, Quiet, Seg, Nonempty, LinkNext, LinkHead, Consistent, NoDup;
      ghost var m := Facing(sw);
      MergingList(m, blk);
      MergingSeg(m, blk);
      var prev, cur: nat := 0, freeList;
      ghost var i, kept := 0, [];
      CompactStart(m);
      while cur != 0
        invariant i <= |m.free| && cur == ListAt(m, i)
        invariant kept == Nonempty(m.hdr, m.free[..i]) && prev == (if kept == [] then 0 else kept[|kept| - 1])
        invariant Compacting(m, hdr, freeList, kept, i)
        decreases |m.free| - i
      {
        CompactFacts(m, hdr, freeList, kept, i);
        if hdr[cur].total == 0 {
          CompactDrop(m, hdr, freeList, kept, i);
          var next := hdr[cur].next;
          StoreLink(prev, next, kept);
          cur := next;
        } else {
          CompactKeep(m, hdr, freeList, kept, i);
          prev := cur;
          cur := hdr[cur].next;
          kept := kept + [prev];
        }
        i := i + 1;
      }
      CompactEnd(m, blk, hdr, freeList, kept, i);
      free := kept;
      if sw {
        FlipBack(State());
      }
    }

    /** No header fits in front of the address, or it would lie outside heap and swap. */
    predicate Outside(addr: nat)
      reads this
    {
      addr < HDR || (!(heapStart <= addr - HDR < heapMaxEnd) && !(swapBase <= addr - HDR < swapBase + SWAP_SIZE))
    }

    /** mem_free: `addr` is 0, lies outside the managed regions, or points behind a block header. The
        return value says whether the kernel panicked, which changes nothing. */
    method Free(addr: nat, size: nat) returns (panicked: bool)
      requires Valid() && (addr == 0 || Outside(addr) || addr - HDR in State().All())
      modifies this
      ensures Valid()
      ensures panicked <==> addr != 0 && (addr !in old(Allocations()) || size > old(Allocations())[addr])
      ensures panicked || addr == 0 ==> Allocations() == old(Allocations()) && used == old(used)
      ensures !panicked && addr != 0 ==>
                Allocations() == old(Allocations()) - {addr} && used == old(used) - old(Allocations())[addr]
      ensures Ends() == old(Ends()) && failCount == old(failCount)
    {
      hide Consistent, Merging, Live, Sum, Quiet, Seg, NoDup;
      if addr == 0 {
        return false;
      }
      ghost var m := State();
      LiveIs(m, addr);
      if Outside(addr) {
        if addr in Allocations() {
          FreeFacts(m, addr - HDR);
        }
        return true;
      }
      var blk := addr - HDR;
      FreeFacts(m, blk);
      if hdr[blk].guard != Active {
        return true;
      }
      if size > 0 && size > hdr[blk].user {
        return true;
      }
      if used >= hdr[blk].user {
        used := used - hdr[blk].user;
      }
      Release(blk);
      return false;
    }

    /** The list half of mem_free. */
    method Release(blk: nat)
      requires Consistent(State()) && LiveBlock(State(), blk) && blk in hdr
      modifies this`hdr, this`freeList, this`free, this`heapTiles, this`swapTiles
      ensures Consistent(State())
      ensures Live(State()) == old(Live(State())) - {blk + HDR}
      ensures Sum(LiveUser, hdr, State().All()) + old(hdr)[blk].user == old(Sum(LiveUser, hdr, State().All()))
    {
      hide Consistent, Merging, Live, Sum, Quiet, LiveBlock;
      ghost var m, sw := State(), hdr[blk].fromSwap;
      ReleaseEither(m, blk, sw);
      hdr := hdr[blk := hdr[blk].(guard := Freed, next := freeList)];
      freeList := blk;
      free := [blk] + free;
      assert Facing(sw) == Face(Released(m, blk), sw);
      ghost var merged := Coalesce(blk);
      Compact(sw, merged);
    }

    /** Whether some free block holds `total` bytes. */
    method Fits(total: nat) returns (b: bool)
      requires Valid()
      ensures b <==> Has(FreeSizes(), total)
    {
      hide Consistent, Sum, Has;
      ghost var m := State();
      ListFacts(m);
      HasIs(m, total);
      var blk := freeList;
      ghost var i := 0;
      while blk != 0
        invariant i <= |free| && blk == ListAt(m, i)
        invariant forall j :: 0 <= j < i ==> hdr[free[j]].total < total
        decreases |free| - i
      {
        if hdr[blk].total >= total {
          return true;
        }
        ListNext(m, i);
        blk := hdr[blk].next;
        i := i + 1;
      }
      return false;
    }

    /** The regions lie in the lower quarter of the address space. */
    predicate Low()
      reads this
    {
      heapMaxEnd <= SIZE_MAX / 4 && swapBase + SWAP_SIZE <= SIZE_MAX / 4
    }

    lemma LowServes(size: nat)
      requires Valid() && Low() && size <= SIZE_MAX / 4
      ensures CanServe(size)
    {
      hide Consistent;
      ModestIsSafe(Ends(), FreeSizes(), size);
    }

    /** mem_heap_free: the free bytes and the live blocks add up to the committed heap and the swap arena. */
    method HeapFree() returns (bytes: nat)
      requires Valid()
      ensures bytes + Sum(LiveTotal, hdr, State().All()) == (committed - heapStart) + SWAP_SIZE
    {
      hide Consistent, Sum, Live;
      ghost var m := State();
      RegionFacts(m);
      ListFacts(m);
      Conservation(m);
      bytes := committed - heapPtr;
      bytes := bytes + (SWAP_SIZE - (swapPtr - swapBase));
      ghost var start := bytes;
      var blk := freeList;
      ghost var i := 0;
      SumNone(hdr, free);
      while blk != 0
        invariant i <= |free| && blk == ListAt(m, i)
        invariant bytes == start + Sum(AnyTotal, hdr, free[..i])
        decreases |free| - i
      {
        ListNext(m, i);
        SumNext(hdr, free, i);
        bytes := bytes + hdr[blk].total;
        blk := hdr[blk].next;
        i := i + 1;
      }
      assert free[..i] == free;
    }

    ghost method Retile(swap: bool, tiles: seq<nat>)
      modifies this`heapTiles, this`swapTiles
      ensures Facing(swap) == old(Facing(swap)).(a := old(Facing(swap)).a.(tiles := tiles))
    {
      if swap {
        swapTiles := tiles;
      } else {
        heapTiles := tiles;
      }
    }
  }

  /** `it` does not touch `blk`, or is of the other region. */
  ghost predicate Clear(hdr: Headers, blk: nat, it: nat) {
    it in hdr && blk in hdr && it != blk && hdr[it].fromSwap == hdr[blk].fromSwap ==>
      End(hdr, it) != blk && End(hdr, blk) != it
  }

  lemma MergingList(m: Arena, blk: nat)
    requires Merging(m, blk)
    ensures blk in m.hdr && blk in m.a.tiles && blk in m.free && IsFree(m.hdr, blk) && m.hdr[blk].total >= HDR
    ensures forall j :: 0 <= j < |m.free| ==> m.free[j] in m.hdr && m.free[j] != 0
    ensures m.head == ListAt(m, 0)
  {
    Members(m);
    BlockFacts(m, blk);
    SegIn(m.hdr, m.head, m.free, 0);
    forall j | 0 <= j < |m.free|
      ensures m.free[j] in m.hdr && m.free[j] != 0
    {
      assert m.free[j] in m.free;
    }
  }

  lemma MergingSeg(m: Arena, blk: nat)
    requires Merging(m, blk)
    ensures Seg(m.hdr, m.head, m.free, 0) && NoDup(m.free)
  {
  }

  lemma CompactEnd(m: Arena, blk: nat, hdr: Headers, head: nat, kept: seq<nat>, i: nat)
    requires Merging(m, blk) && Quiet(m.hdr, m.a.tiles) && Compacting(m, hdr, head, kept, i) && i == |m.free|
    ensures var m' := m.(hdr := hdr, head := head, free := kept);
      && Consistent(m') && Live(m') == Live(m)
      && Sum(LiveUser, m'.hdr, m'.All()) == Sum(LiveUser, m.hdr, m.All())
  {
    hide Merging, Consistent, Live, Sum, Quiet, Nonempty;
    assert m.free[..i] == m.free;
    Compacted(m, blk, hdr, head);
  }

  lemma FlipBack(m: Arena)
    requires Consistent(m.Flip())
    ensures Consistent(m) && Live(m) == Live(m.Flip())
    ensures Sum(LiveUser, m.hdr, m.All()) == Sum(LiveUser, m.hdr, m.Flip().All())
  {
    hide Consistent, Live, Sum;
    ConsistentFlip(m.Flip());
    assert m.Flip().Flip() == m;
    LiveFlip(m);
    SumConcat(LiveUser, m.hdr, m.a.tiles, m.b.tiles);
    SumConcat(LiveUser, m.hdr, m.b.tiles, m.a.tiles);
  }

  /** Every block lies inside its region, so the range test of mem_free lets it pass. */
  lemma FreeFacts(m: Arena, x: nat)
    requires Consistent(m) && x in m.All()
    ensures x in m.hdr && (m.a.lo <= x < m.a.hi || m.b.lo <= x < m.b.hi)
    ensures m.hdr[x].guard == Active <==> LiveBlock(m, x)
    ensures WeightAt(LiveUser, m.hdr, x) <= Sum(LiveUser, m.hdr, m.All())
  {
    BlockFacts(m, x);
    var s := m.All();
    var i :| 0 <= i < |s| && s[i] == x;
    assert s == s[..i] + [x] + s[i + 1..];
    SumRemove(LiveUser, m.hdr, s[..i], x, s[i + 1..]);
  }

  ghost function Face(m: Arena, swap: bool): Arena {
    if swap then m.Flip() else m
  }

  lemma ReleaseEither(m: Arena, x: nat, swap: bool)
    requires Consistent(m) && LiveBlock(m, x) && x in m.hdr && m.hdr[x].fromSwap == swap && !m.a.swap
    ensures var m' := Face(Released(m, x), swap);
      && Merging(m', x)
      && Live(m') == Live(m) - {x + HDR}
      && Sum(LiveUser, m'.hdr, m'.All()) + m.hdr[x].user == Sum(LiveUser, m.hdr, m.All())
  {
    hide Merging, Live, Sum, Seg, Quiet, NoDup;
    BlockFacts(m, x);
    if swap {
      ConsistentFlip(m);
      LiveFlip(m);
      assert LiveBlock(m.Flip(), x);
      ReleasedMerging(m.Flip(), x);
      assert Released(m.Flip(), x) == Released(m, x).Flip();
      SumConcat(LiveUser, m.hdr, m.a.tiles, m.b.tiles);
      SumConcat(LiveUser, m.hdr, m.b.tiles, m.a.tiles);
    } else {
      ReleasedMerging(m, x);
    }
  }

  lemma SumNone(hdr: Headers, s: seq<nat>)
    ensures Sum(AnyTotal, hdr, s[..0]) == 0
  {
  }

  lemma SumNext(hdr: Headers, s: seq<nat>, i: nat)
    requires i < |s| && s[i] in hdr
    ensures Sum(AnyTotal, hdr, s[..i + 1]) == Sum(AnyTotal, hdr, s[..i]) + hdr[s[i]].total
  {
    assert s[..i + 1] == s[..i] + [s[i]];
    SumConcat(AnyTotal, hdr, s[..i], [s[i]]);
    SumOne(AnyTotal, hdr, s[i]);
  }

  lemma MergingNext(m: Arena, blk: nat, i: nat)
    requires Merging(m, blk) && i < |m.free|
    ensures m.free[i] in m.free && m.free[i] in m.hdr && m.hdr[m.free[i]].next == ListAt(m, i + 1)
  {
    SegStep(m.hdr, m.head, m.free, i);
  }

  /** The stores of one merge step produce the merged headers. */
  lemma MergeStores(m: Arena, i: nat, h: Headers)
    requires i + 1 < |m.a.tiles| && m.a.tiles[i] in m.hdr && m.a.tiles[i + 1] in m.hdr &&
             m.a.tiles[i] != m.a.tiles[i + 1]
    requires m.hdr[m.a.tiles[i]].total + m.hdr[m.a.tiles[i + 1]].total >= HDR
    requires var l, r := m.a.tiles[i], m.a.tiles[i + 1];
      h == m.hdr[l := m.hdr[l].(total := m.hdr[l].total + m.hdr[r].total,
        user := m.hdr[l].total + m.hdr[r].total - HDR)]
                [r := m.hdr[r].(total := 0)]
    ensures Merged(m, i) == m.(hdr := h, a := m.a.(tiles := Merged(m, i).a.tiles))
    ensures |Merged(m, i).a.tiles| == |m.a.tiles| - 1
  {
  }

  lemma AllClear(m: Arena, blk: nat)
    requires Merging(m, blk) && forall j :: 0 <= j < |m.free| ==> Clear(m.hdr, blk, m.free[j])
    ensures Quiet(m.hdr, m.a.tiles)
  {
    Members(m);
    forall x | x in m.free && x != blk && x in m.a.tiles
      ensures End(m.hdr, x) != blk && End(m.hdr, blk) != x
    {
      BlockFacts(m, x);
      BlockFacts(m, blk);
      var j :| 0 <= j < |m.free| && m.free[j] == x;
      assert Clear(m.hdr, blk, m.free[j]);
    }
    MergeDone(m, blk);
  }

  function ListAt(m: Arena, i: nat): nat {
    if i < |m.free| then m.free[i] else 0
  }

  function PrevAt(m: Arena, i: nat): nat {
    if 0 < i <= |m.free| then m.free[i - 1] else 0
  }

  lemma ListFacts(m: Arena)
    requires Consistent(m)
    ensures forall j :: 0 <= j < |m.free| ==> m.free[j] in m.hdr && m.free[j] != 0
    ensures m.head == ListAt(m, 0)
  {
    SegIn(m.hdr, m.head, m.free, 0);
    forall j | 0 <= j < |m.free|
      ensures m.free[j] in m.hdr && m.free[j] != 0
    {
      assert m.free[j] in m.free;
    }
  }

  lemma ListNext(m: Arena, i: nat)
    requires Consistent(m) && i < |m.free|
    ensures m.free[i] in m.hdr && m.hdr[m.free[i]].next == ListAt(m, i + 1)
  {
    SegStep(m.hdr, m.head, m.free, i);
  }

  function SizesOf(hdr: Headers, free: seq<nat>): (r: seq<nat>)
    ensures |r| == |free|
  {
    seq(|free|, i requires 0 <= i < |free| => if free[i] in hdr then hdr[free[i]].total else 0)
  }

  /** Every free block has at least a header, so only an empty list has none for less. */
  lemma ShortMeansEmpty(m: Arena, total: nat)
    requires Consistent(m) && total < HDR && !Has(SizesOf(m.hdr, m.free), total)
    ensures m.free == []
  {
    hide Has;
    HasIs(m, total);
    if m.free != [] {
      var x := m.free[0];
      assert x in m.free;
      BlockFacts(m, x);
    }
  }

  lemma SizesBelow(m: Arena)
    requires Consistent(m) && m.a.hi < SIZE_MAX && m.b.hi < SIZE_MAX
    ensures forall i :: 0 <= i < |m.free| ==> SizesOf(m.hdr, m.free)[i] < SIZE_MAX
  {
    forall i | 0 <= i < |m.free|
      ensures SizesOf(m.hdr, m.free)[i] < SIZE_MAX
    {
      assert m.free[i] in m.free;
      BlockFacts(m, m.free[i]);
    }
  }

  lemma HasIs(m: Arena, total: nat)
    requires Consistent(m)
    ensures Has(SizesOf(m.hdr, m.free), total) <==>
              exists j :: 0 <= j < |m.free| && m.free[j] in m.hdr && m.hdr[m.free[j]].total >= total
  {
    ListFacts(m);
    var sizes := SizesOf(m.hdr, m.free);
    if Has(sizes, total) {
      var i :| 0 <= i < |sizes| && sizes[i] >= total;
      assert m.free[i] in m.hdr;
    }
    if j :| 0 <= j < |m.free| && m.free[j] in m.hdr && m.hdr[m.free[j]].total >= total {
      assert sizes[j] >= total;
    }
  }

  lemma RegionFacts(m: Arena)
    requires Consistent(m)
    ensures 0 < m.a.lo <= m.a.hi && 0 < m.b.lo <= m.b.hi
  {
    TilesBounds(m.hdr, m.a.tiles, m.a.lo, m.a.hi, m.a.swap);
    TilesBounds(m.hdr, m.b.tiles, m.b.lo, m.b.hi, m.b.swap);
  }

  lemma CutSplit(m: Arena, m': Arena, k: nat, n: nat)
    requires Consistent(m) && k < |m.free| && m.free[k] in m.hdr
    requires HDR <= n && n + HDR + 8 <= m.hdr[m.free[k]].total
    requires m'.hdr == LinkNext(SplitHeaders(m, m.free[k], n), m.free[..k], m.free[k] + n)
    requires m'.free == m.free[..k] + [m.free[k] + n] + m.free[k + 1..]
    ensures Cut(m, m', k, n)
  {
    var x, h := m.free[k], SplitHeaders(m, m.free[k], n);
    assert x in m.free;
    Inside(m, x, n);
    LinkKeeps(h, m.free[..k], x + n, x);
    LinkKeeps(h, m.free[..k], x + n, x + n);
    assert m'.free == m.free[k := x + n];
    forall j | 0 <= j < |m.free| && j != k
      ensures m.free[j] in m.hdr && m.free[j] in m'.hdr && m'.hdr[m.free[j]].total == m.hdr[m.free[j]].total
    {
      assert m.free[j] in m.free;
      BlockFacts(m, m.free[j]);
      LinkKeeps(h, m.free[..k], x + n, m.free[j]);
    }
  }

  lemma CutWhole(m: Arena, m': Arena, k: nat, n: nat)
    requires Consistent(m) && k < |m.free| && m.free[k] in m.hdr && m.hdr[m.free[k]].total < n + HDR + 8
    requires m'.hdr == TakeWhole(m, k).hdr && m'.free == m.free[..k] + m.free[k + 1..]
    ensures Cut(m, m', k, n)
  {
    var x := m.free[k];
    var h := m.hdr[x := m.hdr[x].(guard := Active, next := 0)];
    PrevFacts(m, k);
    LinkKeeps(h, m.free[..k], m.hdr[x].next, x);
    forall j | 0 <= j < |m.free| && j != k
      ensures m.free[j] in m.hdr && m.free[j] in m'.hdr && m'.hdr[m.free[j]].total == m.hdr[m.free[j]].total
    {
      assert m.free[j] in m.free;
      BlockFacts(m, m.free[j]);
      LinkKeeps(h, m.free[..k], m.hdr[x].next, m.free[j]);
    }
  }

  /** What a best fit leaves to the caller. */
  lemma CutSize(m: Arena, m': Arena, total: nat, x: nat)
    requires BestCut(m, m', total, x)
    ensures x in m'.hdr && total <= m'.hdr[x].user + HDR < total + HDR + 8
  {
  }

  /** Splitting works the same in either region. */
  lemma SplitEither(m: Arena, k: nat, n: nat) returns (a': seq<nat>, b': seq<nat>)
    requires Consistent(m) && k < |m.free| && m.free[k] in m.hdr && HDR <= n && n + HDR <= m.hdr[m.free[k]].total
    ensures var x, front := m.free[k], m.free[..k];
      Took(m, Arena(LinkNext(SplitHeaders(m, x, n), front, x + n), LinkHead(m.head, front, x + n),
                    front + [x + n] + m.free[k + 1..], m.a.(tiles := a'), m.b.(tiles := b')), x, n - HDR)
  {
    hide Consistent, Took, Live, Sum, LinkNext, LinkHead;
    var x := m.free[k];
    PrevFacts(m, k);
    if x in m.a.tiles {
      var i :| 0 <= i < |m.a.tiles| && m.a.tiles[i] == x;
      TookSplit(m, k, n, i);
      a', b' := TakeSplit(m, k, n, i).a.tiles, m.b.tiles;
    } else {
      var i :| 0 <= i < |m.b.tiles| && m.b.tiles[i] == x;
      ConsistentFlip(m);
      TookSplit(m.Flip(), k, n, i);
      a', b' := m.a.tiles, TakeSplit(m.Flip(), k, n, i).a.tiles;
      TookFlip(m, TakeSplit(m.Flip(), k, n, i).Flip(), x, n - HDR);
    }
  }

  lemma PrevFacts(m: Arena, k: nat)
    requires Consistent(m) && k < |m.free|
    ensures m.free[k] in m.hdr && m.free[k] != 0
    ensures k > 0 ==> m.free[k - 1] in m.hdr && m.free[k - 1] != 0 && m.free[k - 1] != m.free[k]
    ensures m.free[k] in m.a.tiles || m.free[k] in m.b.tiles
    ensures m.hdr[m.free[k]].user == m.hdr[m.free[k]].total - HDR
  {
    SegStep(m.hdr, m.head, m.free, k);
    if k > 0 {
      SegStep(m.hdr, m.head, m.free, k - 1);
    }
    assert m.free[k] in m.free;
    BlockFacts(m, m.free[k]);
  }
}
