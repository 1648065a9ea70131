/** mem_alloc's sums as the kernel computes them, in 64 bits, and when they mean what they should. */
module MemWrap {
  import opened MemArena

  const PAGE := 4096
  const SIZE_MAX := 0x1_0000_0000_0000_0000

  function RoundUp8(n: nat): (r: nat)
    ensures n <= r < n + 8 && r % 8 == 0
  {
    (n + 7) / 8 * 8
  }

  function RoundUpPage(n: nat): (r: nat)
    ensures n <= r < n + PAGE && r % PAGE == 0
  {
    (n + 4095) / 4096 * 4096
  }

  function Wrap(n: nat): (r: nat)
    ensures r < SIZE_MAX && (n < SIZE_MAX ==> r == n) && (SIZE_MAX <= n < 2 * SIZE_MAX ==> r == n - SIZE_MAX)
  {
    n % SIZE_MAX
  }

  /** The bytes a request needs, header included, without any bound. */
  function Needed(size: nat): nat { HDR + RoundUp8(size) }

  /** The same as mem_alloc computes it. */
  function Asked(size: nat): nat {
    var rounded := Wrap(size + 7) / 8 * 8;
    Wrap(Wrap(HDR + rounded) + 7) / 8 * 8
  }

  lemma AskedIs(size: nat)
    requires size < SIZE_MAX
    ensures Asked(size) == Wrap(Needed(size)) && Needed(size) < SIZE_MAX + HDR + 1
    ensures Needed(size) >= SIZE_MAX ==> Asked(size) == Needed(size) - SIZE_MAX <= HDR
  {
    var rounded := Wrap(size + 7) / 8 * 8;
    assert size + 7 < SIZE_MAX ==> rounded == RoundUp8(size);
    assert size + 7 >= SIZE_MAX ==> rounded == 0 && RoundUp8(size) == SIZE_MAX;
  }

  /** The ends of the used heap, the committed heap, the whole heap, the used swap and the whole swap. */
  datatype Cursors = Cursors(heapPtr: nat, committed: nat, heapMaxEnd: nat, swapPtr: nat, swapEnd: nat) {
    predicate Ordered() { heapPtr <= committed <= heapMaxEnd && swapPtr <= swapEnd }

    /** Nothing lies in the first or in the last page of the address space. */
    predicate Ok() {
      Ordered() && PAGE <= heapPtr && heapMaxEnd + PAGE < SIZE_MAX && PAGE <= swapPtr && swapEnd + PAGE < SIZE_MAX
    }
  }

  // ----- what the source does

  /** The growth of the committed heap. */
  function Grown(c: Cursors, total: nat): Cursors {
    if Wrap(c.heapPtr + total) > c.committed then
      var grow := Wrap(RoundUpPage(Wrap(c.heapPtr + total) - c.committed));
      if Wrap(c.committed + grow) <= c.heapMaxEnd then c.(committed := Wrap(c.committed + grow)) else c
    else c
  }

  datatype Carving = Carving(blk: nat, after: Cursors)

  /** A block off the end of the heap, else off the end of the swap arena, else none. */
  function Carved(c: Cursors, total: nat): Carving {
    var g := Grown(c, total);
    if Wrap(g.heapPtr + total) <= g.committed then Carving(g.heapPtr, g.(heapPtr := Wrap(g.heapPtr + total)))
    else if Wrap(g.swapPtr + total) <= g.swapEnd then Carving(g.swapPtr, g.(swapPtr := Wrap(g.swapPtr + total)))
    else Carving(0, g)
  }

  predicate Has(list: seq<nat>, total: nat) { exists i :: 0 <= i < |list| && list[i] >= total }

  // ----- what it should do

  /** The block is `total` new bytes at the end of a region that has them, and the ends stay in order. */
  predicate Sound(c: Cursors, total: nat, r: Carving) {
    && r.after.Ordered() && r.after.heapMaxEnd == c.heapMaxEnd && r.after.swapEnd == c.swapEnd
    && if r.blk == 0 then r.after.heapPtr == c.heapPtr && r.after.swapPtr == c.swapPtr
       else
         || (r.blk == c.heapPtr && r.after.heapPtr == c.heapPtr + total && r.after.swapPtr == c.swapPtr)
         || (r.blk == c.swapPtr && r.after.swapPtr == c.swapPtr + total && r.after.heapPtr == c.heapPtr)
  }

  /** The request gets a block that holds it, from the list of free sizes or from the ends, or none. */
  ghost predicate Delivers(c: Cursors, list: seq<nat>, size: nat) {
    if Has(list, Asked(size)) then forall i :: 0 <= i < |list| && list[i] >= Asked(size) ==> list[i] >= Needed(size)
    else Sound(c, Needed(size), Carved(c, Asked(size)))
  }

  // ----- when it does

  /** No end has room. */
  predicate Full(c: Cursors, total: nat) {
    && c.heapPtr + total > c.committed && c.committed + RoundUpPage(c.heapPtr + total - c.committed) > c.heapMaxEnd
    && c.swapPtr + total > c.swapEnd
  }

  /** The sums on the path through the heap, its growth and the swap arena stay below 2^64. */
  predicate Tame(c: Cursors, total: nat) {
    && c.heapPtr + total < SIZE_MAX
    && (c.heapPtr + total > c.committed ==>
          var end := c.committed + RoundUpPage(c.heapPtr + total - c.committed);
          end < SIZE_MAX && (end > c.heapMaxEnd ==> c.swapPtr + total < SIZE_MAX))
  }

  /** A request whose size wraps needs a memory without any room; one that does not, a fit or tame sums. */
  ghost predicate Safe(c: Cursors, list: seq<nat>, size: nat) {
    if Needed(size) < SIZE_MAX then Has(list, Needed(size)) || Tame(c, Needed(size))
    else !Has(list, Needed(size) - SIZE_MAX) && Full(c, Needed(size) - SIZE_MAX)
  }

  lemma CarvedSound(c: Cursors, total: nat)
    requires c.Ok() && total < SIZE_MAX && total > 0
    ensures Sound(c, total, Carved(c, total)) <==> Tame(c, total)
  {
  }

  lemma CarvedNone(c: Cursors, total: nat)
    requires c.Ok() && total <= HDR
    ensures Carved(c, total).blk == 0 <==> Full(c, total)
    ensures Sound(c, total + SIZE_MAX, Carved(c, total)) <==> Full(c, total)
  {
  }

  /** For every request on every memory: it is served as it should be exactly if it is safe. */
  lemma DeliversIffSafe(c: Cursors, list: seq<nat>, size: nat)
    requires c.Ok() && size < SIZE_MAX && forall i :: 0 <= i < |list| ==> list[i] < SIZE_MAX
    ensures Delivers(c, list, size) <==> Safe(c, list, size)
  {
    hide Carved, Sound, Tame, Full, Asked, RoundUp8;
    AskedIs(size);
    var total := Needed(size);
    if total < SIZE_MAX {
      CarvedSound(c, total);
    } else {
      CarvedNone(c, total - SIZE_MAX);
    }
  }

  /** The three outcomes of tame sums. */
  lemma CarvedCases(c: Cursors, total: nat)
    requires c.Ok() && Tame(c, total)
    ensures var g, r := Grown(c, total), Carved(c, total);
            && g == c.(committed := g.committed) && g.Ok() && c.heapPtr + total < SIZE_MAX
            && if c.heapPtr + total <= g.committed then
                 !Full(c, total) && r == Carving(c.heapPtr, g.(heapPtr := Wrap(c.heapPtr + total)))
               else
                 && c.swapPtr + total < SIZE_MAX
                 && if c.swapPtr + total <= c.swapEnd then
                      !Full(c, total) && r == Carving(c.swapPtr, g.(swapPtr := Wrap(c.swapPtr + total)))
                    else Full(c, total) && r == Carving(0, g)
  {
  }

  /** The heap, grown by whole pages if need be, has room for `n` more bytes. */
  predicate HasRoom(c: Cursors, n: nat) {
    c.heapPtr + n <= c.committed || c.committed + RoundUpPage(c.heapPtr + n - c.committed) <= c.heapMaxEnd
  }

  /** What a heap has to give: its ends and the sizes on its free list. */
  datatype Room = Room(ends: Cursors, free: seq<nat>) {
    ghost predicate Lacks(total: nat) { !Has(free, total) && Full(ends, total) }

    /** The ends after `total` bytes have been granted. */
    ghost function Granted(total: nat): Cursors {
      if Has(free, total) then ends else Carved(ends, total).after
    }
  }

  /** The pages that `total` and `n` more bytes take, in one step or in two. */
  lemma RoomSplit(c: Cursors, total: nat, n: nat)
    requires c.Ok() && HasRoom(c, total + n)
    ensures HasRoom(c, total)
    ensures var end := c.heapPtr + total;
            var grown := if end <= c.committed then c.committed else c.committed + RoundUpPage(end - c.committed);
            grown <= c.heapMaxEnd && HasRoom(c.(heapPtr := end, committed := grown), n)
  {
    hide RoundUpPage;
    var end := c.heapPtr + total;
    if end > c.committed {
      PagesAdd(end - c.committed, n);
    }
  }

  lemma RoomIsTame(c: Cursors, total: nat)
    requires c.Ok() && HasRoom(c, total)
    ensures Tame(c, total) && !Full(c, total)
    ensures var end := c.heapPtr + total;
            Carved(c, total).after == c.(heapPtr := end, committed := if end <= c.committed then c.committed
                                                                      else c.committed + RoundUpPage(end - c.committed))
  {
    CarvedCases(c, total);
  }

  /** Room for `total` and `n` bytes together is room for `total` bytes, and then for `n` more. */
  lemma RoomLeft(c: Cursors, total: nat, n: nat)
    requires c.Ok() && HasRoom(c, total + n)
    ensures Tame(c, total) && !Full(c, total) && HasRoom(Carved(c, total).after, n)
  {
    hide Tame, Full, Carved, HasRoom, RoundUpPage;
    RoomSplit(c, total, n);
    RoomIsTame(c, total);
  }

  /** Pages added in two steps are the pages added in one. */
  lemma PagesAdd(a: nat, n: nat)
    ensures RoundUpPage(a) <= RoundUpPage(a + n)
    ensures a + n > RoundUpPage(a) ==> RoundUpPage(a) + RoundUpPage(a + n - RoundUpPage(a)) == RoundUpPage(a + n)
  {
  }

  /** A request whose size wraps and that is safe all the same finds no room, wrapped or not. */
  lemma WrappedHasNoRoom(c: Cursors, list: seq<nat>, size: nat)
    requires c.Ok() && size < SIZE_MAX && Needed(size) >= SIZE_MAX && Safe(c, list, size)
    requires forall i :: 0 <= i < |list| ==> list[i] < SIZE_MAX
    ensures !Has(list, Needed(size)) && Full(c, Needed(size))
    ensures !Has(list, Asked(size)) && Full(c, Asked(size)) && Tame(c, Asked(size))
  {
    AskedIs(size);
  }

  /** With an empty list a request of 2^64 - 64 bytes is granted, and the end of the heap moves back by 24. */
  lemma HugeRequestRewinds(c: Cursors)
    requires c.Ok()
    ensures var size := SIZE_MAX - 64;
            && Carved(c, Asked(size)) == Carving(c.heapPtr, c.(heapPtr := c.heapPtr - 24))
            && !Delivers(c, [], size) && !Safe(c, [], size)
  {
    AskedIs(SIZE_MAX - 64);
  }

  /** Where the growth wraps, the committed end falls below the used one. */
  lemma GrowthWraps(c: Cursors, total: nat)
    requires c.Ok() && c.heapPtr + total < SIZE_MAX && c.committed < c.heapPtr + total
    requires c.committed + RoundUpPage(c.heapPtr + total - c.committed) >= SIZE_MAX
    ensures Grown(c, total).committed < c.heapPtr && !Tame(c, total)
  {
  }

  /** Far from the end of the address space every request is safe. */
  lemma ModestIsSafe(c: Cursors, list: seq<nat>, size: nat)
    requires c.Ok() && c.heapMaxEnd + Needed(size) + PAGE < SIZE_MAX && c.swapEnd + Needed(size) < SIZE_MAX
    ensures Safe(c, list, size)
  {
  }
}
