/** micropython/extmod/modheapq.c: a binary heap kept in a list, for any strict weak order. */
module Heapq {
  import opened Common

  /** `less` is asymmetric and its negation is transitive: a strict weak order. */
  ghost predicate Order<T(!new)>(less: (T, T) -> bool) {
    && (forall x, y :: less(x, y) ==> !less(y, x))
    && (forall x, y, z :: !less(y, x) && !less(z, y) ==> !less(z, x))
  }

  function Parent(c: int): (p: int)
    requires c > 0
    ensures 0 <= p < c && (c == 2 * p + 1 || c == 2 * p + 2)
  {
    (c - 1) / 2
  }

  /** The parent comes no later than the child. */
  ghost predicate Edge<T>(less: (T, T) -> bool, h: seq<T>, c: int)
    requires 0 < c < |h|
  {
    !less(h[c], h[Parent(c)])
  }

  /** All edges below parents from `start` on, save the one above x. */
  ghost predicate AllBut<T>(less: (T, T) -> bool, h: seq<T>, start: int, x: int) {
    forall c :: 0 < c < |h| && Parent(c) >= start && c != x ==> Edge(less, h, c)
  }

  ghost predicate HeapFrom<T>(less: (T, T) -> bool, h: seq<T>, start: int) { AllBut(less, h, start, -1) }

  ghost predicate IsHeap<T>(less: (T, T) -> bool, h: seq<T>) { HeapFrom(less, h, 0) }

  /** The children of x come no earlier than the parent of x. */
  ghost predicate Bridge<T>(less: (T, T) -> bool, h: seq<T>, start: int, x: int) {
    forall c :: 0 < c < |h| && Parent(c) == x > start >= 0 ==> !less(h[c], h[Parent(x)])
  }

  /** x lies in the subtree of start. */
  ghost predicate Below(start: int, x: int) {
    x == start || (x > start >= 0 && Below(start, Parent(x)))
  }

  lemma SwapKeeps<T>(h: seq<T>, i: int, j: int)
    requires 0 <= i < |h| && 0 <= j < |h|
    ensures multiset(h[i := h[j]][j := h[i]]) == multiset(h)
  {
  }

  /** One step up of an item that is smaller than its parent. */
  lemma Raised<T(!new)>(less: (T, T) -> bool, h: seq<T>, start: int, x: int)
    requires Order(less) && 0 <= start < x < |h| && Below(start, x) && less(h[x], h[Parent(x)])
    requires AllBut(less, h, start, x) && Bridge(less, h, start, x)
    ensures var p := Parent(x); var h' := h[x := h[p]][p := h[x]];
            Below(start, p) && p >= start && AllBut(less, h', start, p) && Bridge(less, h', start, p)
  {
    var p := Parent(x);
    BelowStart(start, p);
    var h' := h[x := h[p]][p := h[x]];
    forall c | 0 < c < |h| && Parent(c) >= start && c != p
      ensures Edge(less, h', c)
    {
      if c != x {
        assert Edge(less, h, c);
      }
    }
    forall c | 0 < c < |h| && Parent(c) == p > start
      ensures !less(h'[c], h'[Parent(p)])
    {
      BelowStart(start, Parent(p));
      assert Edge(less, h, p);
      if c != x {
        assert Edge(less, h, c);
      }
    }
  }

  lemma BelowStart(start: int, x: int)
    requires Below(start, x)
    ensures x >= start
  {
  }

  /** The item at x has found its place. */
  lemma Settled<T(!new)>(less: (T, T) -> bool, h: seq<T>, start: int, x: int)
    requires AllBut(less, h, start, x) && 0 <= x < |h| && Below(start, x)
    requires x > start >= 0 ==> !less(h[x], h[Parent(x)])
    ensures start >= 0 ==> HeapFrom(less, h, start)
  {
    forall c | 0 < c < |h| && Parent(c) >= start && start >= 0
      ensures Edge(less, h, c)
    {
    }
  }

  /** The hole moves down to the smaller child. */
  lemma Lowered<T(!new)>(less: (T, T) -> bool, h: seq<T>, start: int, x: int, c: int)
    requires Order(less) && 0 <= start <= x < c < |h| && Parent(c) == x
    requires Hole(less, h, start, x)
    requires forall d :: 0 < d < |h| && Parent(d) == x ==> !less(h[d], h[c])
    ensures Hole(less, h[x := h[c]], start, c)
  {
    var h' := h[x := h[c]];
    forall d | 0 < d < |h| && Parent(d) >= start && d != c && Parent(d) != c
      ensures Edge(less, h', d)
    {
      if d != x && Parent(d) != x {
        assert Edge(less, h, d);
      }
    }
    forall d | 0 < d < |h| && Parent(d) == c
      ensures !less(h'[d], h'[Parent(c)])
    {
      assert Edge(less, h, d);
    }
  }

  /** All edges hold but those at the hole x, and around the hole they hold across it. */
  ghost predicate Hole<T>(less: (T, T) -> bool, h: seq<T>, start: int, x: int) {
    && (forall c :: 0 < c < |h| && Parent(c) >= start && c != x && Parent(c) != x ==> Edge(less, h, c))
    && Bridge(less, h, start, x)
  }

  /** At a leaf, the hole can be filled: only the edge above it is open. */
  lemma Filled<T>(less: (T, T) -> bool, h: seq<T>, start: int, x: int, item: T)
    requires Hole(less, h, start, x) && 0 <= x < |h| <= 2 * x + 1
    ensures AllBut(less, h[x := item], start, x) && Bridge(less, h[x := item], start, x)
  {
    var h' := h[x := item];
    forall c | 0 < c < |h| && Parent(c) >= start && c != x
      ensures Edge(less, h', c)
    {
      assert Edge(less, h, c);
    }
  }

  lemma {:induction false} RootIsLeast<T(!new)>(less: (T, T) -> bool, h: seq<T>, i: int)
    requires Order(less) && IsHeap(less, h) && 0 <= i < |h|
    ensures !less(h[i], h[0])
    decreases i
  {
    if i > 0 {
      RootIsLeast(less, h, Parent(i));
      assert Edge(less, h, i);
    }
  }

  /** Taking a hole for an item and putting the item elsewhere is a swap. */
  lemma MoveHole<T>(h: seq<T>, x: int, c: int, item: T)
    requires 0 <= x < |h| && 0 <= c < |h| && x != c
    ensures multiset(h[x := h[c]][c := item]) == multiset(h[x := item])
  {
    var g := h[x := item];
    SwapKeeps(g, x, c);
    assert g[x := g[c]][c := g[x]] == h[x := h[c]][c := item];
  }

  class List<T(!new)> {
    const less: (T, T) -> bool
    var items: seq<T>

    constructor (less: (T, T) -> bool, items: seq<T>)
      ensures this.less == less && this.items == items
    {
      this.less := less;
      this.items := items;
    }

    /** heapq_heap_siftdown: the item at pos moves up, no further than start. */
    method SiftDown(start: nat, pos: nat)
      requires Order(less) && pos < |items| && Below(start, pos)
      requires AllBut(less, items, start, pos) && Bridge(less, items, start, pos)
      modifies this`items
      ensures HeapFrom(less, items, start) && multiset(items) == multiset(old(items)) && |items| == |old(items)|
    {
      hide Order, AllBut, Bridge, HeapFrom, Below;
      var item := items[pos];
      var x := pos;
      BelowStart(start, x);
      ghost var h := items;
      while x > start
        invariant start <= x < |items| == |h| && |h| == |old(items)| && h == items[x := item]
        invariant Below(start, x) && AllBut(less, h, start, x) && Bridge(less, h, start, x)
        invariant multiset(h) == multiset(old(items))
      {
        var p := Parent(x);
        var parent := items[p];
        if less(item, parent) {
          Raised(less, h, start, x);
          SwapKeeps(h, x, p);
          h := h[x := h[p]][p := h[x]];
          items := items[x := parent];
          x := p;
        } else {
          break;
        }
      }
      items := items[x := item];
      Settled(less, items, start, x);
    }

    /** heapq_heap_siftup: pull the smaller children up to a leaf, then let the item climb back. */
    method SiftUp(start: nat)
      requires Order(less) && start < |items| && HeapFrom(less, items, start + 1)
      modifies this`items
      ensures HeapFrom(less, items, start) && multiset(items) == multiset(old(items)) && |items| == |old(items)|
    {
      hide Order, AllBut, Bridge, HeapFrom, Hole;
      var pos := start;
      var end := |items|;
      var item := items[pos];
      assert items[pos := item] == items;
      HoleStarts(less, items, start);
      var child := 2 * pos + 1;
      while child < end
        invariant start <= pos < end == |items| && |items| == |old(items)| && child == 2 * pos + 1
        invariant Below(start, pos) && Hole(less, items, start, pos)
        invariant multiset(items[pos := item]) == multiset(old(items))
        decreases end - pos
      {
        if child + 1 < end && !less(items[child], items[child + 1]) {
          child := child + 1;
        }
        SmallerChild(less, items, pos, child);
        Lowered(less, items, start, pos, child);
        MoveHole(items, pos, child, item);
        items := items[pos := items[child]];
        pos := child;
        child := 2 * pos + 1;
      }
      Filled(less, items, start, pos, item);
      items := items[pos := item];
      SiftDown(start, pos);
    }

    /** heapq.heappush. */
    method Push(item: T)
      requires Order(less) && IsHeap(less, items)
      modifies this`items
      ensures IsHeap(less, items) && multiset(items) == multiset(old(items)) + multiset{item}
    {
      hide Order, AllBut, Bridge;
      items := items + [item];
      Appended(less, old(items), item);
      BelowRoot(|items| - 1);
      SiftDown(0, |items| - 1);
    }

    /** heapq.heappop; an empty heap is an error. */
    method Pop() returns (r: Option<T>)
      requires Order(less) && IsHeap(less, items)
      modifies this`items
      ensures IsHeap(less, items)
      ensures r.None? <==> old(items) == []
      ensures r.None? ==> items == []
      ensures r.Some? ==> multiset(old(items)) == multiset(items) + multiset{r.value}
      ensures r.Some? ==> forall i :: 0 <= i < |old(items)| ==> !less(old(items)[i], r.value)
    {
      hide Order, AllBut, HeapFrom;
      if |items| == 0 {
        return None;
      }
      var item := items[0];
      forall i | 0 <= i < |items| ensures !less(items[i], item) { RootIsLeast(less, items, i); }
      var n := |items| - 1;
      var last := items[n];
      LastToFront(less, items);
      items := items[..n];
      if n > 0 {
        items := items[0 := last];
        SiftUp(0);
      }
      return Some(item);
    }

    /** heapq.heapify. */
    method Heapify()
      requires Order(less)
      modifies this`items
      ensures IsHeap(less, items) && multiset(items) == multiset(old(items))
    {
      hide Order, AllBut;
      var i := |items| / 2;
      LeavesOnly(less, items, i);
      while i > 0
        invariant 0 <= i <= |items| / 2 && |items| == |old(items)|
        invariant HeapFrom(less, items, i) && multiset(items) == multiset(old(items))
      {
        i := i - 1;
        SiftUp(i);
      }
    }
  }

  lemma HoleStarts<T>(less: (T, T) -> bool, h: seq<T>, start: int)
    requires HeapFrom(less, h, start + 1)
    ensures Hole(less, h, start, start)
  {
  }

  lemma SmallerChild<T(!new)>(less: (T, T) -> bool, h: seq<T>, x: int, c: int)
    requires Order(less) && 0 <= x < c < |h| && Parent(c) == x
    requires c == 2 * x + 1 ==> c + 1 == |h| || less(h[c], h[c + 1])
    requires c == 2 * x + 2 ==> !less(h[c - 1], h[c])
    ensures forall d :: 0 < d < |h| && Parent(d) == x ==> !less(h[d], h[c])
  {
  }

  lemma Appended<T>(less: (T, T) -> bool, h: seq<T>, item: T)
    requires IsHeap(less, h)
    ensures AllBut(less, h + [item], 0, |h|) && Bridge(less, h + [item], 0, |h|)
  {
    var h' := h + [item];
    forall c | 0 < c < |h'| && c != |h|
      ensures Edge(less, h', c)
    {
      assert Edge(less, h, c);
    }
  }

  lemma {:induction false} BelowRoot(x: int)
    requires x >= 0
    ensures Below(0, x)
  {
    if x > 0 {
      BelowRoot(Parent(x));
    }
  }

  /** Heap pop puts the last item in front: below the root everything is in order, and one item is gone. */
  lemma LastToFront<T>(less: (T, T) -> bool, h: seq<T>)
    requires IsHeap(less, h) && |h| > 0
    ensures var n := |h| - 1; var g := h[..n];
            if n == 0 then IsHeap(less, g) && multiset(h) == multiset(g) + multiset{h[0]}
            else HeapFrom(less, g[0 := h[n]], 1) && multiset(h) == multiset(g[0 := h[n]]) + multiset{h[0]}
  {
    var n := |h| - 1;
    var g := h[..n];
    assert h == g + [h[n]];
    if n > 0 {
      var g' := g[0 := h[n]];
      forall c | 0 < c < |g'| && Parent(c) >= 1
        ensures Edge(less, g', c)
      {
        assert Edge(less, h, c);
      }
      assert g == [h[0]] + g[1..] && g' == [h[n]] + g[1..];
    }
  }

  lemma LeavesOnly<T>(less: (T, T) -> bool, h: seq<T>, i: int)
    requires i == |h| / 2
    ensures HeapFrom(less, h, i)
  {
  }
}
