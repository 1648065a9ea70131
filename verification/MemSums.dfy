/** The used-bytes counter as a sum over the map of live allocations. */
module MemSums {
  import opened Common
  import opened MemArena
  import opened MemState
  import MemHeap
  import MemWrap

  ghost function MapSum(m: map<nat, nat>): nat {
    if m == map[] then 0 else
      var k :| k in m;
      m[k] + MapSum(m - {k})
  }

  lemma {:induction false} MapSumRemove(m: map<nat, nat>, k: nat)
    requires k in m
    ensures MapSum(m) == m[k] + MapSum(m - {k})
    decreases |m|
  {
    var c :| c in m && MapSum(m) == m[c] + MapSum(m - {c});
    if c != k {
      MapSumRemove(m - {c}, k);
      MapSumRemove(m - {k}, c);
      assert m - {c} - {k} == m - {k} - {c};
    }
  }

  lemma MapSumAdd(m: map<nat, nat>, k: nat, v: nat)
    requires k !in m
    ensures MapSum(m[k := v]) == MapSum(m) + v
  {
    MapSumRemove(m[k := v], k);
    assert m[k := v] - {k} == m;
  }

  ghost predicate LiveAt(hdr: Headers, x: nat) { x in hdr && hdr[x].guard == Active }

  ghost function LiveOf(hdr: Headers, s: seq<nat>): map<nat, nat> {
    if s == [] then map[] else
      var x, rest := s[0], LiveOf(hdr, s[1..]);
      if LiveAt(hdr, x) then rest[x + HDR := hdr[x].user] else rest
  }

  lemma {:induction false} LiveOfIs(hdr: Headers, s: seq<nat>, p: nat)
    ensures p in LiveOf(hdr, s) <==> p >= HDR && p - HDR in s && LiveAt(hdr, p - HDR)
    ensures p in LiveOf(hdr, s) ==> LiveOf(hdr, s)[p] == hdr[p - HDR].user
  {
    if s != [] {
      LiveOfIs(hdr, s[1..], p);
      assert p >= HDR ==> (p - HDR in s <==> p - HDR == s[0] || p - HDR in s[1..]);
    }
  }

  lemma {:induction false} LiveOfSum(hdr: Headers, s: seq<nat>)
    requires NoDup(s)
    ensures MapSum(LiveOf(hdr, s)) == Sum(LiveUser, hdr, s)
  {
    if s != [] {
      LiveOfSum(hdr, s[1..]);
      if LiveAt(hdr, s[0]) {
        LiveOfIs(hdr, s[1..], s[0] + HDR);
        MapSumAdd(LiveOf(hdr, s[1..]), s[0] + HDR, hdr[s[0]].user);
      }
    }
  }

  /** The user bytes of the live blocks are the values of the live map. */
  lemma UserSum(m: Arena)
    requires Regions(m)
    ensures Sum(LiveUser, m.hdr, m.All()) == MapSum(Live(m))
  {
    hide Live, MapSum, Sum, LiveOf;
    AllDistinct(m);
    LiveOfSum(m.hdr, m.All());
    forall p: nat
      ensures p in LiveOf(m.hdr, m.All()) <==> p in Live(m)
      ensures p in Live(m) ==> Live(m)[p] == LiveOf(m.hdr, m.All())[p]
    {
      LiveIs(m, p);
      LiveOfIs(m.hdr, m.All(), p);
    }
    assert LiveOf(m.hdr, m.All()) == Live(m);
  }

  /** heap_used_bytes is the sum of the live allocations' sizes. */
  lemma UsedIs(h: MemHeap.Heap)
    requires h.Valid()
    ensures h.used == MapSum(h.Allocations())
  {
    UserSum(h.State());
  }

  lemma {:induction false} UserWithin(hdr: Headers, s: seq<nat>, lo: nat, hi: nat, swap: bool)
    requires Tiles(hdr, s, lo, hi, swap)
    ensures lo + Sum(LiveUser, hdr, s) <= hi
  {
    if s != [] {
      UserWithin(hdr, s[1..], End(hdr, lo), hi, swap);
    }
  }

  /** The live bytes are real memory, so their count never wraps. */
  lemma UsedFits(h: MemHeap.Heap)
    requires h.Valid()
    ensures h.used <= (h.heapPtr - h.heapStart) + (h.swapPtr - h.swapBase) && h.used < MemWrap.SIZE_MAX
  {
    var m := h.State();
    UserWithin(m.hdr, m.a.tiles, m.a.lo, m.a.hi, m.a.swap);
    UserWithin(m.hdr, m.b.tiles, m.b.lo, m.b.hi, m.b.swap);
    SumConcat(LiveUser, m.hdr, m.a.tiles, m.b.tiles);
  }
}
