/** Blocks, tilings and the free list of kernel/mem.c, as values: `hdr` maps an address to the
    block header stored there. */
module MemArena {
  import opened Common

  const HDR := 40       // sizeof(mem_block_t) on x86-64

  datatype Guard = Active | Freed

  datatype Header = Header(total: nat, user: nat, guard: Guard, next: nat, fromSwap: bool)

  type Headers = map<nat, Header>

  /** The used part [lo, hi) of a memory region and its blocks in address order. */
  datatype Region = Region(lo: nat, hi: nat, tiles: seq<nat>, swap: bool)

  // ----- tiling

  ghost predicate BlockOk(hdr: Headers, b: nat, swap: bool) {
    b in hdr && hdr[b].total >= HDR && hdr[b].user == hdr[b].total - HDR && hdr[b].fromSwap == swap
  }

  /** Block b is a block of the same size in both. */
  ghost predicate SameSize(hdr: Headers, hdr': Headers, b: nat, swap: bool) {
    b in hdr && BlockOk(hdr', b, swap) && hdr'[b].total == hdr[b].total
  }

  function End(hdr: Headers, b: nat): nat {
    if b in hdr then b + hdr[b].total else b
  }

  /** The blocks `s` partition [lo, hi): each starts where the previous one ends. */
  ghost predicate Tiles(hdr: Headers, s: seq<nat>, lo: nat, hi: nat, swap: bool) {
    if s == [] then lo == hi
    else s[0] == lo && BlockOk(hdr, lo, swap) && Tiles(hdr, s[1..], End(hdr, lo), hi, swap)
  }

  ghost predicate Tiled(hdr: Headers, r: Region) {
    0 < r.lo && Tiles(hdr, r.tiles, r.lo, r.hi, r.swap)
  }

  lemma {:induction false} TilesBounds(hdr: Headers, s: seq<nat>, lo: nat, hi: nat, swap: bool)
    requires Tiles(hdr, s, lo, hi, swap)
    ensures lo <= hi
    ensures forall b :: b in s ==> BlockOk(hdr, b, swap) && lo <= b && b + HDR <= End(hdr, b) <= hi
  {
    if s != [] {
      TilesBounds(hdr, s[1..], End(hdr, lo), hi, swap);
      assert forall b :: b in s ==> b == s[0] || b in s[1..];
    }
  }

  lemma {:induction false} TilesConcat(hdr: Headers, s: seq<nat>, t: seq<nat>, lo: nat, mid: nat, hi: nat, swap: bool)
    requires Tiles(hdr, s, lo, mid, swap) && Tiles(hdr, t, mid, hi, swap)
    ensures Tiles(hdr, s + t, lo, hi, swap)
  {
    if s == [] {
      assert s + t == t;
    } else {
      TilesConcat(hdr, s[1..], t, End(hdr, lo), mid, hi, swap);
      assert (s + t)[1..] == s[1..] + t;
    }
  }

  lemma {:induction false} TilesCut(hdr: Headers, s: seq<nat>, t: seq<nat>, lo: nat, hi: nat, swap: bool)
    returns (mid: nat)
    requires Tiles(hdr, s + t, lo, hi, swap)
    ensures Tiles(hdr, s, lo, mid, swap) && Tiles(hdr, t, mid, hi, swap)
    ensures t != [] ==> mid == t[0]
  {
    if s == [] {
      assert s + t == t;
      mid := lo;
    } else {
      assert (s + t)[1..] == s[1..] + t;
      mid := TilesCut(hdr, s[1..], t, End(hdr, lo), hi, swap);
    }
  }

  lemma {:induction false} TilesFrame(hdr: Headers, hdr': Headers, s: seq<nat>, lo: nat, hi: nat, swap: bool)
    requires Tiles(hdr, s, lo, hi, swap)
    requires forall b :: b in s ==> SameSize(hdr, hdr', b, swap)
    ensures Tiles(hdr', s, lo, hi, swap)
  {
    if s != [] {
      assert s[0] in s;
      TilesFrame(hdr, hdr', s[1..], End(hdr, lo), hi, swap);
    }
  }

  /** Two different blocks of a tiling do not overlap. */
  lemma TilesApart(hdr: Headers, s: seq<nat>, lo: nat, hi: nat, swap: bool, i: nat, j: nat)
    requires Tiles(hdr, s, lo, hi, swap) && i < j < |s|
    ensures End(hdr, s[i]) <= s[j]
  {
    assert s == s[..j] + s[j..];
    var mid := TilesCut(hdr, s[..j], s[j..], lo, hi, swap);
    TilesBounds(hdr, s[..j], lo, mid, swap);
    assert s[..j][i] in s[..j];
  }

  lemma TilesDistinct(hdr: Headers, s: seq<nat>, lo: nat, hi: nat, swap: bool)
    requires Tiles(hdr, s, lo, hi, swap)
    ensures forall i, j :: 0 <= i < j < |s| ==> s[i] != s[j]
  {
    TilesBounds(hdr, s, lo, hi, swap);
    forall i, j | 0 <= i < j < |s|
      ensures s[i] != s[j]
    {
      TilesApart(hdr, s, lo, hi, swap, i, j);
      assert s[i] in s;
    }
  }

  /** Blocks that touch are neighbours in the tiling. */
  lemma Neighbours(hdr: Headers, s: seq<nat>, lo: nat, hi: nat, swap: bool, a: nat, b: nat) returns (i: nat)
    requires Tiles(hdr, s, lo, hi, swap) && a in s && b in s && End(hdr, a) == b
    ensures i + 1 < |s| && s[i] == a && s[i + 1] == b
  {
    i :| 0 <= i < |s| && s[i] == a;
    assert s == s[..i + 1] + s[i + 1..];
    var mid := TilesCut(hdr, s[..i + 1], s[i + 1..], lo, hi, swap);
    TilesBounds(hdr, s, lo, hi, swap);
    LastEnd(hdr, s[..i + 1], lo, mid, swap);
  }

  lemma {:induction false} LastEnd(hdr: Headers, s: seq<nat>, lo: nat, hi: nat, swap: bool)
    requires Tiles(hdr, s, lo, hi, swap) && s != []
    ensures End(hdr, s[|s| - 1]) == hi
  {
    var n := |s| - 1;
    assert s == s[..n] + s[n..];
    var mid := TilesCut(hdr, s[..n], s[n..], lo, hi, swap);
  }

  // ----- the three ways a tiling changes

  /** Block b between `front` and `rest` is cut after `n` bytes. */
  lemma TilesSplit(hdr: Headers, hdr': Headers, front: seq<nat>, b: nat, rest: seq<nat>, n: nat, lo: nat, hi: nat,
                   swap: bool)
    requires Tiles(hdr, front + [b] + rest, lo, hi, swap)
    requires forall c :: c in front || c in rest ==> SameSize(hdr, hdr', c, swap)
    requires BlockOk(hdr', b, swap) && hdr'[b].total == n
    requires BlockOk(hdr', b + n, swap) && b in hdr && n + hdr'[b + n].total == hdr[b].total
    ensures Tiles(hdr', front + [b, b + n] + rest, lo, hi, swap)
  {
    assert front + [b] + rest == front + ([b] + rest);
    var mid := TilesCut(hdr, front, [b] + rest, lo, hi, swap);
    TilesFrame(hdr, hdr', front, lo, mid, swap);
    assert ([b] + rest)[1..] == rest;
    TilesFrame(hdr, hdr', rest, End(hdr, b), hi, swap);
    assert [b, b + n][1..] == [b + n];
    assert Tiles(hdr', [b, b + n], b, End(hdr, b), swap);
    TilesConcat(hdr', [b, b + n], rest, b, End(hdr, b), hi, swap);
    TilesConcat(hdr', front, [b, b + n] + rest, lo, b, hi, swap);
    assert front + [b, b + n] + rest == front + ([b, b + n] + rest);
  }

  /** Block b is absorbed by the block a in front of it. */
  lemma TilesMerge(hdr: Headers, hdr': Headers, front: seq<nat>, a: nat, b: nat, rest: seq<nat>, lo: nat, hi: nat,
                   swap: bool)
    requires Tiles(hdr, front + [a, b] + rest, lo, hi, swap)
    requires a in hdr && b in hdr
    requires forall c :: c in front || c in rest ==> SameSize(hdr, hdr', c, swap)
    requires BlockOk(hdr', a, swap) && hdr'[a].total == hdr[a].total + hdr[b].total
    ensures Tiles(hdr', front + [a] + rest, lo, hi, swap)
  {
    assert front + [a, b] + rest == front + ([a, b] + rest);
    var mid := TilesCut(hdr, front, [a, b] + rest, lo, hi, swap);
    TilesFrame(hdr, hdr', front, lo, mid, swap);
    var end := TilesCut(hdr, [a, b], rest, mid, hi, swap);
    assert [a, b][1..] == [b] && [b][1..] == [];
    assert Tiles(hdr, [b], End(hdr, a), end, swap);
    TilesFrame(hdr, hdr', rest, end, hi, swap);
    LastEnd(hdr, [a, b], mid, end, swap);
    assert mid == a && b == End(hdr, a) && End(hdr', a) == end;
    assert [a][1..] == [];
    TilesConcat(hdr', [a], rest, a, end, hi, swap);
    TilesConcat(hdr', front, [a] + rest, lo, a, hi, swap);
    assert front + [a] + rest == front + ([a] + rest);
  }

  /** A fresh block at the end. */
  lemma TilesGrow(hdr: Headers, hdr': Headers, s: seq<nat>, lo: nat, hi: nat, n: nat, swap: bool)
    requires Tiles(hdr, s, lo, hi, swap)
    requires forall c :: c in s ==> SameSize(hdr, hdr', c, swap)
    requires BlockOk(hdr', hi, swap) && hdr'[hi].total == n
    ensures Tiles(hdr', s + [hi], lo, hi + n, swap)
  {
    TilesFrame(hdr, hdr', s, lo, hi, swap);
    assert Tiles(hdr', [hi], hi, hi + n, swap);
    TilesConcat(hdr', s, [hi], lo, hi, hi + n, swap);
  }

  // ----- sums over blocks

  datatype Measure = LiveUser | LiveTotal | FreeTotal | AnyTotal

  function Weight(m: Measure, h: Header): nat {
    match m
    case LiveUser => if h.guard == Active then h.user else 0
    case LiveTotal => if h.guard == Active then h.total else 0
    case FreeTotal => if h.guard == Freed then h.total else 0
    case AnyTotal => h.total
  }

  function WeightAt(m: Measure, hdr: Headers, b: nat): nat {
    if b in hdr then Weight(m, hdr[b]) else 0
  }

  function Sum(m: Measure, hdr: Headers, s: seq<nat>): nat {
    if s == [] then 0 else WeightAt(m, hdr, s[0]) + Sum(m, hdr, s[1..])
  }

  lemma {:induction false} SumConcat(m: Measure, hdr: Headers, s: seq<nat>, t: seq<nat>)
    ensures Sum(m, hdr, s + t) == Sum(m, hdr, s) + Sum(m, hdr, t)
  {
    if s == [] {
      assert s + t == t;
    } else {
      SumConcat(m, hdr, s[1..], t);
      assert (s + t)[1..] == s[1..] + t;
    }
  }

  lemma SumOne(m: Measure, hdr: Headers, b: nat)
    ensures Sum(m, hdr, [b]) == WeightAt(m, hdr, b)
  {
    assert [b][1..] == [];
  }

  lemma SumRemove(m: Measure, hdr: Headers, l: seq<nat>, x: nat, r: seq<nat>)
    ensures Sum(m, hdr, l + [x] + r) == WeightAt(m, hdr, x) + Sum(m, hdr, l + r)
  {
    SumConcat(m, hdr, l + [x], r);
    SumConcat(m, hdr, l, [x]);
    SumConcat(m, hdr, l, r);
    SumOne(m, hdr, x);
  }

  lemma {:induction false} SumFrame(m: Measure, hdr: Headers, hdr': Headers, s: seq<nat>)
    requires forall b :: b in s ==> WeightAt(m, hdr', b) == WeightAt(m, hdr, b)
    ensures Sum(m, hdr', s) == Sum(m, hdr, s)
  {
    if s != [] {
      assert s[0] in s;
      SumFrame(m, hdr, hdr', s[1..]);
    }
  }

  /** Live and free blocks together fill the tiled range. */
  lemma {:induction false} TilesSum(hdr: Headers, s: seq<nat>, lo: nat, hi: nat, swap: bool)
    requires Tiles(hdr, s, lo, hi, swap)
    ensures lo + Sum(LiveTotal, hdr, s) + Sum(FreeTotal, hdr, s) == hi
  {
    if s != [] {
      TilesSum(hdr, s[1..], End(hdr, lo), hi, swap);
    }
  }

  ghost predicate IsFree(hdr: Headers, b: nat) { b in hdr && hdr[b].guard == Freed }

  lemma {:induction false} NoFreeSum(hdr: Headers, s: seq<nat>)
    requires forall b :: b in s ==> !IsFree(hdr, b)
    ensures Sum(FreeTotal, hdr, s) == 0
  {
    if s != [] {
      assert s[0] in s;
      NoFreeSum(hdr, s[1..]);
    }
  }

  /** Summing along the free list is summing the free blocks in address order. */
  lemma {:induction false} ListSum(hdr: Headers, free: seq<nat>, s: seq<nat>)
    requires NoDup(free) && NoDup(s)
    requires forall b :: b in free <==> b in s && IsFree(hdr, b)
    ensures Sum(AnyTotal, hdr, free) == Sum(FreeTotal, hdr, s)
    decreases |free|
  {
    if free == [] {
      NoFreeSum(hdr, s);
    } else {
      var x, t := free[0], free[1..];
      assert x in free;
      var i :| 0 <= i < |s| && s[i] == x;
      var l, r := s[..i], s[i + 1..];
      assert s == l + [x] + r;
      assert NoDup(l + r);
      SumRemove(FreeTotal, hdr, l, x, r);
      assert forall b :: b in free <==> b == x || b in t;
      assert forall b :: b in s <==> b == x || b in l + r;
      assert x !in t && x !in l + r;
      ListSum(hdr, t, l + r);
    }
  }
}
