/** The allocator's invariant and the effect of its operations on values. */
module MemState {
  import opened Common
  import opened MemArena
  import opened MemList

  /** Headers, head of the free list, the list itself, and two disjoint regions; `a` is the
      region an operation works in, `b` the other one. */
  datatype Arena = Arena(hdr: Headers, head: nat, free: seq<nat>, a: Region, b: Region) {
    ghost function All(): seq<nat> { a.tiles + b.tiles }
    ghost function Flip(): Arena { this.(a := b, b := a) }
  }

  /** No two neighbouring blocks are both free. */
  ghost predicate Quiet(hdr: Headers, s: seq<nat>) {
    forall i :: 0 <= i < |s| - 1 ==> !(IsFree(hdr, s[i]) && IsFree(hdr, s[i + 1]))
  }

  ghost predicate Regions(m: Arena) {
    && Tiled(m.hdr, m.a) && Tiled(m.hdr, m.b)
    && m.a.swap != m.b.swap
    && (m.a.hi <= m.b.lo || m.b.hi <= m.a.lo)
  }

  /** The used memory is partitioned into blocks; the free ones, and only they, are on the list, once. */
  ghost predicate Consistent(m: Arena) {
    && Regions(m)
    && Seg(m.hdr, m.head, m.free, 0) && NoDup(m.free)
    && (forall x :: x in m.free <==> x in m.All() && IsFree(m.hdr, x))
    && Quiet(m.hdr, m.a.tiles) && Quiet(m.hdr, m.b.tiles)
  }

  lemma Members(m: Arena)
    ensures forall y :: y in m.All() <==> y in m.a.tiles || y in m.b.tiles
  {
  }

  lemma ConsistentFlip(m: Arena)
    requires Consistent(m)
    ensures Consistent(m.Flip())
  {
    assert forall x :: x in m.All() <==> x in m.Flip().All();
  }

  ghost predicate LiveBlock(m: Arena, x: nat) {
    x in m.All() && x in m.hdr && m.hdr[x].guard == Active
  }

  ghost function Payloads(m: Arena): set<nat> {
    set x | x in m.All() && LiveBlock(m, x) :: x + HDR
  }

  /** Payload pointer and size of every live block. */
  ghost function Live(m: Arena): map<nat, nat> {
    map p | p in Payloads(m) :: m.hdr[p - HDR].user
  }

  lemma LiveIs(m: Arena, p: nat)
    ensures p in Live(m) <==> p >= HDR && LiveBlock(m, p - HDR)
    ensures p in Live(m) ==> Live(m)[p] == m.hdr[p - HDR].user
  {
    if p >= HDR && LiveBlock(m, p - HDR) {
      var x := p - HDR;
      assert x + HDR in Payloads(m);
    }
  }

  lemma LiveSame(m: Arena, m': Arena)
    requires forall x :: LiveBlock(m', x) <==> LiveBlock(m, x)
    requires forall x :: LiveBlock(m, x) ==> x in m.hdr && x in m'.hdr && m'.hdr[x].user == m.hdr[x].user
    ensures Live(m') == Live(m)
  {
    hide Live, LiveBlock;
    forall p: nat
      ensures p in Live(m') <==> p in Live(m)
      ensures p in Live(m') ==> Live(m')[p] == Live(m)[p]
    {
      LiveIs(m, p);
      LiveIs(m', p);
    }
  }

  lemma LiveFlip(m: Arena)
    ensures Live(m.Flip()) == Live(m)
  {
    assert forall x :: x in m.All() <==> x in m.Flip().All();
    LiveSame(m, m.Flip());
  }

  // ----- facts about a consistent arena

  lemma BlockFacts(m: Arena, x: nat)
    requires Regions(m) && x in m.All()
    ensures x in m.hdr && m.hdr[x].total >= HDR && m.hdr[x].user == m.hdr[x].total - HDR && x > 0
    ensures x in m.a.tiles <==> m.hdr[x].fromSwap == m.a.swap
    ensures x in m.a.tiles ==> m.a.lo <= x && End(m.hdr, x) <= m.a.hi
    ensures x in m.b.tiles ==> m.b.lo <= x && End(m.hdr, x) <= m.b.hi
  {
    TilesBounds(m.hdr, m.a.tiles, m.a.lo, m.a.hi, m.a.swap);
    TilesBounds(m.hdr, m.b.tiles, m.b.lo, m.b.hi, m.b.swap);
  }

  /** Different blocks never overlap, whatever their regions. */
  lemma BlocksApart(m: Arena, x: nat, y: nat)
    requires Regions(m) && x in m.All() && y in m.All() && x != y
    ensures End(m.hdr, x) <= y || End(m.hdr, y) <= x
  {
    BlockFacts(m, x);
    BlockFacts(m, y);
    if x in m.a.tiles && y in m.a.tiles {
      TileApart(m.hdr, m.a, x, y);
    } else if x in m.b.tiles && y in m.b.tiles {
      TileApart(m.hdr, m.b, x, y);
    }
  }

  lemma TileApart(hdr: Headers, r: Region, x: nat, y: nat)
    requires Tiled(hdr, r) && x in r.tiles && y in r.tiles && x != y
    ensures End(hdr, x) <= y || End(hdr, y) <= x
  {
    var i :| 0 <= i < |r.tiles| && r.tiles[i] == x;
    var j :| 0 <= j < |r.tiles| && r.tiles[j] == y;
    if i < j {
      TilesApart(hdr, r.tiles, r.lo, r.hi, r.swap, i, j);
    } else {
      TilesApart(hdr, r.tiles, r.lo, r.hi, r.swap, j, i);
    }
  }

  /** No two live allocations overlap. */
  lemma LiveApart(m: Arena, p: nat, q: nat)
    requires Regions(m) && p in Live(m) && q in Live(m) && p != q
    ensures p + Live(m)[p] <= q || q + Live(m)[q] <= p
  {
    LiveIs(m, p);
    LiveIs(m, q);
    BlockFacts(m, p - HDR);
    BlockFacts(m, q - HDR);
    BlocksApart(m, p - HDR, q - HDR);
  }

  lemma AllDistinct(m: Arena)
    requires Regions(m)
    ensures NoDup(m.All())
  {
    TilesDistinct(m.hdr, m.a.tiles, m.a.lo, m.a.hi, m.a.swap);
    TilesDistinct(m.hdr, m.b.tiles, m.b.lo, m.b.hi, m.b.swap);
    var s := m.All();
    forall i, j | 0 <= i < j < |s|
      ensures s[i] != s[j]
    {
      if i < |m.a.tiles| <= j {
        assert s[i] in m.a.tiles && s[j] in m.b.tiles;
        BlockFacts(m, s[i]);
        BlockFacts(m, s[j]);
      }
    }
  }

  /** mem_heap_free's walk plus the live blocks accounts for every byte of the used regions. */
  lemma Conservation(m: Arena)
    requires Consistent(m)
    ensures Sum(AnyTotal, m.hdr, m.free) + Sum(LiveTotal, m.hdr, m.All()) == (m.a.hi - m.a.lo) + (m.b.hi - m.b.lo)
  {
    AllDistinct(m);
    ListSum(m.hdr, m.free, m.All());
    TilesSum(m.hdr, m.a.tiles, m.a.lo, m.a.hi, m.a.swap);
    TilesSum(m.hdr, m.b.tiles, m.b.lo, m.b.hi, m.b.swap);
    SumConcat(FreeTotal, m.hdr, m.a.tiles, m.b.tiles);
    SumConcat(LiveTotal, m.hdr, m.a.tiles, m.b.tiles);
  }

  // ----- taking a block off the free list

  /** Block x is unchanged, except perhaps for its link. */
  ghost predicate Kept(hdr: Headers, hdr': Headers, x: nat) {
    x in hdr && x in hdr' && hdr'[x] == hdr[x].(next := hdr'[x].next)
  }

  /** Effect of taking block x: it becomes live with `user` bytes, everything else live stays. */
  ghost predicate Took(m: Arena, m': Arena, x: nat, user: nat) {
    && Consistent(m')
    && x + HDR !in Live(m)
    && Live(m') == Live(m)[x + HDR := user]
    && Sum(LiveUser, m'.hdr, m'.All()) == Sum(LiveUser, m.hdr, m.All()) + user
  }

  lemma TookFlip(m: Arena, m': Arena, x: nat, user: nat)
    requires Took(m.Flip(), m'.Flip(), x, user)
    ensures Took(m, m', x, user)
  {
    hide Consistent, Live, Sum;
    ConsistentFlip(m'.Flip());
    assert m'.Flip().Flip() == m';
    LiveFlip(m);
    LiveFlip(m');
    SumConcat(LiveUser, m.hdr, m.a.tiles, m.b.tiles);
    SumConcat(LiveUser, m.hdr, m.b.tiles, m.a.tiles);
    SumConcat(LiveUser, m'.hdr, m'.a.tiles, m'.b.tiles);
    SumConcat(LiveUser, m'.hdr, m'.b.tiles, m'.a.tiles);
  }

  /** If the live blocks of m' are those of m and x, the live maps differ by that entry. */
  lemma LiveAdded(m: Arena, m': Arena, x: nat)
    requires x in m'.hdr && LiveBlock(m', x) && !LiveBlock(m, x)
    requires forall y :: y != x ==> (LiveBlock(m', y) <==> LiveBlock(m, y))
    requires forall y :: LiveBlock(m, y) ==> y in m.hdr && y in m'.hdr && m'.hdr[y].user == m.hdr[y].user
    ensures x + HDR !in Live(m)
    ensures Live(m') == Live(m)[x + HDR := m'.hdr[x].user]
  {
    hide Live, LiveBlock;
    LiveIs(m, x + HDR);
    forall p: nat
      ensures p in Live(m') <==> p in Live(m) || p == x + HDR
      ensures p in Live(m') ==> Live(m')[p] == if p == x + HDR then m'.hdr[x].user else Live(m)[p]
    {
      LiveIs(m, p);
      LiveIs(m', p);
    }
  }

  lemma QuietLess(hdr: Headers, hdr': Headers, s: seq<nat>)
    requires Quiet(hdr, s) && forall x :: x in s && IsFree(hdr', x) ==> IsFree(hdr, x)
    ensures Quiet(hdr', s)
  {
  }

  lemma RegionsFrame(m: Arena, m': Arena)
    requires Regions(m) && m'.a == m.a && m'.b == m.b
    requires forall x :: x in m.All() ==> x in m.hdr && x in m'.hdr
    requires forall x :: x in m.All() ==>
               m'.hdr[x].total == m.hdr[x].total && m'.hdr[x].user == m.hdr[x].user &&
                 m'.hdr[x].fromSwap == m.hdr[x].fromSwap
    ensures Regions(m')
  {
    TilesBounds(m.hdr, m.a.tiles, m.a.lo, m.a.hi, m.a.swap);
    TilesBounds(m.hdr, m.b.tiles, m.b.lo, m.b.hi, m.b.swap);
    TilesFrame(m.hdr, m'.hdr, m.a.tiles, m.a.lo, m.a.hi, m.a.swap);
    TilesFrame(m.hdr, m'.hdr, m.b.tiles, m.b.lo, m.b.hi, m.b.swap);
  }

  /** One block of `s` changes its weight. */
  lemma SumChanged(meas: Measure, hdr: Headers, hdr': Headers, s: seq<nat>, x: nat)
    requires NoDup(s) && x in s
    requires forall y :: y in s && y != x ==> WeightAt(meas, hdr', y) == WeightAt(meas, hdr, y)
    ensures Sum(meas, hdr', s) + WeightAt(meas, hdr, x) == Sum(meas, hdr, s) + WeightAt(meas, hdr', x)
  {
    var i :| 0 <= i < |s| && s[i] == x;
    var l, r := s[..i], s[i + 1..];
    assert s == l + [x] + r;
    SumRemove(meas, hdr, l, x, r);
    SumRemove(meas, hdr', l, x, r);
    SumFrame(meas, hdr, hdr', l + r);
  }

  ghost function TakeWhole(m: Arena, k: nat): Arena
    requires k < |m.free| && m.free[k] in m.hdr
  {
    var x, front, rest := m.free[k], m.free[..k], m.free[k + 1..];
    var nxt := m.hdr[x].next;
    var h := m.hdr[x := m.hdr[x].(guard := Active, next := 0)];
    Arena(LinkNext(h, front, nxt), LinkHead(m.head, front, nxt), front + rest, m.a, m.b)
  }

  lemma Parts(s: seq<nat>, k: nat)
    requires NoDup(s) && k < |s|
    ensures s == s[..k] + ([s[k]] + s[k + 1..])
    ensures NoDup(s[..k]) && NoDup(s[..k] + s[k + 1..])
    ensures forall y :: y in s <==> y == s[k] || y in s[..k] || y in s[k + 1..]
    ensures s[k] !in s[..k] && s[k] !in s[k + 1..]
    ensures forall y :: y in s[..k] ==> y !in s[k + 1..]
  {
  }

  /** Unlinking node k leaves a list of the others. */
  lemma Unlinked(hdr: Headers, h: Headers, head: nat, free: seq<nat>, k: nat)
    requires Seg(hdr, head, free, 0) && NoDup(free) && k < |free| && free[k] in hdr
    requires forall y :: y in free && y != free[k] ==> y in hdr && y in h && h[y].next == hdr[y].next
    ensures var nxt := hdr[free[k]].next;
      Seg(LinkNext(h, free[..k], nxt), LinkHead(head, free[..k], nxt), free[..k] + free[k + 1..], 0)
  {
    hide Seg, LinkNext, LinkHead, NoDup;
    Parts(free, k);
    var x, front, rest := free[k], free[..k], free[k + 1..];
    var nxt := hdr[x].next;
    var mid := SegCut(hdr, head, front, [x] + rest, 0);
    SegHead(hdr, mid, x, rest, 0);
    SegFrame(hdr, h, head, front, mid);
    SegFrame(hdr, h, nxt, rest, 0);
    SegNil(h, nxt);
    Splice(h, head, front, mid, [], nxt, rest, nxt);
    assert front + [] + rest == front + rest;
  }

  lemma TookWhole(m: Arena, k: nat)
    requires Consistent(m) && k < |m.free|
    ensures m.free[k] in m.hdr
    ensures Took(m, TakeWhole(m, k), m.free[k], m.hdr[m.free[k]].user)
  {
    hide Seg, LinkNext, LinkHead, Tiled, Live, Sum;
    var x, front, rest := m.free[k], m.free[..k], m.free[k + 1..];
    assert x in m.free;
    SegIn(m.hdr, m.head, m.free, 0);
    var nxt := m.hdr[x].next;
    var h := m.hdr[x := m.hdr[x].(guard := Active, next := 0)];
    var m' := TakeWhole(m, k);
    Unlinked(m.hdr, h, m.head, m.free, k);
    forall y | y in m.All()
      ensures y in m.hdr && y in m'.hdr && m'.hdr[y] == h[y].(next := m'.hdr[y].next)
    {
      BlockFacts(m, y);
      LinkKeeps(h, front, nxt, y);
    }
    RegionsFrame(m, m');
    AllDistinct(m);
    QuietLess(m.hdr, m'.hdr, m.a.tiles);
    QuietLess(m.hdr, m'.hdr, m.b.tiles);
    LiveAdded(m, m', x);
    SumChanged(LiveUser, m.hdr, m'.hdr, m.All(), x);
    Parts(m.free, k);
  }

  ghost function SplitHeaders(m: Arena, x: nat, n: nat): Headers
    requires x in m.hdr && HDR <= n && n + HDR <= m.hdr[x].total
  {
    var h := m.hdr[x];
    m.hdr[x + n := Header(h.total - n, h.total - n - HDR, Freed, h.next, h.fromSwap)]
         [x := Header(n, n - HDR, Active, 0, h.fromSwap)]
  }

  /** Block x = free[k] = a.tiles[i] is cut after `n` bytes; the remainder takes its place on the list. */
  ghost function TakeSplit(m: Arena, k: nat, n: nat, i: nat): Arena
    requires k < |m.free| && m.free[k] in m.hdr && HDR <= n && n + HDR <= m.hdr[m.free[k]].total && i < |m.a.tiles|
  {
    var x, front, rest := m.free[k], m.free[..k], m.free[k + 1..];
    var h := SplitHeaders(m, x, n);
    Arena(LinkNext(h, front, x + n), LinkHead(m.head, front, x + n), front + [x + n] + rest,
          m.a.(tiles := m.a.tiles[..i] + [x, x + n] + m.a.tiles[i + 1..]), m.b)
  }

  /** The remainder starts inside x, so it is none of the other blocks. */
  lemma Inside(m: Arena, x: nat, n: nat)
    requires Regions(m) && x in m.All() && x in m.hdr && 0 < n < m.hdr[x].total
    ensures forall y :: y in m.All() ==> y != x + n
  {
    forall y | y in m.All()
      ensures y != x + n
    {
      BlockFacts(m, y);
      if y != x {
        BlocksApart(m, x, y);
      }
    }
  }

  lemma NoDupReplace(s: seq<nat>, k: nat, y: nat)
    requires NoDup(s) && k < |s| && y !in s
    ensures NoDup(s[..k] + [y] + s[k + 1..])
  {
    var t := s[..k] + [y] + s[k + 1..];
    assert forall i :: 0 <= i < |t| ==> t[i] == if i == k then y else s[i];
  }

  /** Node k of the list is replaced by `rem`, which has inherited its link. */
  lemma Replaced(hdr: Headers, h: Headers, head: nat, free: seq<nat>, k: nat, rem: nat)
    requires Seg(hdr, head, free, 0) && NoDup(free) && k < |free| && free[k] in hdr
    requires rem !in free && rem != 0 && rem in h && h[rem].next == hdr[free[k]].next
    requires forall y :: y in free && y != free[k] ==> y in hdr && y in h && h[y].next == hdr[y].next
    ensures Seg(LinkNext(h, free[..k], rem), LinkHead(head, free[..k], rem), free[..k] + [rem] + free[k + 1..], 0)
  {
    hide Seg, LinkNext, LinkHead, NoDup;
    Parts(free, k);
    var x, front, rest := free[k], free[..k], free[k + 1..];
    var nxt := hdr[x].next;
    var mid := SegCut(hdr, head, front, [x] + rest, 0);
    SegHead(hdr, mid, x, rest, 0);
    SegFrame(hdr, h, head, front, mid);
    SegFrame(hdr, h, nxt, rest, 0);
    SegNil(h, nxt);
    SegCons(h, rem, [], nxt);
    assert [rem] + [] == [rem];
    Splice(h, head, front, mid, [rem], nxt, rest, rem);
  }

  lemma SplitQuiet(hdr: Headers, hdr': Headers, s: seq<nat>, i: nat, rem: nat)
    requires Quiet(hdr, s) && i < |s| && IsFree(hdr, s[i]) && !IsFree(hdr', s[i])
    requires forall y :: y in s && IsFree(hdr', y) ==> IsFree(hdr, y)
    ensures Quiet(hdr', s[..i] + [s[i], rem] + s[i + 1..])
  {
    var t := s[..i] + [s[i], rem] + s[i + 1..];
    forall j | 0 <= j < |t| - 1
      ensures !(IsFree(hdr', t[j]) && IsFree(hdr', t[j + 1]))
    {
      if j < i - 1 {
        assert t[j] == s[j] && t[j + 1] == s[j + 1];
      } else if j > i + 1 {
        assert t[j] == s[j - 1] && t[j + 1] == s[j];
      } else if j == i + 1 {
        assert t[j + 1] == s[i + 1];
      }
    }
  }

  lemma SplitSum(hdr: Headers, hdr': Headers, l: seq<nat>, x: nat, rem: nat, r: seq<nat>)
    requires forall y :: y in l || y in r ==> WeightAt(LiveUser, hdr', y) == WeightAt(LiveUser, hdr, y)
    requires WeightAt(LiveUser, hdr, x) == 0 && WeightAt(LiveUser, hdr', rem) == 0
    ensures Sum(LiveUser, hdr', l + [x, rem] + r) == Sum(LiveUser, hdr, l + [x] + r) + WeightAt(LiveUser, hdr', x)
  {
    SumRemove(LiveUser, hdr, l, x, r);
    assert l + [x, rem] + r == l + [x] + ([rem] + r);
    SumRemove(LiveUser, hdr', l, x, [rem] + r);
    assert l + ([rem] + r) == l + [rem] + r;
    SumRemove(LiveUser, hdr', l, rem, r);
    SumFrame(LiveUser, hdr, hdr', l + r);
  }

  /** What splitting does to the headers. */
  lemma SplitFacts(m: Arena, k: nat, n: nat, i: nat)
    requires Consistent(m) && k < |m.free| && m.free[k] in m.hdr && HDR <= n && n + HDR <= m.hdr[m.free[k]].total
    requires i < |m.a.tiles| && m.a.tiles[i] == m.free[k]
    ensures var x, rem, m' := m.free[k], m.free[k] + n, TakeSplit(m, k, n, i);
      && x in m.All() && rem !in m.All()
      && (forall y :: y in m.All() && y != x ==> Kept(m.hdr, m'.hdr, y))
      && BlockOk(m'.hdr, x, m.a.swap) && m'.hdr[x].total == n && m'.hdr[x].guard == Active
      && BlockOk(m'.hdr, rem, m.a.swap) && m'.hdr[rem].total == m.hdr[x].total - n && m'.hdr[rem].guard == Freed
  {
    hide Seg, LinkNext, LinkHead, Tiles, NoDup, Quiet;
    var x, front := m.free[k], m.free[..k];
    var rem, h, m' := x + n, SplitHeaders(m, x, n), TakeSplit(m, k, n, i);
    assert x in m.free && x in m.a.tiles;
    BlockFacts(m, x);
    Inside(m, x, n);
    LinkKeeps(h, front, rem, x);
    LinkKeeps(h, front, rem, rem);
    forall y | y in m.All() && y != x
      ensures Kept(m.hdr, m'.hdr, y)
    {
      BlockFacts(m, y);
      LinkKeeps(h, front, rem, y);
    }
  }

  lemma SplitListOk(m: Arena, k: nat, n: nat, i: nat)
    requires Consistent(m) && k < |m.free| && m.free[k] in m.hdr && HDR <= n && n + HDR <= m.hdr[m.free[k]].total
    requires i < |m.a.tiles| && m.a.tiles[i] == m.free[k]
    ensures var m' := TakeSplit(m, k, n, i);
      && Seg(m'.hdr, m'.head, m'.free, 0) && NoDup(m'.free)
      && (forall y :: y in m'.free <==> (y in m.free && y != m.free[k]) || y == m.free[k] + n)
  {
    hide Seg, LinkNext, LinkHead, Tiles, NoDup, Quiet, Regions;
    SplitFacts(m, k, n, i);
    SegIn(m.hdr, m.head, m.free, 0);
    Replaced(m.hdr, SplitHeaders(m, m.free[k], n), m.head, m.free, k, m.free[k] + n);
    NoDupReplace(m.free, k, m.free[k] + n);
    Parts(m.free, k);
  }

  lemma SplitConsistent(m: Arena, k: nat, n: nat, i: nat)
    requires Consistent(m) && k < |m.free| && m.free[k] in m.hdr && HDR <= n && n + HDR <= m.hdr[m.free[k]].total
    requires i < |m.a.tiles| && m.a.tiles[i] == m.free[k]
    ensures Consistent(TakeSplit(m, k, n, i))
  {
    var x, rem, m', s := m.free[k], m.free[k] + n, TakeSplit(m, k, n, i), m.a.tiles;
    assert x in m.free;
    SplitFacts(m, k, n, i);
    SplitListOk(m, k, n, i);
    SplitRegions(m, m', x, n, i);
    SplitMembers(m, m', i, rem);
    Members(m);
    hide Seg, LinkNext, LinkHead, Tiles, NoDup, Regions, Quiet, TakeSplit, Arena.All;
    SplitQuiet(m.hdr, m'.hdr, s, i, rem);
    QuietLess(m.hdr, m'.hdr, m.b.tiles);
  }

  lemma TookSplit(m: Arena, k: nat, n: nat, i: nat)
    requires Consistent(m) && k < |m.free| && m.free[k] in m.hdr && HDR <= n && n + HDR <= m.hdr[m.free[k]].total
    requires i < |m.a.tiles| && m.a.tiles[i] == m.free[k]
    ensures Took(m, TakeSplit(m, k, n, i), m.free[k], n - HDR)
  {
    hide Seg, LinkNext, LinkHead, Tiles, Live, Sum, NoDup, Regions, Quiet;
    var x, rem, m', s := m.free[k], m.free[k] + n, TakeSplit(m, k, n, i), m.a.tiles;
    assert x in m.free;
    SplitFacts(m, k, n, i);
    SplitConsistent(m, k, n, i);
    SplitMembers(m, m', i, rem);
    LiveAdded(m, m', x);
    SplitUser(m, m', x, rem, i);
  }

  lemma SplitUser(m: Arena, m': Arena, x: nat, rem: nat, i: nat)
    requires Regions(m) && i < |m.a.tiles| && m.a.tiles[i] == x && m'.b == m.b
    requires m'.a.tiles == m.a.tiles[..i] + [x, rem] + m.a.tiles[i + 1..]
    requires forall y :: y in m.All() && y != x ==> Kept(m.hdr, m'.hdr, y)
    requires IsFree(m.hdr, x) && IsFree(m'.hdr, rem) && x in m'.hdr && m'.hdr[x].guard == Active
    ensures Sum(LiveUser, m'.hdr, m'.All()) == Sum(LiveUser, m.hdr, m.All()) + m'.hdr[x].user
  {
    hide Sum, NoDup, Regions;
    AllDistinct(m);
    var s := m.a.tiles;
    var l, r := s[..i], s[i + 1..] + m.b.tiles;
    assert m.All() == l + [x] + r && m'.All() == l + [x, rem] + r;
    AroundDistinct(l, x, r);
    SplitSum(m.hdr, m'.hdr, l, x, rem, r);
  }

  lemma AroundDistinct(l: seq<nat>, x: nat, r: seq<nat>)
    requires NoDup(l + [x] + r)
    ensures x !in l && x !in r
    ensures forall y :: y in l || y in r ==> y in l + [x] + r
  {
    var s := l + [x] + r;
    assert s[|l|] == x;
    forall i | 0 <= i < |l|
      ensures l[i] != x
    {
      assert s[i] == l[i];
    }
    forall i | 0 <= i < |r|
      ensures r[i] != x
    {
      assert s[|l| + 1 + i] == r[i];
    }
  }

  lemma SplitMembers(m: Arena, m': Arena, i: nat, rem: nat)
    requires i < |m.a.tiles| && m'.b == m.b
    requires m'.a.tiles == m.a.tiles[..i] + [m.a.tiles[i], rem] + m.a.tiles[i + 1..]
    ensures forall y :: y in m'.All() <==> y in m.All() || y == rem
  {
    var s, t := m.a.tiles, m'.a.tiles;
    assert s == s[..i] + [s[i]] + s[i + 1..];
    assert forall y :: y in t <==> y in s[..i] || y == s[i] || y == rem || y in s[i + 1..];
    assert forall y :: y in s <==> y in s[..i] || y == s[i] || y in s[i + 1..];
  }

  lemma SplitRegions(m: Arena, m': Arena, x: nat, n: nat, i: nat)
    requires Regions(m) && i < |m.a.tiles| && m.a.tiles[i] == x && x in m.hdr && HDR <= n && n + HDR <= m.hdr[x].total
    requires m'.b == m.b && m'.a == m.a.(tiles := m.a.tiles[..i] + [x, x + n] + m.a.tiles[i + 1..])
    requires forall y :: y in m.All() && y != x ==> Kept(m.hdr, m'.hdr, y)
    requires BlockOk(m'.hdr, x, m.a.swap) && m'.hdr[x].total == n
    requires BlockOk(m'.hdr, x + n, m.a.swap) && m'.hdr[x + n].total == m.hdr[x].total - n
    ensures Regions(m')
  {
    hide Tiles, NoDup;
    var s := m.a.tiles;
    assert x in s;
    TilesBounds(m.hdr, s, m.a.lo, m.a.hi, m.a.swap);
    TilesBounds(m.hdr, m.b.tiles, m.b.lo, m.b.hi, m.b.swap);
    AllDistinct(m);
    var r := s[i + 1..] + m.b.tiles;
    assert m.All() == s[..i] + [x] + r;
    AroundDistinct(s[..i], x, r);
    forall y | y in m.b.tiles
      ensures SameSize(m.hdr, m'.hdr, y, m.b.swap)
    {
      assert y in m.All() && y in r;
    }
    TilesFrame(m.hdr, m'.hdr, m.b.tiles, m.b.lo, m.b.hi, m.b.swap);
    assert s == s[..i] + [x] + s[i + 1..];
    forall y | y in s[..i] || y in s[i + 1..]
      ensures SameSize(m.hdr, m'.hdr, y, m.a.swap)
    {
      assert y in s && y in m.All() && y != x;
    }
    TilesSplit(m.hdr, m'.hdr, s[..i], x, s[i + 1..], n, m.a.lo, m.a.hi, m.a.swap);
  }
}
