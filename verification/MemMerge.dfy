/** mem_free on values: putting a block back, merging it with its neighbours, dropping absorbed nodes. */
module MemMerge {
  import opened Common
  import opened MemArena
  import opened MemList
  import opened MemState

  // ----- a fresh block at the end of region a

  ghost function Fresh(m: Arena, n: nat): Arena
    requires n >= HDR
  {
    var x := m.a.hi;
    m.(hdr := m.hdr[x := Header(n, n - HDR, Active, 0, m.a.swap)],
       a := Region(m.a.lo, x + n, m.a.tiles + [x], m.a.swap))
  }

  lemma FreshFacts(m: Arena, n: nat)
    requires Regions(m) && n >= HDR && (m.a.hi + n <= m.b.lo || m.b.hi <= m.a.lo)
    ensures var x, m' := m.a.hi, Fresh(m, n);
      && Regions(m') && x !in m.All()
      && (forall y :: y in m.All() ==> y in m.hdr && y in m'.hdr && m'.hdr[y] == m.hdr[y])
      && (forall y :: y in m'.All() <==> y in m.All() || y == x)
  {
    hide Tiles;
    var x, m' := m.a.hi, Fresh(m, n);
    TilesBounds(m.hdr, m.a.tiles, m.a.lo, m.a.hi, m.a.swap);
    TilesBounds(m.hdr, m.b.tiles, m.b.lo, m.b.hi, m.b.swap);
    Members(m);
    Members(m');
    assert x !in m.All();
    assert forall y :: y in m'.a.tiles <==> y in m.a.tiles || y == x;
    TilesGrow(m.hdr, m'.hdr, m.a.tiles, m.a.lo, m.a.hi, n, m.a.swap);
    TilesFrame(m.hdr, m'.hdr, m.b.tiles, m.b.lo, m.b.hi, m.b.swap);
  }

  lemma TookFresh(m: Arena, n: nat)
    requires Consistent(m) && n >= HDR && (m.a.hi + n <= m.b.lo || m.b.hi <= m.a.lo)
    ensures Took(m, Fresh(m, n), m.a.hi, n - HDR)
  {
    hide Seg, Regions, Live, Sum, NoDup, Quiet, Arena.All;
    var x, m' := m.a.hi, Fresh(m, n);
    FreshFacts(m, n);
    Members(m);
    SegIn(m.hdr, m.head, m.free, 0);
    SegFrame(m.hdr, m'.hdr, m.head, m.free, 0);
    FreshQuiet(m.hdr, m'.hdr, m.a.tiles, x);
    QuietLess(m.hdr, m'.hdr, m.b.tiles);
    LiveAdded(m, m', x);
    FreshUser(m, m', x);
  }

  lemma FreshQuiet(hdr: Headers, hdr': Headers, s: seq<nat>, x: nat)
    requires Quiet(hdr, s) && !IsFree(hdr', x)
    requires forall y :: y in s && IsFree(hdr', y) ==> IsFree(hdr, y)
    ensures Quiet(hdr', s + [x])
  {
    var t := s + [x];
    forall j | 0 <= j < |t| - 1
      ensures !(IsFree(hdr', t[j]) && IsFree(hdr', t[j + 1]))
    {
      assert t[j] == s[j];
      if j + 1 < |s| {
        assert t[j + 1] == s[j + 1];
      }
    }
  }

  lemma FreshUser(m: Arena, m': Arena, x: nat)
    requires m'.a.tiles == m.a.tiles + [x] && m'.b == m.b && x in m'.hdr && m'.hdr[x].guard == Active
    requires forall y :: y in m.All() ==> y in m.hdr && y in m'.hdr && m'.hdr[y] == m.hdr[y]
    ensures Sum(LiveUser, m'.hdr, m'.All()) == Sum(LiveUser, m.hdr, m.All()) + m'.hdr[x].user
  {
    assert m'.All() == m.a.tiles + [x] + m.b.tiles;
    SumRemove(LiveUser, m'.hdr, m.a.tiles, x, m.b.tiles);
    SumFrame(LiveUser, m.hdr, m'.hdr, m.All());
  }

  // ----- putting a block back

  /** A node whose block has been swallowed by `blk`: size zero, strictly inside it. */
  ghost predicate Absorbed(m: Arena, blk: nat, x: nat) {
    x in m.hdr && m.hdr[x].total == 0 && blk < x < End(m.hdr, blk)
  }

  /** Only pairs with `blk` may be free neighbours. */
  ghost predicate QuietBut(hdr: Headers, s: seq<nat>, blk: nat) {
    forall i :: 0 <= i < |s| - 1 && IsFree(hdr, s[i]) && IsFree(hdr, s[i + 1]) ==> s[i] == blk || s[i + 1] == blk
  }

  /** Between freeing `blk` and the end of the merge: like Consistent, but `blk` may have free
      neighbours and absorbed nodes may still be on the list. */
  ghost predicate Merging(m: Arena, blk: nat) {
    && Regions(m)
    && Seg(m.hdr, m.head, m.free, 0) && NoDup(m.free)
    && blk in m.a.tiles && blk in m.free && IsFree(m.hdr, blk)
    && (forall x :: x in m.free ==> (x in m.All() && IsFree(m.hdr, x)) || Absorbed(m, blk, x))
    && (forall x :: x in m.All() && IsFree(m.hdr, x) ==> x in m.free)
    && QuietBut(m.hdr, m.a.tiles, blk) && Quiet(m.hdr, m.b.tiles)
  }

  ghost function Released(m: Arena, x: nat): Arena
    requires x in m.hdr
  {
    m.(hdr := m.hdr[x := m.hdr[x].(guard := Freed, next := m.head)], head := x, free := [x] + m.free)
  }

  lemma LiveRemoved(m: Arena, m': Arena, x: nat)
    requires LiveBlock(m, x) && !LiveBlock(m', x)
    requires forall y :: y != x ==> (LiveBlock(m', y) <==> LiveBlock(m, y))
    requires forall y :: LiveBlock(m', y) ==> y in m.hdr && y in m'.hdr && m'.hdr[y].user == m.hdr[y].user
    ensures Live(m') == Live(m) - {x + HDR}
  {
    hide Live, LiveBlock;
    forall p: nat
      ensures p in Live(m') <==> p in Live(m) && p != x + HDR
      ensures p in Live(m') ==> Live(m')[p] == Live(m)[p]
    {
      LiveIs(m, p);
      LiveIs(m', p);
    }
  }

  lemma ReleasedMerging(m: Arena, x: nat)
    requires Consistent(m) && x in m.a.tiles && LiveBlock(m, x)
    ensures var m' := Released(m, x);
      && Merging(m', x)
      && Live(m') == Live(m) - {x + HDR}
      && Sum(LiveUser, m'.hdr, m'.All()) + m.hdr[x].user == Sum(LiveUser, m.hdr, m.All())
  {
    hide Seg, Live, Sum, Tiled;
    var m' := Released(m, x);
    Members(m);
    BlockFacts(m, x);
    forall y | y in m.All()
      ensures y in m.hdr
    {
      BlockFacts(m, y);
    }
    RegionsFrame(m, m');
    SegIn(m.hdr, m.head, m.free, 0);
    SegFrame(m.hdr, m'.hdr, m.head, m.free, 0);
    SegCons(m'.hdr, x, m.free, 0);
    assert forall y :: y in m'.free <==> y == x || y in m.free;
    QuietLess(m.hdr, m'.hdr, m.b.tiles) by {
      AllDistinct(m);
      NotInOther(m, x);
    }
    LiveRemoved(m, m', x);
    AllDistinct(m);
    SumChanged(LiveUser, m.hdr, m'.hdr, m.All(), x);
  }

  lemma NotInOther(m: Arena, x: nat)
    requires Regions(m) && x in m.a.tiles
    ensures x !in m.b.tiles
  {
    TilesBounds(m.hdr, m.a.tiles, m.a.lo, m.a.hi, m.a.swap);
    TilesBounds(m.hdr, m.b.tiles, m.b.lo, m.b.hi, m.b.swap);
  }

  // ----- merging

  /** Block i + 1 of region a is absorbed by block i. */
  ghost function Merged(m: Arena, i: nat): Arena
    requires i + 1 < |m.a.tiles| && m.a.tiles[i] in m.hdr && m.a.tiles[i + 1] in m.hdr
  {
    var l, r := m.a.tiles[i], m.a.tiles[i + 1];
    var total := m.hdr[l].total + m.hdr[r].total;
    var user := if total >= HDR then total - HDR else 0;
    m.(hdr := m.hdr[l := m.hdr[l].(total := total, user := user)][r := m.hdr[r].(total := 0)],
       a := m.a.(tiles := m.a.tiles[..i + 1] + m.a.tiles[i + 2..]))
  }

  lemma MergedMembers(m: Arena, i: nat)
    requires Regions(m) && i + 1 < |m.a.tiles|
    ensures m.a.tiles[i] in m.hdr && m.a.tiles[i + 1] in m.hdr && m.a.tiles[i] < m.a.tiles[i + 1]
    ensures End(m.hdr, m.a.tiles[i]) == m.a.tiles[i + 1]
    ensures forall y :: y in Merged(m, i).All() <==> y in m.All() && y != m.a.tiles[i + 1]
  {
    var s := m.a.tiles;
    var l, r := s[i], s[i + 1];
    TilesBounds(m.hdr, s, m.a.lo, m.a.hi, m.a.swap);
    assert l in s && r in s;
    AllDistinct(m);
    var front, rest := s[..i + 1], s[i + 2..] + m.b.tiles;
    assert m.All() == front + [r] + rest;
    AroundDistinct(front, r, rest);
    assert Merged(m, i).All() == front + rest;
    TilesApart(m.hdr, s, m.a.lo, m.a.hi, m.a.swap, i, i + 1);
    assert s == s[..i + 1] + s[i + 1..];
    var mid := TilesCut(m.hdr, s[..i + 1], s[i + 1..], m.a.lo, m.a.hi, m.a.swap);
    LastEnd(m.hdr, s[..i + 1], m.a.lo, mid, m.a.swap);
  }

  lemma MergedTiles(hdr: Headers, hdr': Headers, s: seq<nat>, i: nat, lo: nat, hi: nat, swap: bool)
    requires Tiles(hdr, s, lo, hi, swap) && i + 1 < |s| && s[i] in hdr && s[i + 1] in hdr
    requires BlockOk(hdr', s[i], swap) && hdr'[s[i]].total == hdr[s[i]].total + hdr[s[i + 1]].total
    requires forall y :: y in s && y != s[i] && y != s[i + 1] ==> y in hdr && y in hdr' && hdr'[y] == hdr[y]
    ensures Tiles(hdr', s[..i + 1] + s[i + 2..], lo, hi, swap)
  {
    hide Tiles;
    TilesBounds(hdr, s, lo, hi, swap);
    TilesDistinct(hdr, s, lo, hi, swap);
    var front, l, r, rest := s[..i], s[i], s[i + 1], s[i + 2..];
    assert s == front + [l, r] + rest;
    assert s[..i + 1] + s[i + 2..] == front + [l] + rest;
    forall y | y in front || y in rest
      ensures SameSize(hdr, hdr', y, swap)
    {
      PairApart(s, i, y);
    }
    TilesMerge(hdr, hdr', front, l, r, rest, lo, hi, swap);
  }

  lemma MergedRegions(m: Arena, i: nat)
    requires Regions(m) && i + 1 < |m.a.tiles| && m.a.tiles[i] in m.hdr && m.a.tiles[i + 1] in m.hdr
    ensures Regions(Merged(m, i))
    ensures forall y :: y in m.hdr && y != m.a.tiles[i] && y != m.a.tiles[i + 1] ==>
              y in Merged(m, i).hdr && Merged(m, i).hdr[y] == m.hdr[y]
  {
    hide Tiles, NoDup;
    var s, m' := m.a.tiles, Merged(m, i);
    var l, r := s[i], s[i + 1];
    TilesBounds(m.hdr, s, m.a.lo, m.a.hi, m.a.swap);
    TilesBounds(m.hdr, m.b.tiles, m.b.lo, m.b.hi, m.b.swap);
    assert l in s && r in s;
    MergedMembers(m, i);
    NotInOther(m, l);
    NotInOther(m, r);
    TilesFrame(m.hdr, m'.hdr, m.b.tiles, m.b.lo, m.b.hi, m.b.swap);
    MergedTiles(m.hdr, m'.hdr, s, i, m.a.lo, m.a.hi, m.a.swap);
  }

  lemma PairApart(s: seq<nat>, i: nat, y: nat)
    requires i + 1 < |s| && (y in s[..i] || y in s[i + 2..])
    requires forall j, k :: 0 <= j < k < |s| ==> s[j] != s[k]
    ensures y in s && y != s[i] && y != s[i + 1]
  {
    if y in s[..i] {
      var j :| 0 <= j < i && s[..i][j] == y;
      assert s[j] == y;
    } else {
      var j :| 0 <= j < |s[i + 2..]| && s[i + 2..][j] == y;
      assert s[i + 2 + j] == y;
    }
  }

  lemma MergedQuiet(hdr: Headers, hdr': Headers, s: seq<nat>, i: nat, blk: nat)
    requires QuietBut(hdr, s, blk) && i + 1 < |s| && (s[i] == blk || s[i + 1] == blk)
    requires forall y :: y in s ==> (IsFree(hdr', y) <==> IsFree(hdr, y))
    requires forall j, k :: 0 <= j < k < |s| ==> s[j] != s[k]
    ensures QuietBut(hdr', s[..i + 1] + s[i + 2..], s[i])
  {
    var t := s[..i + 1] + s[i + 2..];
    forall j | 0 <= j < |t| - 1 && IsFree(hdr', t[j]) && IsFree(hdr', t[j + 1])
      ensures t[j] == s[i] || t[j + 1] == s[i]
    {
      if j < i {
        assert t[j] == s[j] && t[j + 1] == s[j + 1];
      } else if j > i {
        assert t[j] == s[j + 1] && t[j + 1] == s[j + 2];
      }
    }
  }

  lemma MergedUser(m: Arena, i: nat)
    requires Regions(m) && i + 1 < |m.a.tiles| && IsFree(m.hdr, m.a.tiles[i]) && IsFree(m.hdr, m.a.tiles[i + 1])
    ensures Sum(LiveUser, Merged(m, i).hdr, Merged(m, i).All()) == Sum(LiveUser, m.hdr, m.All())
  {
    hide Sum, Regions;
    var s, m' := m.a.tiles, Merged(m, i);
    var r := s[i + 1];
    var front, rest := s[..i + 1], s[i + 2..] + m.b.tiles;
    assert m.All() == front + [r] + rest;
    assert m'.All() == front + rest;
    SumRemove(LiveUser, m.hdr, front, r, rest);
    SumFrame(LiveUser, m.hdr, m'.hdr, front + rest);
  }

  /** A merge step keeps the merging invariant, with the front block as the one being merged. */
  lemma MergedMerging(m: Arena, blk: nat, i: nat)
    requires Merging(m, blk) && i + 1 < |m.a.tiles|
    requires m.a.tiles[i] == blk || m.a.tiles[i + 1] == blk
    requires IsFree(m.hdr, m.a.tiles[i]) && IsFree(m.hdr, m.a.tiles[i + 1])
    ensures var m' := Merged(m, i);
      && Merging(m', m.a.tiles[i])
      && Live(m') == Live(m)
      && Sum(LiveUser, m'.hdr, m'.All()) == Sum(LiveUser, m.hdr, m.All())
  {
    hide Seg, Live, Sum, Tiles, NoDup, Arena.All, Quiet;
    var s, m' := m.a.tiles, Merged(m, i);
    var l, r := s[i], s[i + 1];
    assert l in s && r in s;
    Members(m);
    Members(m');
    MergedMembers(m, i);
    MergedRegions(m, i);
    BlockFacts(m, l);
    BlockFacts(m, r);
    SegIn(m.hdr, m.head, m.free, 0);
    SegFrame(m.hdr, m'.hdr, m.head, m.free, 0);
    TilesDistinct(m.hdr, s, m.a.lo, m.a.hi, m.a.swap);
    forall y | y in m.All()
      ensures y in m.hdr && y in m'.hdr && m'.hdr[y].guard == m.hdr[y].guard
      ensures y != l && y != r ==> m'.hdr[y] == m.hdr[y]
    {
      BlockFacts(m, y);
    }
    MergedQuiet(m.hdr, m'.hdr, s, i, blk);
    QuietLess(m.hdr, m'.hdr, m.b.tiles);
    LiveSame(m, m');
    MergedUser(m, i);
  }

  /** A list node that touches `blk` is a block of the same region next to it: an absorbed node
      lies strictly inside `blk` and can never look adjacent again. */
  lemma TouchLeft(m: Arena, blk: nat, it: nat) returns (i: nat)
    requires Merging(m, blk) && it in m.free && it != blk && it in m.hdr && blk in m.hdr
    requires m.hdr[it].fromSwap == m.hdr[blk].fromSwap && it + m.hdr[it].total == blk
    ensures i + 1 < |m.a.tiles| && m.a.tiles[i] == it && m.a.tiles[i + 1] == blk && IsFree(m.hdr, it) &&
            m.hdr[it].total >= HDR
  {
    hide Seg, Tiles, NoDup, Quiet, QuietBut;
    Members(m);
    BlockFacts(m, blk);
    assert !Absorbed(m, blk, it);
    BlockFacts(m, it);
    i := Neighbours(m.hdr, m.a.tiles, m.a.lo, m.a.hi, m.a.swap, it, blk);
  }

  lemma TouchRight(m: Arena, blk: nat, it: nat) returns (i: nat)
    requires Merging(m, blk) && it in m.free && it != blk && it in m.hdr && blk in m.hdr
    requires m.hdr[it].fromSwap == m.hdr[blk].fromSwap && blk + m.hdr[blk].total == it
    ensures i + 1 < |m.a.tiles| && m.a.tiles[i] == blk && m.a.tiles[i + 1] == it && IsFree(m.hdr, it) &&
            m.hdr[it].total >= HDR
  {
    hide Seg, Tiles, NoDup, Quiet, QuietBut;
    Members(m);
    BlockFacts(m, blk);
    assert !Absorbed(m, blk, it);
    BlockFacts(m, it);
    i := Neighbours(m.hdr, m.a.tiles, m.a.lo, m.a.hi, m.a.swap, blk, it);
  }

  /** When nothing on the list touches `blk` any more, no two free blocks are neighbours. */
  lemma MergeDone(m: Arena, blk: nat)
    requires Merging(m, blk)
    requires forall x :: x in m.free && x != blk && x in m.a.tiles ==> End(m.hdr, x) != blk && End(m.hdr, blk) != x
    ensures Quiet(m.hdr, m.a.tiles)
  {
    var s := m.a.tiles;
    Members(m);
    forall i | 0 <= i < |s| - 1
      ensures !(IsFree(m.hdr, s[i]) && IsFree(m.hdr, s[i + 1]))
    {
      MergedMembers(m, i);
      assert s[i] in s && s[i + 1] in s;
    }
  }

  // ----- dropping absorbed nodes

  ghost function Nonempty(hdr: Headers, s: seq<nat>): seq<nat> {
    if s == [] then [] else
      Nonempty(hdr, s[..|s| - 1]) + var x := s[|s| - 1]; if x in hdr && hdr[x].total == 0 then [] else [x]
  }

  lemma {:induction false} NonemptyIs(hdr: Headers, s: seq<nat>)
    ensures forall x :: x in Nonempty(hdr, s) <==> x in s && !(x in hdr && hdr[x].total == 0)
    ensures NoDup(s) ==> NoDup(Nonempty(hdr, s))
  {
    if s != [] {
      var n := |s| - 1;
      NonemptyIs(hdr, s[..n]);
      assert s == s[..n] + [s[n]];
      assert forall x :: x in s <==> x in s[..n] || x == s[n];
      if NoDup(s) {
        assert s[n] !in s[..n];
      }
    }
  }

  /** State of the unlinking loop at node i: `kept` is linked from the head up to node i, and the
      rest of the list is still as it was. */
  ghost predicate Compacting(m: Arena, hdr: Headers, head: nat, kept: seq<nat>, i: nat) {
    && i <= |m.free| && NoDup(m.free)
    && kept == Nonempty(m.hdr, m.free[..i])
    && (forall x :: x in m.hdr ==> Kept(m.hdr, hdr, x))
    && (forall x :: x in m.free ==> x in m.hdr && x != 0)
    && Seg(hdr, head, kept, if i < |m.free| then m.free[i] else 0)
    && Seg(hdr, if i < |m.free| then m.free[i] else 0, m.free[i..], 0)
  }

  lemma CompactStart(m: Arena)
    requires Seg(m.hdr, m.head, m.free, 0) && NoDup(m.free)
    ensures Compacting(m, m.hdr, m.head, [], 0)
  {
    SegIn(m.hdr, m.head, m.free, 0);
    assert m.free[..0] == [] && m.free[0..] == m.free;
  }

  /** Nodes kept so far are none of the nodes still to come. */
  lemma KeptApart(m: Arena, i: nat)
    requires NoDup(m.free) && i <= |m.free|
    ensures var kept := Nonempty(m.hdr, m.free[..i]);
      NoDup(kept) && forall x :: x in kept ==> x in m.free && x !in m.free[i..]
  {
    NonemptyIs(m.hdr, m.free[..i]);
    assert forall x :: x in m.free[..i] ==> x in m.free && x !in m.free[i..];
  }

  lemma NonemptyStep(hdr: Headers, s: seq<nat>, i: nat)
    requires i < |s| && s[i] in hdr
    ensures Nonempty(hdr, s[..i + 1]) == Nonempty(hdr, s[..i]) + if hdr[s[i]].total == 0 then [] else [s[i]]
  {
    assert s[..i + 1][..i] == s[..i];
  }

  lemma CompactFacts(m: Arena, hdr: Headers, head: nat, kept: seq<nat>, i: nat)
    requires Compacting(m, hdr, head, kept, i) && i < |m.free|
    ensures m.free[i] in m.hdr && m.free[i] in hdr && hdr[m.free[i]].total == m.hdr[m.free[i]].total
    ensures hdr[m.free[i]].next == if i + 1 < |m.free| then m.free[i + 1] else 0
    ensures kept != [] ==> kept[|kept| - 1] in hdr && kept[|kept| - 1] != 0
    ensures Seg(hdr, hdr[m.free[i]].next, m.free[i + 1..], 0)
  {
    assert m.free[i] in m.free;
    assert m.free[i..] == [m.free[i]] + m.free[i + 1..];
    SegHead(hdr, m.free[i], m.free[i], m.free[i + 1..], 0);
    SegIn(hdr, hdr[m.free[i]].next, m.free[i + 1..], 0);
    SegIn(hdr, head, kept, m.free[i]);
    assert kept != [] ==> kept[|kept| - 1] in kept;
  }

  lemma CompactDrop(m: Arena, hdr: Headers, head: nat, kept: seq<nat>, i: nat)
    requires Compacting(m, hdr, head, kept, i) && i < |m.free| && m.free[i] in hdr && hdr[m.free[i]].total == 0
    ensures var nxt := hdr[m.free[i]].next;
      Compacting(m, LinkNext(hdr, kept, nxt), LinkHead(head, kept, nxt), kept, i + 1)
  {
    hide Seg, Nonempty, LinkNext, LinkHead, NoDup;
    var nxt := hdr[m.free[i]].next;
    CompactFacts(m, hdr, head, kept, i);
    KeptApart(m, i);
    NonemptyStep(m.hdr, m.free, i);
    assert kept + [] == kept;
    Relink(hdr, head, kept, m.free[i], nxt);
    var hdr' := LinkNext(hdr, kept, nxt);
    forall x | x in m.hdr
      ensures Kept(m.hdr, hdr', x)
    {
      LinkKeeps(hdr, kept, nxt, x);
    }
    SegIn(hdr, nxt, m.free[i + 1..], 0);
    LinkOthers(hdr, kept, nxt, m.free[i + 1..]) by {
      assert m.free[i..] == [m.free[i]] + m.free[i + 1..];
    }
    SegFrame(hdr, hdr', nxt, m.free[i + 1..], 0);
  }

  lemma LinkOthers(hdr: Headers, front: seq<nat>, x: nat, s: seq<nat>)
    requires forall y :: y in front ==> y !in s
    requires forall y :: y in s ==> y in hdr
    ensures forall y :: y in s ==> y in LinkNext(hdr, front, x) && LinkNext(hdr, front, x)[y] == hdr[y]
  {
    assert front != [] ==> front[|front| - 1] in front;
  }

  lemma CompactKeep(m: Arena, hdr: Headers, head: nat, kept: seq<nat>, i: nat)
    requires Compacting(m, hdr, head, kept, i) && i < |m.free| && m.free[i] in hdr && hdr[m.free[i]].total != 0
    ensures Compacting(m, hdr, head, kept + [m.free[i]], i + 1)
  {
    hide Seg, Nonempty, NoDup;
    var x := m.free[i];
    CompactFacts(m, hdr, head, kept, i);
    NonemptyStep(m.hdr, m.free, i);
    SegNil(hdr, hdr[x].next);
    SegCons(hdr, x, [], hdr[x].next);
    assert [x] + [] == [x];
    assert x != 0 by { assert x in m.free; }
    SegConcat(hdr, head, kept, x, [x], hdr[x].next);
  }

  /** After the merge and the removal of the absorbed nodes the arena is consistent again. */
  lemma Compacted(m: Arena, blk: nat, hdr': Headers, head': nat)
    requires Merging(m, blk) && Quiet(m.hdr, m.a.tiles)
    requires forall x :: x in m.hdr ==> Kept(m.hdr, hdr', x)
    requires Seg(hdr', head', Nonempty(m.hdr, m.free), 0)
    ensures var m' := m.(hdr := hdr', head := head', free := Nonempty(m.hdr, m.free));
      && Consistent(m') && Live(m') == Live(m)
      && Sum(LiveUser, m'.hdr, m'.All()) == Sum(LiveUser, m.hdr, m.All())
  {
    hide Seg, Live, Sum, Tiled, Nonempty, Quiet, NoDup;
    var m' := m.(hdr := hdr', head := head', free := Nonempty(m.hdr, m.free));
    Members(m);
    Members(m');
    forall y | y in m.All()
      ensures y in m.hdr && m.hdr[y].total >= HDR
    {
      BlockFacts(m, y);
    }
    RegionsFrame(m, m');
    NonemptyIs(m.hdr, m.free);
    QuietLess(m.hdr, hdr', m.a.tiles);
    QuietLess(m.hdr, hdr', m.b.tiles);
    LiveSame(m, m');
    SumFrame(LiveUser, m.hdr, hdr', m.All());
  }
}
