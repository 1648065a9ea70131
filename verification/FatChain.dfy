/** Cluster chains over the table, and the bytes a chain spells out. */
module FatChain {
  import opened Common
  import opened Bytes
  import opened FatLayout

  predicate IsEoc(v: nat) { v >= FAT32_EOC }

  /** `s` follows the links of `fat` and stops at an end mark; [] is the chain of an empty file. */
  ghost predicate Path(fat: seq<nat>, s: seq<nat>) {
    && |fat| <= FAT32_EOC
    && (forall i :: 0 <= i < |s| ==> 2 <= s[i] < |fat|)
    && (forall i :: 0 <= i < |s| - 1 ==> fat[s[i]] == s[i + 1])
    && (|s| > 0 ==> IsEoc(fat[s[|s| - 1]]))
  }

  /** `s` is the chain whose first cluster is recorded as `first` (0: none). */
  ghost predicate Chain(fat: seq<nat>, first: nat, s: seq<nat>) {
    && Path(fat, s)
    && (first == 0 <==> s == [])
    && (s != [] ==> s[0] == first)
  }

  /** None of the n entries stands for a free cluster. */
  ghost predicate NoFree(fat: seq<nat>, n: nat) { forall c :: 2 <= c < n && c < |fat| ==> fat[c] != 0 }

  /** Which values of the table link, which end a chain, and which do neither. */
  lemma EndMarks()
    ensures var fat := [0, 0, 3, 0x0FFF_FFFF, 0x0FFF_FFF8, 0x0FFF_FFF7, 0];
      && Chain(fat, 2, [2, 3]) && Chain(fat, 4, [4]) && !Path(fat, [2]) && !Path(fat, [5]) && !Path(fat, [6])
  {
  }

  lemma PathEnd(fat: seq<nat>, s: seq<nat>, i: nat)
    requires Path(fat, s) && i < |s|
    ensures 2 <= s[i] < |fat| && (IsEoc(fat[s[i]]) <==> i + 1 == |s|)
    ensures i + 1 < |s| ==> fat[s[i]] == s[i + 1] && 2 <= s[i + 1] < |fat|
  {
    if i + 1 < |s| {
      assert fat[s[i]] == s[i + 1];
    }
  }

  /** A first cluster determines its chain. */
  lemma ChainUnique(fat: seq<nat>, first: nat, s: seq<nat>, t: seq<nat>)
    requires Chain(fat, first, s) && Chain(fat, first, t)
    ensures s == t
  {
    if s != [] {
      var i := 0;
      while i + 1 < |s| && i + 1 < |t|
        invariant i < |s| && i < |t|
        invariant s[..i + 1] == t[..i + 1]
      {
        assert fat[s[i]] == s[i + 1] && fat[t[i]] == t[i + 1];
        i := i + 1;
      }
      assert s[i] == s[..i + 1][i] == t[..i + 1][i] == t[i];
      PathEnd(fat, s, i);
      PathEnd(fat, t, i);
      assert s == s[..i + 1] && t == t[..i + 1];
    }
  }

  /** An end-marked chain never comes back to a cluster. */
  lemma {:induction false} PathNoDup(fat: seq<nat>, s: seq<nat>)
    requires Path(fat, s)
    ensures NoDup(s)
  {
    forall i, j | 0 <= i < j < |s|
      ensures s[i] != s[j]
    {
      NoReturn(fat, s, i, j);
    }
  }

  lemma {:induction false} NoReturn(fat: seq<nat>, s: seq<nat>, i: nat, j: nat)
    requires Path(fat, s) && i < j < |s|
    ensures s[i] != s[j]
    decreases |s| - j
  {
    if s[i] == s[j] {
      assert fat[s[i]] == s[i + 1];
      if j + 1 < |s| {
        NoReturn(fat, s, i + 1, j + 1);
      }
    }
  }

  /** Chains only depend on the entries of their own clusters. */
  lemma PathFrame(fat: seq<nat>, fat': seq<nat>, s: seq<nat>)
    requires Path(fat, s) && |fat'| == |fat|
    requires forall i :: 0 <= i < |s| ==> fat'[s[i]] == fat[s[i]]
    ensures Path(fat', s)
  {
  }

  lemma PathInUse(fat: seq<nat>, s: seq<nat>, i: nat)
    requires Path(fat, s) && i < |s|
    ensures fat[s[i]] != 0
  {
    if i + 1 < |s| {
      assert fat[s[i]] == s[i + 1];
    }
  }

  /** A chain is no longer than the volume has clusters. */
  lemma PathLength(fat: seq<nat>, s: seq<nat>)
    requires Path(fat, s) && |fat| >= 2
    ensures |s| <= |fat| - 2
  {
    PathNoDup(fat, s);
    Pigeonhole(s, |fat|);
  }

  lemma {:induction false} Pigeonhole(s: seq<nat>, n: nat)
    requires NoDup(s) && n >= 2
    requires forall i :: 0 <= i < |s| ==> 2 <= s[i] < n
    ensures |s| <= n - 2
    decreases n
  {
    if s == [] {
      return;
    }
    assert 2 <= s[0] < n;
    if n - 1 in s {
      var k :| 0 <= k < |s| && s[k] == n - 1;
      Pigeonhole(s[..k] + s[k + 1..], n - 1);
    } else {
      Pigeonhole(s, n - 1);
    }
  }

  // ----- growing a chain

  /** From disk `a` to disk `b` the chain `s` has grown to `t`: the new clusters were free and
      are zero-filled, and no other cluster has changed its entry or its bytes. */
  ghost predicate Grown(a: Disk, s: seq<nat>, b: Disk, t: seq<nat>, csz: nat) {
    && |a.fat| == |b.fat| == |a.data| == |b.data|
    && s <= t
    && (forall i :: 0 <= i < |t| ==> 2 <= t[i] < |a.fat|)
    && (forall c :: 0 <= c < |a.fat| && c !in t ==> b.fat[c] == a.fat[c] && b.data[c] == a.data[c])
    && (forall i :: 0 <= i < |s| ==> b.data[t[i]] == a.data[t[i]])
    && (forall i :: |s| <= i < |t| ==> a.fat[t[i]] == 0 && b.data[t[i]] == Zeros(csz))
  }

  lemma GrownRefl(a: Disk, s: seq<nat>, csz: nat)
    requires Path(a.fat, s) && |a.fat| == |a.data|
    ensures Grown(a, s, a, s, csz)
  {
  }

  lemma GrownTrans(a: Disk, s: seq<nat>, b: Disk, t: seq<nat>, d: Disk, u: seq<nat>, csz: nat)
    requires Grown(a, s, b, t, csz) && Grown(b, t, d, u, csz) && Path(b.fat, t)
    ensures Grown(a, s, d, u, csz)
  {
    forall i | |s| <= i < |u|
      ensures a.fat[u[i]] == 0 && d.data[u[i]] == Zeros(csz)
    {
      if i < |t| {
        assert u[i] == t[i];
      } else if u[i] in t {
        var j :| 0 <= j < |t| && t[j] == u[i];
        PathInUse(b.fat, t, j);
      }
    }
    forall i | 0 <= i < |s|
      ensures d.data[u[i]] == a.data[u[i]]
    {
      assert u[i] == t[i];
    }
  }

  /** alloc_cluster: mark `n` as the end of a chain and clear its block. */
  ghost function Allocated(a: Disk, n: nat, csz: nat): Disk
    requires n < |a.fat| == |a.data|
  {
    Disk(a.fat[n := FAT32_EOC_MARK], a.data[n := Zeros(csz)])
  }

  ghost function Linked(a: Disk, s: seq<nat>, n: nat, csz: nat): Disk
    requires n < |a.fat| == |a.data|
    requires s != [] ==> s[|s| - 1] < |a.fat|
  {
    var b := Allocated(a, n, csz);
    if s == [] then b else Disk(b.fat[s[|s| - 1] := n], b.data)
  }

  lemma GrowOne(a: Disk, s: seq<nat>, n: nat, csz: nat)
    requires Path(a.fat, s) && 2 <= n < |a.fat| == |a.data| && a.fat[n] == 0
    ensures var b := Linked(a, s, n, csz);
      Path(b.fat, s + [n]) && Grown(a, s, b, s + [n], csz)
  {
    var b := Linked(a, s, n, csz);
    var t := s + [n];
    PathNoDup(a.fat, s);
    forall i | 0 <= i < |s|
      ensures s[i] != n
    {
      PathInUse(a.fat, s, i);
    }
    forall i | 0 <= i < |t| - 1
      ensures b.fat[t[i]] == t[i + 1]
    {
      if i + 1 < |s| {
        assert s[i] != s[|s| - 1];
      }
    }
    forall c | 0 <= c < |a.fat| && c !in t
      ensures b.fat[c] == a.fat[c] && b.data[c] == a.data[c]
    {
      assert c != t[|s|];
      if s != [] {
        assert c != t[|s| - 1];
      }
    }
  }

  // ----- freeing a chain

  ghost function Freed(fat: seq<nat>, s: seq<nat>): (r: seq<nat>)
    ensures |r| == |fat|
    ensures forall c :: 0 <= c < |fat| ==> r[c] == if c in s then 0 else fat[c]
  {
    seq(|fat|, c requires 0 <= c < |fat| => if c in s then 0 else fat[c])
  }

  ghost function NonZero(fat: seq<nat>): nat {
    if fat == [] then 0 else (if fat[0] != 0 then 1 else 0) + NonZero(fat[1..])
  }

  lemma {:induction false} NonZeroUpdate(fat: seq<nat>, c: nat)
    requires c < |fat|
    ensures NonZero(fat[c := 0]) == NonZero(fat) - (if fat[c] != 0 then 1 else 0)
  {
    if c == 0 {
      assert fat[0 := 0][1..] == fat[1..];
    } else {
      NonZeroUpdate(fat[1..], c - 1);
      assert fat[c := 0][1..] == fat[1..][c - 1 := 0];
    }
  }

  /** How much work free_chain can still do; it drops on every turn, whatever the table holds. */
  ghost function FreeMeasure(fat: seq<nat>, cur: nat): nat {
    NonZero(fat) + if 2 <= cur < |fat| then 1 else 0
  }

  /** The clusters free_chain visits from `cur` on any table, cyclic or not. */
  ghost function FreeWalk(fat: seq<nat>, cur: nat): (r: seq<nat>)
    ensures |r| == |fat|
    decreases FreeMeasure(fat, cur)
  {
    if !(2 <= cur < |fat|) then fat else
      NonZeroUpdate(fat, cur);
      if IsEoc(fat[cur]) then fat[cur := 0] else FreeWalk(fat[cur := 0], fat[cur])
  }

  /** Freeing a chain clears exactly its own entries. */
  lemma {:induction false} FreeWalkPath(fat: seq<nat>, s: seq<nat>)
    requires Path(fat, s) && s != []
    ensures FreeWalk(fat, s[0]) == Freed(fat, s)
    decreases |s|
  {
    PathNoDup(fat, s);
    var fat' := fat[s[0] := 0];
    if |s| == 1 {
      assert fat' == Freed(fat, s);
    } else {
      var t := s[1..];
      assert fat[s[0]] == s[1];
      assert Path(fat', t) by {
        assert Path(fat, t);
      }
      NonZeroUpdate(fat, s[0]);
      FreeWalkPath(fat', t);
      assert forall c :: c in s <==> c == s[0] || c in t;
      assert Freed(fat', t) == Freed(fat, s);
    }
  }

  // ----- the bytes of a chain

  ghost predicate Blocks(data: seq<seq<byte>>, s: seq<nat>, csz: nat) {
    csz > 0 && forall i :: 0 <= i < |s| ==> s[i] < |data| && |data[s[i]]| == csz
  }

  lemma DivUnique(q: nat, r: nat, k: nat)
    requires r < k
    ensures (q * k + r) / k == q && (q * k + r) % k == r
  {
    var x := q * k + r;
    assert x == (x / k) * k + x % k;
    if x / k < q {
      Distribute(x / k, 1, k);
      MulMono(x / k + 1, q, k);
    } else if x / k > q {
      Distribute(q, 1, k);
      MulMono(q + 1, x / k, k);
    }
  }

  /** The blocks of a chain one after the other. */
  ghost function Raw(data: seq<seq<byte>>, s: seq<nat>): seq<byte> {
    if s == [] then [] else
      var c := s[|s| - 1];
      Raw(data, s[..|s| - 1]) + if c < |data| then data[c] else []
  }

  lemma RawNone(data: seq<seq<byte>>)
    ensures Raw(data, []) == []
  {
  }

  /** Byte offset `p` of the i-th cluster of a chain. */
  function Place(i: nat, csz: nat, p: nat): nat { i * csz + p }

  lemma PlaceNext(i: nat, csz: nat)
    ensures Place(i + 1, csz, 0) == Place(i, csz, csz)
  {
    Distribute(i, 1, csz);
  }

  lemma PlaceMono(i: nat, j: nat, csz: nat)
    requires i <= j
    ensures Place(i, csz, 0) <= Place(j, csz, 0)
  {
    MulMono(i, j, csz);
  }

  lemma PlaceAdd(i: nat, csz: nat, p: nat)
    ensures Place(i, csz, p) == Place(i, csz, 0) + p
  {
  }

  lemma {:induction false} RawLen(data: seq<seq<byte>>, s: seq<nat>, csz: nat)
    requires Blocks(data, s, csz)
    ensures |Raw(data, s)| == Place(|s|, csz, 0)
  {
    hide Place;
    if s == [] {
      PlaceZero(csz);
    } else {
      RawLen(data, s[..|s| - 1], csz);
      PlaceNext(|s| - 1, csz);
      PlaceAdd(|s| - 1, csz, csz);
    }
  }

  lemma PlaceZero(csz: nat)
    ensures Place(0, csz, 0) == 0
  {
  }

  lemma {:induction false} RawSlice(data: seq<seq<byte>>, s: seq<nat>, csz: nat, i: nat, p: nat, n: nat)
    requires Blocks(data, s, csz) && i < |s| && p + n <= csz
    ensures Place(i, csz, p) + n <= |Raw(data, s)|
    ensures Raw(data, s)[Place(i, csz, p)..Place(i, csz, p) + n] == data[s[i]][p..p + n]
  {
    hide Place;
    var last := |s| - 1;
    var front := s[..last];
    RawLen(data, front, csz);
    PlaceAdd(i, csz, p);
    if i < last {
      RawSlice(data, front, csz, i, p, n);
    }
  }

  lemma {:induction false} RawFrame(data: seq<seq<byte>>, data': seq<seq<byte>>, s: seq<nat>)
    requires forall i :: 0 <= i < |s| ==> s[i] < |data| && s[i] < |data'|
    requires forall i :: 0 <= i < |s| ==> data'[s[i]] == data[s[i]]
    ensures Raw(data', s) == Raw(data, s)
  {
    if s != [] {
      RawFrame(data, data', s[..|s| - 1]);
    }
  }

  lemma RawPrefix(data: seq<seq<byte>>, s: seq<nat>, csz: nat, n: nat)
    requires Blocks(data, s, csz) && n <= |s|
    ensures Raw(data, s[..n]) <= Raw(data, s)
    decreases |s| - n
  {
    if n < |s| {
      RawPrefix(data, s, csz, n + 1);
      assert s[..n + 1][..n] == s[..n];
    } else {
      assert s[..n] == s;
    }
  }

  /** Growing a chain appends zeros to its bytes. */
  lemma {:induction false} RawGrown(a: Disk, s: seq<nat>, b: Disk, t: seq<nat>, csz: nat)
    requires Grown(a, s, b, t, csz) && Blocks(a.data, s, csz)
    ensures Blocks(b.data, t, csz)
    ensures |Raw(a.data, s)| <= |Raw(b.data, t)|
    ensures Raw(b.data, t) == Raw(a.data, s) + Zeros(|Raw(b.data, t)| - |Raw(a.data, s)|)
  {
    assert forall i :: 0 <= i < |s| ==> s[i] == t[i];
    RawGrowing(a, s, b, t, csz, |t|);
    assert t[..|t|] == t;
  }

  lemma {:induction false} RawGrowing(a: Disk, s: seq<nat>, b: Disk, t: seq<nat>, csz: nat, n: nat)
    requires Grown(a, s, b, t, csz) && Blocks(a.data, s, csz) && |s| <= n <= |t|
    requires forall i :: 0 <= i < |s| ==> s[i] == t[i]
    ensures |Raw(a.data, s)| <= |Raw(b.data, t[..n])|
    ensures Raw(b.data, t[..n]) == Raw(a.data, s) + Zeros(|Raw(b.data, t[..n])| - |Raw(a.data, s)|)
    decreases n
  {
    if n == |s| {
      assert t[..n] == s;
      RawFrame(a.data, b.data, s);
    } else {
      RawGrowing(a, s, b, t, csz, n - 1);
      assert t[..n][..n - 1] == t[..n - 1];
      assert b.data[t[n - 1]] == Zeros(csz);
    }
  }

  /** A write inside one cluster of a chain is the same write on the bytes of the chain. */
  lemma {:induction false} RawOverlay(data: seq<seq<byte>>, s: seq<nat>, csz: nat, i: nat, p: nat, b: seq<byte>)
    requires Blocks(data, s, csz) && NoDup(s) && i < |s| && p + |b| <= csz
    ensures Place(i, csz, p) + |b| <= |Raw(data, s)|
    ensures Raw(data[s[i] := Overlay(data[s[i]], p, b)], s) == Overlay(Raw(data, s), Place(i, csz, p), b)
  {
    hide Place, Overlay;
    var data' := data[s[i] := Overlay(data[s[i]], p, b)];
    var n := |s| - 1;
    var front, last := s[..n], data[s[n]];
    RawLen(data, front, csz);
    PlaceAdd(i, csz, p);
    if i == n {
      RawFrame(data, data', front);
      assert Raw(data', s) == Raw(data, front) + Overlay(last, p, b);
    } else {
      RawOverlay(data, front, csz, i, p, b);
      assert Raw(data', s) == Raw(data', front) + last;
      OverlayAppend(Raw(data, front), Place(i, csz, p), b, last);
    }
  }
}
