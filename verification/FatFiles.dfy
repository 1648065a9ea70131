/** The invariant of a mounted volume and the files it stands for; `csz` is the cluster size. */
module FatFiles {
  import opened Common
  import opened Bytes
  import opened FatLayout
  import opened FatChain
  import opened FatDir

  /** A file as its user sees it; `raw` also holds the slack behind the last byte. */
  datatype File = File(name: seq<byte>, size: nat, raw: seq<byte>) {
    ghost function Contents(): seq<byte> {
      if size <= |raw| then raw[..size] else raw
    }
  }

  ghost predicate Apart(s: seq<nat>, t: seq<nat>) {
    forall c :: c in s ==> c !in t
  }

  function Head(s: seq<nat>): nat { if s == [] then 0 else s[0] }

  /** Entry and block of every cluster have the right shape. */
  ghost predicate Shaped(csz: nat, d: Disk) {
    && csz > 0 && csz % 32 == 0
    && |d.fat| == |d.data| <= FAT32_EOC
    && forall c :: 2 <= c < |d.data| ==> |d.data[c]| == csz
  }

  /** All chains are in range, end-marked (hence acyclic) and pairwise disjoint. */
  ghost predicate Separate(d: Disk, root: seq<nat>, chains: map<nat, seq<nat>>) {
    && Path(d.fat, root)
    && (forall k :: k in chains ==> Path(d.fat, chains[k]) && Apart(root, chains[k]))
    && (forall j, k :: j in chains && k in chains && j != k ==> Apart(chains[j], chains[k]))
  }

  /** The directory lists exactly the files of `chains`. */
  ghost predicate Described(dir: seq<byte>, chains: map<nat, seq<nat>>) {
    && CleanTail(dir)
    && (forall k :: k in chains <==> IsFile(dir, k))
    && (forall k :: k in chains ==> First(dir, k) == Head(chains[k]))
  }

  /** The directory bytes `dir` and the blocks `data` agree about the files of `chains`. */
  ghost predicate Listed(dir: seq<byte>, data: seq<seq<byte>>, chains: map<nat, seq<nat>>) {
    && Described(dir, chains)
    && forall k :: k in chains ==> Size(dir, k) <= |Raw(data, chains[k])|
  }

  ghost predicate FsOk(csz: nat, d: Disk, root: seq<nat>, chains: map<nat, seq<nat>>) {
    && Shaped(csz, d)
    && Separate(d, root, chains)
    && Listed(Raw(d.data, root), d.data, chains)
  }

  ghost function Files(dir: seq<byte>, data: seq<seq<byte>>, chains: map<nat, seq<nat>>): map<nat, File>
    requires Described(dir, chains)
  {
    map k | k in chains :: File(Name(dir, k), Size(dir, k), Raw(data, chains[k]))
  }

  // ----- rewriting one chain

  /** From `a` to `b` only the clusters of `t` changed; `t` extends `s` by clusters that were free. */
  ghost predicate Rewritten(csz: nat, a: Disk, s: seq<nat>, b: Disk, t: seq<nat>) {
    && Shaped(csz, a) && Shaped(csz, b) && |a.fat| == |b.fat|
    && Path(a.fat, s) && Path(b.fat, t)
    && s <= t
    && (forall c :: 0 <= c < |a.fat| && c !in t ==> b.fat[c] == a.fat[c] && b.data[c] == a.data[c])
    && (forall i :: |s| <= i < |t| ==> a.fat[t[i]] == 0)
  }

  lemma GrownRewritten(csz: nat, a: Disk, s: seq<nat>, b: Disk, t: seq<nat>)
    requires Shaped(csz, a) && Path(a.fat, s) && Path(b.fat, t) && Grown(a, s, b, t, csz)
    ensures Rewritten(csz, a, s, b, t)
  {
    forall c | 2 <= c < |b.data|
      ensures |b.data[c]| == csz
    {
      if c in t {
        var i :| 0 <= i < |t| && t[i] == c;
        assert i < |s| ==> b.data[t[i]] == a.data[t[i]];
      }
    }
  }

  lemma RewrittenTrans(csz: nat, a: Disk, s: seq<nat>, b: Disk, t: seq<nat>, d: Disk, u: seq<nat>)
    requires Rewritten(csz, a, s, b, t) && Rewritten(csz, b, t, d, u)
    ensures Rewritten(csz, a, s, d, u)
  {
    forall i | |s| <= i < |u|
      ensures a.fat[u[i]] == 0
    {
      if i < |t| {
        assert u[i] == t[i];
      } else if u[i] in t {
        var j :| 0 <= j < |t| && t[j] == u[i];
        PathInUse(b.fat, t, j);
      }
    }
  }

  lemma RewrittenPath(csz: nat, a: Disk, s: seq<nat>, b: Disk, t: seq<nat>)
    requires Rewritten(csz, a, s, b, t)
    ensures Shaped(csz, b) && Path(b.fat, t) && (t != [] ==> 2 <= Head(t) < |b.fat| <= FAT32_EOC)
  {
  }

  lemma RewrittenChain(csz: nat, a: Disk, s: seq<nat>, b: Disk, t: seq<nat>, first: nat)
    requires Rewritten(csz, a, s, b, t) && Chain(a.fat, first, s) && s != []
    ensures t != [] && Chain(b.fat, first, t)
  {
    assert s[0] == t[0];
  }

  lemma RewrittenWrite(csz: nat, a: Disk, s: seq<nat>, b: Disk, t: seq<nat>, i: nat, p: nat, bytes: seq<byte>)
    requires Rewritten(csz, a, s, b, t) && i < |t| && p + |bytes| <= csz
    ensures Rewritten(csz, a, s, Disk(b.fat, b.data[t[i] := Overlay(b.data[t[i]], p, bytes)]), t)
  {
  }

  /** A chain that shares no cluster with `s` shares none with `t`, and keeps links and bytes. */
  lemma RewrittenApart(csz: nat, a: Disk, s: seq<nat>, b: Disk, t: seq<nat>, other: seq<nat>)
    requires Rewritten(csz, a, s, b, t) && Path(a.fat, other) && Apart(other, s)
    ensures Apart(other, t) && Apart(t, other) && Path(b.fat, other) && Raw(b.data, other) == Raw(a.data, other)
  {
    forall i | 0 <= i < |other|
      ensures other[i] !in t
    {
      PathInUse(a.fat, other, i);
      assert other[i] in other;
      assert forall j :: 0 <= j < |s| ==> s[j] == t[j];
    }
    PathFrame(a.fat, b.fat, other);
    RawFrame(a.data, b.data, other);
  }

  /** Every other file survives a rewrite of file `k`, links and bytes. */
  lemma RewrittenOthers(csz: nat, a: Disk, root: seq<nat>, chains: map<nat, seq<nat>>, k: nat, b: Disk, t: seq<nat>)
    requires FsOk(csz, a, root, chains) && k in chains && Rewritten(csz, a, chains[k], b, t)
    ensures Separate(b, root, chains[k := t])
    ensures Raw(b.data, root) == Raw(a.data, root)
    ensures forall j :: j in chains && j != k ==> Raw(b.data, chains[j]) == Raw(a.data, chains[j])
  {
    hide Raw, Rewritten, Path, Described;
    RewrittenPath(csz, a, chains[k], b, t);
    RewrittenApart(csz, a, chains[k], b, t, root);
    forall j | j in chains && j != k
      ensures Apart(chains[j], t) && Apart(t, chains[j]) && Path(b.fat, chains[j]) &&
              Raw(b.data, chains[j]) == Raw(a.data, chains[j])
    {
      RewrittenApart(csz, a, chains[k], b, t, chains[j]);
    }
  }

  // ----- what a write does to the bytes of a chain

  /** `raw0`, extended by zeros to length n. */
  ghost function Spread(raw0: seq<byte>, n: nat): (r: seq<byte>)
    requires |raw0| <= n
    ensures |r| == n
  {
    raw0 + Zeros(n - |raw0|)
  }

  lemma SpreadMore(raw0: seq<byte>, m: nat, n: nat)
    requires |raw0| <= m <= n
    ensures Spread(raw0, m) + Zeros(n - m) == Spread(raw0, n)
  {
  }

  /** `raw` is `raw0`, extended by zeros as far as needed, with `b` laid over it at `pos`. */
  ghost predicate Spliced(raw0: seq<byte>, raw: seq<byte>, pos: nat, b: seq<byte>) {
    && |raw0| <= |raw|
    && (b != [] ==> pos + |b| <= |raw|)
    && raw == if b == [] then Spread(raw0, |raw|) else Overlay(Spread(raw0, |raw|), pos, b)
  }

  lemma SplicedSize(raw0: seq<byte>, raw: seq<byte>, pos: nat, b: seq<byte>)
    requires Spliced(raw0, raw, pos, b)
    ensures |raw0| <= |raw| && (b != [] ==> pos + |b| <= |raw|)
  {
  }

  lemma SplicedTrans(r0: seq<byte>, r1: seq<byte>, r2: seq<byte>, pos: nat, a: seq<byte>, b: seq<byte>)
    requires Spliced(r0, r1, pos, a) && Spliced(r1, r2, pos + |a|, b)
    ensures Spliced(r0, r2, pos, a + b)
  {
    hide Overlay, Zeros, Spread;
    var x, y, z := Spread(r0, |r1|), Spread(r0, |r2|), Zeros(|r2| - |r1|);
    SpreadMore(r0, |r1|, |r2|);
    SpreadMore(r1, |r1|, |r2|);
    SpreadNone(r1);
    if a == [] {
      assert a + b == b;
    } else {
      OverlayAppend(x, pos, a, z);
      if b == [] {
        assert a + b == a;
      } else {
        OverlayJoin(y, pos, a, b);
      }
    }
  }

  lemma SpreadNone(raw: seq<byte>)
    ensures Spread(raw, |raw|) == raw
  {
  }

  /** One turn of the write loop on the disk: grow the chain, then write inside one cluster. */
  lemma ChunkWritten(csz: nat, d0: Disk, s: seq<nat>, d1: Disk, t: seq<nat>, q: nat, p: nat, b: seq<byte>)
    requires Shaped(csz, d0) && Path(d0.fat, s) && Path(d1.fat, t) && Grown(d0, s, d1, t, csz)
    requires q < |t| && p + |b| <= csz && b != []
    requires t[q] < |d1.data| && |d1.data[t[q]]| == csz
    ensures var d2 := Disk(d1.fat, d1.data[t[q] := Overlay(d1.data[t[q]], p, b)]);
      && Rewritten(csz, d0, s, d2, t)
      && Spliced(Raw(d0.data, s), Raw(d2.data, t), Place(q, csz, p), b)
  {
    hide Raw;
    GrownRewritten(csz, d0, s, d1, t);
    RawGrown(d0, s, d1, t, csz);
    PathNoDup(d1.fat, t);
    RewrittenWrite(csz, d0, s, d1, t, q, p, b);
    RawOverlay(d1.data, t, csz, q, p, b);
  }

  lemma NothingWritten(csz: nat, d0: Disk, s: seq<nat>, d1: Disk, t: seq<nat>, pos: nat)
    requires Shaped(csz, d0) && Path(d0.fat, s) && Path(d1.fat, t) && Grown(d0, s, d1, t, csz)
    ensures Rewritten(csz, d0, s, d1, t) && Spliced(Raw(d0.data, s), Raw(d1.data, t), pos, [])
  {
    GrownRewritten(csz, d0, s, d1, t);
    RawGrown(d0, s, d1, t, csz);
  }

  /** Reading back what was written. */
  lemma SplicedReadBack(raw0: seq<byte>, raw: seq<byte>, pos: nat, b: seq<byte>, size0: nat, size: nat)
    requires Spliced(raw0, raw, pos, b) && size0 <= |raw0|
    requires b != [] ==> size == if pos + |b| > size0 then pos + |b| else size0
    requires b == [] ==> size == size0
    ensures size <= |raw|
    ensures b != [] ==> raw[..size][pos..pos + |b|] == b
    ensures forall i :: 0 <= i < size0 && !(pos <= i < pos + |b|) ==> raw[..size][i] == raw0[..size0][i]
    ensures (forall i :: size0 <= i < |raw0| ==> raw0[i] == 0) ==>
              forall i :: size0 <= i < size && i < pos ==> raw[..size][i] == 0
  {
    hide Overlay;
    if b != [] {
      var r := raw[..size][pos..pos + |b|];
      forall i | 0 <= i < |b|
        ensures r[i] == b[i]
      {
        assert r[i] == raw[pos + i];
      }
    }
  }

  /** A write at the end of a file appends. */
  lemma SplicedAppend(raw0: seq<byte>, raw: seq<byte>, size: nat, b: seq<byte>)
    requires Spliced(raw0, raw, size, b) && size <= |raw0|
    ensures size + |b| <= |raw| && raw[..size + |b|] == raw0[..size] + b
  {
    hide Overlay;
    if b != [] {
      SplicedReadBack(raw0, raw, size, b, size, size + |b|);
      assert raw[..size + |b|][size..size + |b|] == b;
    }
    forall i | 0 <= i < size
      ensures raw[i] == raw0[i]
    {
    }
  }

  // ----- writing into the directory

  /** The disk after overlaying `bytes` at offset `p` of the i-th cluster of the chain `s`. */
  ghost function Poked(csz: nat, d: Disk, s: seq<nat>, i: nat, p: nat, bytes: seq<byte>): Disk
    requires Shaped(csz, d) && Path(d.fat, s) && i < |s| && p + |bytes| <= csz
  {
    Disk(d.fat, d.data[s[i] := Overlay(d.data[s[i]], p, bytes)])
  }

  lemma PokedSelf(csz: nat, d: Disk, s: seq<nat>, i: nat, p: nat, bytes: seq<byte>)
    requires Shaped(csz, d) && Path(d.fat, s) && i < |s| && p + |bytes| <= csz
    ensures var e := Poked(csz, d, s, i, p, bytes);
      && Place(i, csz, p) + |bytes| <= |Raw(d.data, s)|
      && Shaped(csz, e)
      && Raw(e.data, s) == Overlay(Raw(d.data, s), Place(i, csz, p), bytes)
  {
    PathNoDup(d.fat, s);
    RawOverlay(d.data, s, csz, i, p, bytes);
  }

  lemma PokedOther(csz: nat, d: Disk, s: seq<nat>, i: nat, p: nat, bytes: seq<byte>, other: seq<nat>)
    requires Shaped(csz, d) && Path(d.fat, s) && i < |s| && p + |bytes| <= csz
    requires Path(d.fat, other) && Apart(s, other)
    ensures Shaped(csz, Poked(csz, d, s, i, p, bytes))
    ensures Raw(Poked(csz, d, s, i, p, bytes).data, other) == Raw(d.data, other)
  {
    assert s[i] in s;
    RawFrame(d.data, Poked(csz, d, s, i, p, bytes).data, other);
  }

  /** Disk `e` is `d` with the directory bytes replaced by `dir`: same table, same files' bytes. */
  ghost predicate DirOnly(csz: nat, d: Disk, e: Disk, root: seq<nat>, chains: map<nat, seq<nat>>, dir: seq<byte>) {
    && Shaped(csz, d) && Shaped(csz, e) && e.fat == d.fat
    && Separate(d, root, chains)
    && Raw(e.data, root) == dir
    && forall k :: k in chains ==> Raw(e.data, chains[k]) == Raw(d.data, chains[k])
  }

  lemma DirOnlyRefl(csz: nat, d: Disk, root: seq<nat>, chains: map<nat, seq<nat>>)
    requires Shaped(csz, d) && Separate(d, root, chains)
    ensures DirOnly(csz, d, d, root, chains, Raw(d.data, root))
  {
  }

  lemma DirOnlyPath(csz: nat, d: Disk, e: Disk, root: seq<nat>, chains: map<nat, seq<nat>>, dir: seq<byte>)
    requires DirOnly(csz, d, e, root, chains, dir)
    ensures Shaped(csz, e) && Path(e.fat, root)
  {
  }

  lemma DirOnlyPoke(csz: nat, d: Disk, e: Disk, root: seq<nat>, chains: map<nat, seq<nat>>, dir: seq<byte>,
                    i: nat, p: nat, bytes: seq<byte>)
    requires DirOnly(csz, d, e, root, chains, dir)
    requires i < |root| && p + |bytes| <= csz
    ensures Place(i, csz, p) + |bytes| <= |dir|
    ensures DirOnly(csz, d, Poked(csz, e, root, i, p, bytes), root, chains, Overlay(dir, Place(i, csz, p), bytes))
  {
    PokedSelf(csz, e, root, i, p, bytes);
    forall k | k in chains
      ensures Raw(Poked(csz, e, root, i, p, bytes).data, chains[k]) == Raw(d.data, chains[k])
    {
      PokedOther(csz, e, root, i, p, bytes, chains[k]);
    }
  }

  // ----- what the three updates mean

  lemma DescribedSet(dir: seq<byte>, chains: map<nat, seq<nat>>, k: nat, t: seq<nat>, size: nat)
    requires Described(dir, chains) && k in chains && Head(t) < 0x1_0000_0000 && size < 0x1_0000_0000
    ensures Described(SetEntry(dir, k, Head(t), size), chains[k := t])
    ensures forall j :: j in chains && j != k ==> SameSlot(dir, SetEntry(dir, k, Head(t), size), j)
  {
    hide SetEntry, CleanTail, Name, Mark, Attr, First, Size;
    SetEntryFiles(dir, k, Head(t), size);
    SetEntrySelf(dir, k, Head(t), size);
    forall j | j in chains && j != k
      ensures SameSlot(dir, SetEntry(dir, k, Head(t), size), j)
    {
      SetEntryOther(dir, k, Head(t), size, j);
    }
  }

  lemma DescribedAdd(dir: seq<byte>, chains: map<nat, seq<nat>>, k: nat, name: seq<byte>)
    requires Described(dir, chains) && IsSpare(dir, k) && |name| == 11 && name[0] != 0 && name[0] != 0xE5
    ensures k !in chains && Described(AddEntry(dir, k, name), chains[k := []])
    ensures forall j :: j in chains ==> SameSlot(dir, AddEntry(dir, k, name), j)
  {
    AddEntryFiles(dir, k, name);
    AddEntrySelf(dir, k, name);
    forall j | j in chains
      ensures SameSlot(dir, AddEntry(dir, k, name), j)
    {
      OtherSlot(dir, k, 32 * k, NewEntry(name), j);
    }
  }

  lemma OneFileChanged(dir: seq<byte>, dir': seq<byte>, a: seq<seq<byte>>, b: seq<seq<byte>>,
                       chains: map<nat, seq<nat>>, k: nat, t: seq<nat>)
    requires Listed(dir, a, chains) && Described(dir', chains[k := t])
    requires forall j :: j in chains && j != k ==> SameSlot(dir, dir', j) && Raw(b, chains[j]) == Raw(a, chains[j])
    requires k < Slots(dir') && Size(dir', k) <= |Raw(b, t)|
    ensures Listed(dir', b, chains[k := t])
    ensures Files(dir', b, chains[k := t])
         == Files(dir, a, chains)[k := File(Name(dir', k), Size(dir', k), Raw(b, t))]
  {
    hide Raw, CleanTail, Mark, Attr, Name, First, Size, Reached;
  }

  /** Rewriting the entry of file `k` with the head of its chain and a size changes that file alone. */
  lemma FilesSet(dir: seq<byte>, a: seq<seq<byte>>, b: seq<seq<byte>>, chains: map<nat, seq<nat>>, k: nat, t: seq<nat>,
                 size: nat)
    requires Listed(dir, a, chains) && k in chains && Head(t) < 0x1_0000_0000 && size < 0x1_0000_0000
    requires forall j :: j in chains && j != k ==> Raw(b, chains[j]) == Raw(a, chains[j])
    requires size <= |Raw(b, t)|
    ensures var dir' := SetEntry(dir, k, Head(t), size);
      && Listed(dir', b, chains[k := t])
      && Files(dir', b, chains[k := t]) == Files(dir, a, chains)[k := File(Name(dir, k), size, Raw(b, t))]
  {
    DescribedSet(dir, chains, k, t, size);
    SetEntrySelf(dir, k, Head(t), size);
    OneFileChanged(dir, SetEntry(dir, k, Head(t), size), a, b, chains, k, t);
  }

  /** A new entry adds one empty file. */
  lemma FilesAdd(dir: seq<byte>, a: seq<seq<byte>>, b: seq<seq<byte>>, chains: map<nat, seq<nat>>, k: nat,
                 name: seq<byte>)
    requires Listed(dir, a, chains) && IsSpare(dir, k) && |name| == 11 && name[0] != 0 && name[0] != 0xE5
    requires forall j :: j in chains ==> Raw(b, chains[j]) == Raw(a, chains[j])
    ensures var dir' := AddEntry(dir, k, name);
      && k !in chains
      && Listed(dir', b, chains[k := []])
      && Files(dir', b, chains[k := []]) == Files(dir, a, chains)[k := File(name, 0, [])]
  {
    DescribedAdd(dir, chains, k, name);
    AddEntrySelf(dir, k, name);
    OneFileChanged(dir, AddEntry(dir, k, name), a, b, chains, k, []);
  }

  /** Truncation returns exactly the clusters of file `k` to the free pool. */
  lemma ChainFreed(csz: nat, a: Disk, root: seq<nat>, chains: map<nat, seq<nat>>, k: nat)
    requires FsOk(csz, a, root, chains) && k in chains
    ensures var b := Disk(Freed(a.fat, chains[k]), a.data);
      && Shaped(csz, b)
      && Separate(b, root, chains[k := []])
      && Raw(b.data, root) == Raw(a.data, root)
      && (forall j :: j in chains && j != k ==> Raw(b.data, chains[j]) == Raw(a.data, chains[j]))
  {
    hide Raw, Described, Freed, Path, Apart;
    var s := chains[k];
    var b := Disk(Freed(a.fat, s), a.data);
    FreedApart(a.fat, s, root);
    EmptyPath(b.fat);
    forall j | j in chains && j != k
      ensures Path(b.fat, chains[j])
    {
      FreedApart(a.fat, s, chains[j]);
    }
    ApartEmpty(root);
    forall j | j in chains
      ensures Apart(chains[j], []) && Apart([], chains[j])
    {
      ApartEmpty(chains[j]);
    }
  }

  lemma FreedApart(fat: seq<nat>, s: seq<nat>, other: seq<nat>)
    requires Path(fat, other) && (Apart(other, s) || Apart(s, other))
    ensures Path(Freed(fat, s), other)
  {
    hide Freed;
    PathFrame(fat, Freed(fat, s), other);
  }

  lemma EmptyPath(fat: seq<nat>)
    requires |fat| <= FAT32_EOC
    ensures Path(fat, [])
  {
  }

  lemma ApartEmpty(s: seq<nat>)
    ensures Apart(s, []) && Apart([], s)
  {
  }

  lemma SeparateFat(d: Disk, e: Disk, root: seq<nat>, chains: map<nat, seq<nat>>)
    requires Separate(d, root, chains) && e.fat == d.fat
    ensures Separate(e, root, chains)
  {
  }

  lemma SeparateEmpty(d: Disk, root: seq<nat>, chains: map<nat, seq<nat>>, k: nat)
    requires Separate(d, root, chains)
    ensures Separate(d, root, chains[k := []])
  {
  }

  lemma DirOnlyRaw(csz: nat, d: Disk, e: Disk, root: seq<nat>, chains: map<nat, seq<nat>>, dir: seq<byte>)
    requires DirOnly(csz, d, e, root, chains, dir)
    ensures Shaped(csz, e) && Separate(e, root, chains) && Raw(e.data, root) == dir && e.fat == d.fat
    ensures forall k :: k in chains ==> Raw(e.data, chains[k]) == Raw(d.data, chains[k])
  {
    hide Separate, Raw;
    SeparateFat(d, e, root, chains);
  }

  /** Disk `e` completes a change of chain `k` to `t` by recording it in the directory. */
  lemma ChangeCompleted(csz: nat, d0: Disk, root: seq<nat>, chains: map<nat, seq<nat>>, d1: Disk, k: nat, t: seq<nat>,
                        size: nat, e: Disk)
    requires FsOk(csz, d0, root, chains) && k in chains
    requires Raw(d1.data, root) == Raw(d0.data, root)
    requires forall j :: j in chains && j != k ==> Raw(d1.data, chains[j]) == Raw(d0.data, chains[j])
    requires Head(t) < 0x1_0000_0000 && size < 0x1_0000_0000 && size <= |Raw(d1.data, t)|
    requires k < Slots(Raw(d0.data, root))
    requires DirOnly(csz, d1, e, root, chains[k := t], SetEntry(Raw(d0.data, root), k, Head(t), size))
    ensures FsOk(csz, e, root, chains[k := t])
    ensures Files(Raw(e.data, root), e.data, chains[k := t])
         == Files(Raw(d0.data, root), d0.data, chains)[k := File(Name(Raw(d0.data, root), k), size, Raw(d1.data, t))]
  {
    hide Separate, Raw, DirOnly, Listed, Described, SetEntry;
    var dir := Raw(d0.data, root);
    var chains' := chains[k := t];
    DirOnlyRaw(csz, d1, e, root, chains', SetEntry(dir, k, Head(t), size));
    forall j | j in chains && j != k
      ensures Raw(e.data, chains[j]) == Raw(d0.data, chains[j])
    {
      assert j in chains' && chains'[j] == chains[j];
    }
    assert k in chains' && chains'[k] == t;
    FilesSet(dir, d0.data, e.data, chains, k, t, size);
  }

  /** Disk `e` records a new file in a spare slot. */
  lemma AddCompleted(csz: nat, d0: Disk, root: seq<nat>, chains: map<nat, seq<nat>>, k: nat, name: seq<byte>, e: Disk)
    requires FsOk(csz, d0, root, chains) && IsSpare(Raw(d0.data, root), k)
    requires |name| == 11 && name[0] != 0 && name[0] != 0xE5
    requires DirOnly(csz, d0, e, root, chains, AddEntry(Raw(d0.data, root), k, name))
    ensures k !in chains && FsOk(csz, e, root, chains[k := []])
    ensures Files(Raw(e.data, root), e.data, chains[k := []])
         == Files(Raw(d0.data, root), d0.data, chains)[k := File(name, 0, [])]
  {
    hide Separate, Raw, DirOnly, Listed, Described, AddEntry;
    var dir := Raw(d0.data, root);
    DirOnlyRaw(csz, d0, e, root, chains, AddEntry(dir, k, name));
    SeparateEmpty(e, root, chains, k);
    FilesAdd(dir, d0.data, e.data, chains, k, name);
  }

  // ----- how many clusters a write takes

  /** A chain of n clusters is no longer than `end` bytes need: its last cluster begins before the end. */
  ghost predicate Needed(csz: nat, n: nat, end: nat) { n <= 1 || (n - 1) * csz < end }

  lemma NeededFor(csz: nat, q: nat, p: nat, pos: nat, n: nat)
    requires pos == Place(q, csz, p) && n <= q + 1
    ensures Needed(csz, n, pos + 1)
  {
    if n > 1 {
      MulMono(n - 1, q, csz);
    }
  }

  /** A turn of the write loop that needs its clusters keeps the whole write within its needs. */
  lemma NeededMore(csz: nat, n0: nat, n: nat, n': nat, end: nat, more: nat)
    requires end <= more && (n <= n0 || Needed(csz, n, more)) && (n' <= n || Needed(csz, n', end))
    ensures n' <= n0 || Needed(csz, n', more)
  {
    if n0 < n' <= n && n' > 1 {
      MulMono(n' - 1, n - 1, csz);
    }
  }

  lemma NeededOne(csz: nat, end: nat)
    ensures Needed(csz, 1, end)
  {
  }
}
