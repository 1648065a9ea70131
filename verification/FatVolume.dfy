/** kernel/fs.c: the mounted volume, its descriptors and the file calls. */
module FatVolume {
  import Common
  import opened Bytes
  import opened FatLayout
  import opened FatChain
  import opened FatDir
  import opened FatFiles
  import FatParse
  import Bits

  const FS_MAX_OPEN := 16
  const O_WRONLY: bv32 := 0x02
  const O_RDWR: bv32 := 0x03
  const O_CREAT: bv32 := 0x10
  const O_TRUNC: bv32 := 0x20
  const O_APPEND: bv32 := 0x40

  /** How fs_open came by the entry it opens. */
  datatype OpenCase = Missing | Found | Truncated | Created

  datatype OpenFile = OpenFile(used: bool, dirOff: nat, first: nat, size: nat, pos: nat, flags: bv32)

  const CLOSED := OpenFile(false, 0, 0, 0, 0, 0)

  /** Directory slot `k` lies at offset `p` of the i-th cluster of the root chain. */
  datatype SlotRef = SlotRef(k: nat, i: nat, p: nat)

  ghost predicate At(csz: nat, root: seq<nat>, r: SlotRef) {
    r.i < |root| && r.p + 32 <= csz && 32 * r.k == Place(r.i, csz, r.p)
  }

  ghost predicate Addresses(g: Geometry, root: seq<nat>, r: SlotRef, off: nat) {
    At(g.ClusterSize(), root, r) && 2 <= root[r.i] && off == g.ClusterOff(root[r.i]) + r.p
  }

  /** A directory slot has one address. */
  lemma OneAddress(g: Geometry, root: seq<nat>, r: SlotRef, off: nat, q: SlotRef, off': nat)
    requires Addresses(g, root, r, off) && Addresses(g, root, q, off')
    ensures r.k == q.k ==> off == off'
  {
    hide Geometry.ClusterSize, Geometry.ClusterOff;
    DivUnique(r.i, r.p, g.ClusterSize());
    DivUnique(q.i, q.p, g.ClusterSize());
  }

  /** The descriptor caches head and size of its file. */
  ghost predicate Coherent(g: Geometry, root: seq<nat>, chains: map<nat, seq<nat>>, files: map<nat, File>,
                           of: OpenFile, r: SlotRef) {
    && r.k in chains && r.k in files
    && Addresses(g, root, r, of.dirOff)
    && of.first == Head(chains[r.k]) && of.size == files[r.k].size
    && of.pos < 0x1_0000_0000
  }

  /** `free` is 0 or the address of a spare slot; it is only 0 while no deleted slot was passed. */
  ghost predicate FreeOk(g: Geometry, root: seq<nat>, dir: seq<byte>, free: nat, spare: SlotRef, n: nat)
    requires n <= Slots(dir)
  {
    && (free != 0 ==> Addresses(g, root, spare, free) && IsSpare(dir, spare.k))
    && (free == 0 ==> forall j :: 0 <= j < n ==> Mark(dir, j) != 0xE5)
  }

  lemma AddressOf(g: Geometry, root: seq<nat>, i: nat, k0: nat, n: nat)
    requires i < |root| && 2 <= root[i] && 32 * k0 == Place(i, g.ClusterSize(), 0) && 32 * n + 32 <= g.ClusterSize()
    ensures Addresses(g, root, SlotRef(k0 + n, i, 32 * n), g.ClusterOff(root[i]) + 32 * n)
  {
    hide Geometry.ClusterOff, Geometry.ClusterSize, Place;
    PlaceAdd(i, g.ClusterSize(), 32 * n);
  }

  lemma FreeStep(g: Geometry, root: seq<nat>, dir: seq<byte>, name: seq<byte>, free: nat, spare: SlotRef, at: nat,
                 r: SlotRef)
    requires r.k < Slots(dir) && AllPassed(dir, name, r.k) && Passed(dir, name, r.k)
    requires Addresses(g, root, r, at) && at != 0
    requires FreeOk(g, root, dir, free, spare, r.k)
    ensures AllPassed(dir, name, r.k + 1)
    ensures var deleted := free == 0 && Judge(SlotAt(dir, r.k), name) == Deleted;
      FreeOk(g, root, dir, if deleted then at else free, if deleted then r else spare, r.k + 1)
  {
    hide Addresses, Judge;
    JudgeMeans(dir, name, r.k);
    if free == 0 && Judge(SlotAt(dir, r.k), name) == Deleted {
      SpareHere(dir, name, r.k);
    }
  }

  /** Below 4 GiB: an accepted boot sector with room for its tables, equal copies, and well-formed chains. */
  ghost predicate Mountable(d: seq<byte>, root: seq<nat>, chains: map<nat, seq<nat>>) {
    && |d| < FatParse.U32 && FatParse.Parse(d).Some? && FatParse.Roomy(FatParse.Parse(d).value)
    && var g := FatParse.Parse(d).value;
       FatParse.RoomySound(d);
       Mirrored(g, d) && root != [] && root[0] == g.rootCluster && FsOk(g.ClusterSize(), View(g, d), root, chains)
  }

  class Volume {
    const g: Geometry
    const data: array<byte>
    var open: seq<OpenFile>
    ghost var root: seq<nat>                  // clusters of the root directory
    ghost var chains: map<nat, seq<nat>>      // clusters of the file in each directory slot
    ghost var slots: seq<SlotRef>             // slot of each descriptor's file

    /** fs_mount of a volume whose boot sector is accepted and whose tables and chains are well formed. */
    constructor Mount(storage: array<byte>, ghost rootChain: seq<nat>, ghost fileChains: map<nat, seq<nat>>)
      requires Mountable(storage[..], rootChain, fileChains)
      ensures Valid() && data == storage && root == rootChain && chains == fileChains
      ensures FatParse.Parse(storage[..]) == Common.Some(g)
      ensures forall fd :: 0 <= fd < FS_MAX_OPEN ==> open[fd] == CLOSED
    {
      hide View, Mirrored, Geometry.Sound, FsOk, FatParse.Parse;
      FatParse.RoomySound(storage[..]);
      g := FatParse.Parse(storage[..]).value;
      data, root, chains := storage, rootChain, fileChains;
      open := seq(FS_MAX_OPEN, _ => CLOSED);
      slots := seq(FS_MAX_OPEN, _ => SlotRef(0, 0, 0));
    }

    ghost function Dir(): seq<byte>
      requires Mounted()
      reads this, data
    {
      Raw(Vol().data, root)
    }

    ghost predicate VolumeOk()
      reads this, data
    {
      && Mounted()
      && root != [] && root[0] == g.rootCluster
      && FsOk(g.ClusterSize(), Vol(), root, chains)
    }

    ghost predicate Valid()
      reads this, data
    {
      && VolumeOk()
      && |open| == |slots| == FS_MAX_OPEN
      && forall fd :: 0 <= fd < FS_MAX_OPEN && open[fd].used ==>
        Coherent(g, root, chains, FileMap(), open[fd], slots[fd])
    }

    ghost function FileMap(): map<nat, File>
      requires VolumeOk()
      reads this, data
    {
      Files(Dir(), Vol().data, chains)
    }

    ghost predicate Mounted()
      reads data
    {
      g.Sound(data.Length) && Mirrored(g, data[..])
    }

    ghost function Vol(): Disk
      requires Mounted()
      reads data
    {
      View(g, data[..])
    }

    function RangeOk(off: nat, len: nat): bool {
      off <= data.Length && len <= data.Length - off
    }

    /** memcpy into the volume. */
    method Put(off: nat, b: seq<byte>)
      requires off + |b| <= data.Length
      modifies data
      ensures data[..] == Overlay(old(data[..]), off, b)
    {
      for i := 0 to |b|
        invariant data[..] == Overlay(old(data[..]), off, b[..i])
      {
        data[off + i] := b[i];
      }
      assert b[..|b|] == b;
    }

    method FatGet(c: nat) returns (v: nat)
      requires Mounted() && c < g.TableLen()
      ensures v == Vol().fat[c]
    {
      var off := g.FatOff(0, c);
      FatOffBounds(g, data.Length, 0, c);
      v := FAT32_EOC_MARK;
      if !RangeOk(off, 4) {
        return;
      }
      v := Le32(data[..], off) % ENTRY_MASK;
    }

    method FatSet(c: nat, value: nat) returns (ok: bool)
      requires Mounted() && c < g.TableLen()
      modifies data
      ensures ok && Mounted()
      ensures Vol() == Disk(old(Vol()).fat[c := value % ENTRY_MASK], old(Vol()).data)
    {
      ghost var d := data[..];
      var v := value % ENTRY_MASK;
      for i := 0 to g.fatCount
        invariant data[..] == SetCopies(g, d, c, v, i)
      {
        var off := g.FatOff(i, c);
        FatOffBounds(g, data.Length, i, c);
        if !RangeOk(off, 4) {
          return false;
        }
        Put(off, Bytes32(v));
      }
      SetCopiesView(g, d, c, v);
      return true;
    }

    /** No free cluster is left. */
    /** The directory has a slot for a new entry. */
    ghost predicate HasSpare()
      requires Mounted()
      reads this, data
    {
      SpareIn(Dir())
    }

    ghost predicate Full()
      requires Mounted()
      reads data
    {
      NoFree(Vol().fat, g.TableLen())
    }

    method AllocCluster() returns (c: nat)
      requires Mounted()
      modifies data
      ensures Mounted()
      ensures c == 0 <==> old(Full())
      ensures c == 0 ==> data[..] == old(data[..]) && Full()
      ensures c != 0 ==> 2 <= c < g.TableLen() && old(Vol()).fat[c] == 0
      ensures c != 0 ==> forall e :: 2 <= e < c ==> old(Vol()).fat[e] != 0
      ensures c != 0 ==> Vol() == Allocated(old(Vol()), c, g.ClusterSize())
    {
      hide View, Mirrored, Geometry.Sound, Place, Geometry.ClusterSize, Geometry.ClusterOff;
      ghost var d0 := Vol();
      c := 0;
      var n: nat := 2;
      while n < g.TableLen()
        invariant 2 <= n <= g.TableLen()
        invariant data[..] == old(data[..])
        invariant forall e :: 2 <= e < n ==> d0.fat[e] != 0
      {
        var v := FatGet(n);
        if v == 0 {
          var ok := FatSet(n, FAT32_EOC_MARK);
          BlockSlice(n, 0, g.ClusterSize());
          var off := g.ClusterOff(n);
          if !ok || !RangeOk(off, g.ClusterSize()) {
            return;
          }
          WriteCluster(off, Zeros(g.ClusterSize()), n, 0);
          assert Overlay(d0.data[n], 0, Zeros(g.ClusterSize())) == Zeros(g.ClusterSize());
          return n;
        }
        n := n + 1;
      }
    }

    /** Allocate a cluster and link it behind the last cluster of the chain `t`. */
    method GrowChain(cur: nat, ghost t: seq<nat>) returns (next: nat)
      requires Mounted() && Path(Vol().fat, t) && t != [] && cur == t[|t| - 1]
      modifies data
      ensures Mounted()
      ensures next == 0 ==> data[..] == old(data[..]) && Full()
      ensures next != 0 ==> 2 <= next < g.TableLen() && old(Vol()).fat[next] == 0
      ensures next != 0 ==> Vol() == Linked(old(Vol()), t, next, g.ClusterSize())
    {
      hide View, Mirrored;
      TableSmall(g, data.Length);
      next := AllocCluster();
      if next != 0 {
        var ok := FatSet(cur, next);
        if !ok {
          return;
        }
      }
    }

    /** The cluster at position `index` of the chain starting at `first`; with `grow` the chain is
        extended as far as needed or until the volume is full. */
    method ChainCluster(first: nat, index: nat, grow: bool, ghost s: seq<nat>) returns (c: nat, ghost t: seq<nat>)
      requires Mounted() && Chain(Vol().fat, first, s)
      modifies data
      ensures Mounted() && Path(Vol().fat, t)
      ensures Grown(old(Vol()), s, Vol(), t, g.ClusterSize())
      ensures !grow || index < |s| || s == [] ==> t == s && data[..] == old(data[..])
      ensures c == if index < |t| then t[index] else 0
      ensures c == 0 && grow && s != [] ==> Full()
      ensures |t| <= |s| || |t| <= index + 1
    {
      hide View, Mirrored, Geometry.Sound;
      ghost var csz := g.ClusterSize();
      ghost var d0, d := Vol(), Vol();
      c, t := 0, s;
      GrownRefl(d, s, csz);
      if first < 2 {
        return;
      }
      var cur := first;
      for i := 0 to index
        invariant Mounted() && d == Vol()
        invariant Path(d.fat, t) && Grown(d0, s, d, t, csz)
        invariant i < |t| && cur == t[i] && (|t| <= |s| || |t| <= i + 1)
        invariant !grow || i < |s| ==> t == s && data[..] == old(data[..])
      {
        PathEnd(d.fat, t, i);
        var next := FatGet(cur);
        if IsEoc(next) {
          if !grow {
            return;
          }
          next := GrowChain(cur, t);
          if next == 0 {
            return;
          }
          GrowOne(d, t, next, csz);
          GrownTrans(d0, s, d, t, Linked(d, t, next, csz), t + [next], csz);
          d, t := Linked(d, t, next, csz), t + [next];
        }
        if next < 2 || next >= g.TableLen() {
          return;
        }
        cur := next;
      }
      c := cur;
    }

    /** Terminates on every table, chains or not. */
    method FreeChain(first: nat)
      requires Mounted()
      modifies data
      ensures Mounted()
      ensures Vol() == Disk(FreeWalk(old(Vol()).fat, first), old(Vol()).data)
    {
      var cur: nat := first;
      while 2 <= cur < g.TableLen()
        invariant Mounted()
        invariant FreeWalk(Vol().fat, cur) == FreeWalk(old(Vol()).fat, first)
        invariant Vol().data == old(Vol()).data
        decreases FreeMeasure(Vol().fat, cur)
      {
        var next := FatGet(cur);
        NonZeroUpdate(Vol().fat, cur);
        var _ := FatSet(cur, 0);
        if IsEoc(next) {
          return;
        }
        cur := next;
      }
    }

    /** A memcpy that stays inside cluster `c`. */
    method WriteCluster(off: nat, b: seq<byte>, ghost c: nat, ghost p: nat)
      requires Mounted() && 2 <= c < g.TableLen() && p + |b| <= g.ClusterSize()
      requires off == g.ClusterOff(c) + p
      modifies data
      ensures Mounted()
      ensures Vol() == Disk(old(Vol()).fat, old(Vol()).data[c := Overlay(old(Vol()).data[c], p, b)])
    {
      ClusterOffBounds(g, data.Length, c);
      BlockWriteView(g, data[..], c, p, b);
      Put(off, b);
    }

    lemma Shape()
      requires Mounted()
      ensures Shaped(g.ClusterSize(), Vol())
    {
      ClusterSizeShape(g, data.Length);
      TableSmall(g, data.Length);
    }

    /** Cluster index and offset inside the cluster of file position `pos`. */
    method Locate(pos: nat) returns (q: nat, p: nat)
      requires g.ClusterSize() > 0
      ensures pos == Place(q, g.ClusterSize(), p) && p < g.ClusterSize()
    {
      var csz := g.ClusterSize();
      q, p := pos / csz, pos % csz;
    }

    /** One turn of the write loop: at most one cluster's worth of `rest` at offset `pos`. */
    method WriteChunk(first: nat, pos: nat, rest: seq<byte>, ghost s: seq<nat>) returns (n: nat, ghost t: seq<nat>)
      requires Mounted() && Chain(Vol().fat, first, s) && s != [] && rest != []
      modifies data
      ensures Mounted() && n <= |rest|
      ensures Rewritten(g.ClusterSize(), old(Vol()), s, Vol(), t)
      ensures Spliced(Raw(old(Vol()).data, s), Raw(Vol().data, t), pos, rest[..n])
      ensures n == 0 ==> Full()
      ensures |t| <= |s| || Needed(g.ClusterSize(), |t|, pos + 1)
    {
      hide View, Mirrored, Geometry.Sound, Place, Geometry.ClusterSize, Geometry.ClusterOff, Raw, Spliced, Rewritten;
      Shape();
      var csz := g.ClusterSize();
      ghost var d0 := Vol();
      var q, p := Locate(pos);
      var c;
      c, t := ChainCluster(first, q, true, s);
      if |s| < |t| {
        NeededFor(csz, q, p, pos, |t|);
      }
      ghost var d1 := Vol();
      n := 0;
      if c == 0 {
        NothingWritten(csz, d0, s, d1, t, pos);
        assert rest[..0] == [];
        return;
      }
      n := csz - p;
      if n > |rest| {
        n := |rest|;
      }
      ChunkWritten(csz, d0, s, d1, t, q, p, rest[..n]);
      WriteCluster(g.ClusterOff(c) + p, rest[..n], c, p);
    }

    // ----- directory

    lemma BlockSlice(c: nat, p: nat, n: nat)
      requires Mounted() && 2 <= c < g.TableLen() && p + n <= g.ClusterSize()
      ensures var off := g.ClusterOff(c) + p;
        0 < off && off + n <= data.Length && data[off..off + n] == Vol().data[c][p..p + n]
    {
      FatOffBounds(g, data.Length, 0, 0);
      ClusterOffBounds(g, data.Length, c);
    }

    lemma SlotBytes(r: SlotRef, off: nat)
      requires Mounted() && Path(Vol().fat, root) && Addresses(g, root, r, off)
      ensures r.k < Slots(Dir()) && 0 < off && off + 32 <= data.Length && data[off..off + 32] == SlotAt(Dir(), r.k)
    {
      hide View, Mirrored, Geometry.Sound, Place, Geometry.ClusterSize, Geometry.ClusterOff;
      Shape();
      BlockSlice(root[r.i], r.p, 32);
      RawSlice(Vol().data, root, g.ClusterSize(), r.i, r.p, 32);
    }

    /** find_dir_entry, one cluster of the directory: slots from number `k0` on, at `off`. */
    method ScanCluster(off: nat, name: seq<byte>, free0: nat, ghost i: nat, ghost k0: nat, ghost spare0: SlotRef)
      returns (verdict: Verdict, at: nat, free: nat, ghost r: SlotRef, ghost spare: SlotRef)
      requires Mounted() && Path(Vol().fat, root) && i < |root|
      requires off == g.ClusterOff(root[i]) && 32 * k0 == Place(i, g.ClusterSize(), 0)
      requires k0 <= Slots(Dir()) && AllPassed(Dir(), name, k0)
      requires FreeOk(g, root, Dir(), free0, spare0, k0)
      ensures verdict == Other ==> 32 * r.k == Place(i + 1, g.ClusterSize(), 0)
      ensures verdict != Other ==>
                r.k < Slots(Dir()) && Addresses(g, root, r, at) && Judge(SlotAt(Dir(), r.k), name) == verdict
      ensures verdict != Deleted && at != 0
      ensures r.k <= Slots(Dir()) && AllPassed(Dir(), name, r.k) && FreeOk(g, root, Dir(), free, spare, r.k)
    {
      hide View, Mirrored, Geometry.Sound, Place, Geometry.ClusterSize, Geometry.ClusterOff, Raw, Judge, FreeOk;
      hide AllPassed, At, Addresses;
      Shape();
      PathEnd(Vol().fat, root, i);
      var csz := g.ClusterSize();
      ghost var dir := Dir();
      free, spare, at := free0, spare0, off;
      AddressOf(g, root, i, k0, 0);
      PlaceNext(i, csz);
      PlaceAdd(i, csz, csz);
      SlotBytes(SlotRef(k0, i, 0), off);
      var pos := 0;
      ghost var n := 0;
      while pos + 32 <= csz
        invariant pos == 32 * n && pos <= csz && at != 0
        invariant k0 + n <= Slots(dir)
        invariant AllPassed(dir, name, k0 + n) && FreeOk(g, root, dir, free, spare, k0 + n)
      {
        at := off + pos;
        r := SlotRef(k0 + n, i, 32 * n);
        AddressOf(g, root, i, k0, n);
        SlotBytes(r, at);
        verdict := Judge(data[at..at + 32], name);
        if verdict == End || verdict == Match {
          return;
        }
        FreeStep(g, root, dir, name, free, spare, at, r);
        if verdict == Deleted && free == 0 {
          free, spare := at, r;
        }
        pos, n := pos + 32, n + 1;
      }
      verdict, r := Other, SlotRef(k0 + n, i, 32 * n);
    }

    lemma DirLength()
      requires Mounted() && Path(Vol().fat, root)
      ensures |Dir()| == Place(|root|, g.ClusterSize(), 0)
    {
      Shape();
      RawLen(Vol().data, root, g.ClusterSize());
    }

    method FindDirEntry(name: seq<byte>)
      returns (found: bool, entryOff: nat, freeOff: nat, ghost r: SlotRef, ghost spare: SlotRef)
      requires Mounted() && Path(Vol().fat, root) && root != [] && root[0] == g.rootCluster
      ensures found ==> Addresses(g, root, r, entryOff) && Named(Dir(), r.k, name)
      ensures found ==> forall k: nat :: k < r.k ==> !Named(Dir(), k, name)
      ensures !found ==> forall k: nat :: !Named(Dir(), k, name)
      ensures !found && freeOff != 0 ==> Addresses(g, root, spare, freeOff) && IsSpare(Dir(), spare.k)
      ensures !found && freeOff == 0 ==> forall k: nat :: !IsSpare(Dir(), k)
    {
      hide View, Mirrored, Geometry.Sound, Place, Geometry.ClusterSize, Geometry.ClusterOff, Raw, Judge, AllPassed, At;
      hide Addresses, Named, IsSpare;
      ghost var dir := Dir();
      ghost var i, k0 := 0, 0;
      var c: nat := g.rootCluster;
      found, entryOff, freeOff, r, spare := false, 0, 0, SlotRef(0, 0, 0), SlotRef(0, 0, 0);
      NonePassed(dir, name);
      PlaceZero(g.ClusterSize());
      while 2 <= c < g.TableLen()
        invariant i < |root| && c == root[i]
        invariant 32 * k0 == Place(i, g.ClusterSize(), 0) && k0 <= Slots(dir)
        invariant AllPassed(dir, name, k0) && FreeOk(g, root, dir, freeOff, spare, k0)
        invariant !found
        decreases |root| - i
      {
        var verdict, at;
        verdict, at, freeOff, r, spare := ScanCluster(g.ClusterOff(c), name, freeOff, i, k0, spare);
        if verdict == End {
          NoMatch(dir, name, r.k);
          SpareHere(dir, name, r.k);
          if freeOff == 0 {
            freeOff, spare := at, r;
          }
          return;
        }
        if verdict == Match {
          FirstMatch(dir, name, r.k);
          found, entryOff := true, at;
          return;
        }
        PathEnd(Vol().fat, root, i);
        var next := FatGet(c);
        if IsEoc(next) {
          DirLength();
          NoMatch(dir, name, r.k);
          if freeOff == 0 {
            NoSpare(dir, name);
          }
          return;
        }
        c, i, k0 := next, i + 1, r.k;
      }
    }

    /** A store into the 32 bytes of directory slot `r`, `j` bytes behind its start. */
    method PokeSlot(off: nat, b: seq<byte>, ghost r: SlotRef, ghost j: nat,
                    ghost d0: Disk, ghost cs: map<nat, seq<nat>>, ghost dir: seq<byte>)
      requires j <= off && Mounted() && Addresses(g, root, r, off - j) && root[r.i] < g.TableLen() && j + |b| <= 32
      requires DirOnly(g.ClusterSize(), d0, Vol(), root, cs, dir)
      modifies data
      ensures Mounted() && 32 * r.k + j + |b| <= |dir|
      ensures DirOnly(g.ClusterSize(), d0, Vol(), root, cs, Overlay(dir, 32 * r.k + j, b))
    {
      hide View, Mirrored, Geometry.Sound, Place, Geometry.ClusterSize, Geometry.ClusterOff, Raw, DirOnly;
      ghost var d := Vol();
      assert Path(d.fat, root) by {
        DirOnlyPath(g.ClusterSize(), d0, d, root, cs, dir);
      }
      PlaceAdd(r.i, g.ClusterSize(), r.p);
      PlaceAdd(r.i, g.ClusterSize(), r.p + j);
      DirOnlyPoke(g.ClusterSize(), d0, d, root, cs, dir, r.i, r.p + j, b);
      WriteCluster(off, b, root[r.i], r.p + j);
    }

    /** entry_set_first_cluster and the size field of the entry at `off`. */
    method WriteEntry(off: nat, first: nat, size: nat, ghost r: SlotRef,
                      ghost d0: Disk, ghost cs: map<nat, seq<nat>>, ghost dir: seq<byte>)
      requires Mounted() && Addresses(g, root, r, off) && root[r.i] < g.TableLen()
      requires DirOnly(g.ClusterSize(), d0, Vol(), root, cs, dir)
      requires first < 0x1_0000_0000 && size < 0x1_0000_0000 && r.k < Slots(dir)
      modifies data
      ensures Mounted()
      ensures DirOnly(g.ClusterSize(), d0, Vol(), root, cs, SetEntry(dir, r.k, first, size))
    {
      hide View, Mirrored, Geometry.Sound, Place, Geometry.ClusterSize, Geometry.ClusterOff, Raw, DirOnly;
      ghost var k, hi, lo := r.k, Bytes16(first / 0x1_0000), Bytes16(first % 0x1_0000);
      PokeSlot(off + 20, Bytes16(first / 0x1_0000), r, 20, d0, cs, dir);
      PokeSlot(off + 26, Bytes16(first % 0x1_0000), r, 26, d0, cs, Overlay(dir, 32 * k + 20, hi));
      PokeSlot(off + 28, Bytes32(size), r, 28, d0, cs, Overlay(Overlay(dir, 32 * k + 20, hi), 32 * k + 26, lo));
    }

    /** The stores fs_open makes for a new entry. */
    method CreateEntry(off: nat, name: seq<byte>, ghost r: SlotRef,
                       ghost d0: Disk, ghost cs: map<nat, seq<nat>>, ghost dir: seq<byte>)
      requires Mounted() && Addresses(g, root, r, off) && root[r.i] < g.TableLen() && |name| == 11
      requires DirOnly(g.ClusterSize(), d0, Vol(), root, cs, dir) && r.k < Slots(dir)
      modifies data
      ensures Mounted()
      ensures DirOnly(g.ClusterSize(), d0, Vol(), root, cs, AddEntry(dir, r.k, name))
    {
      hide View, Mirrored, Geometry.Sound, Place, Geometry.ClusterSize, Geometry.ClusterOff, Raw, DirOnly;
      ghost var k := r.k;
      PokeSlot(off, Zeros(32), r, 0, d0, cs, dir);
      ghost var dir1 := Overlay(dir, 32 * k, Zeros(32));
      PokeSlot(off, name, r, 0, d0, cs, dir1);
      ghost var dir2 := Overlay(dir1, 32 * k, name);
      PokeSlot(off + 11, [ATTR_ARCHIVE], r, 11, d0, cs, dir2);
      ghost var dir3 := Overlay(dir2, 32 * k + 11, [ATTR_ARCHIVE]);
      assert dir3 == AddEntry(dir, k, name);
      WriteEntry(off, 0, 0, r, d0, cs, dir3);
      SetEntryZero(dir, k, name);
    }

    // ----- file calls

    lemma RootFacts()
      requires VolumeOk()
      ensures Path(Vol().fat, root) && Shaped(g.ClusterSize(), Vol()) && Separate(Vol(), root, chains)
    {
    }

    lemma SlotFacts(r: SlotRef, off: nat)
      requires VolumeOk() && Addresses(g, root, r, off)
      ensures Shaped(g.ClusterSize(), Vol()) && Separate(Vol(), root, chains)
      ensures Path(Vol().fat, root) && root[r.i] < g.TableLen() && r.k < Slots(Dir())
    {
      hide View, Mirrored, Geometry.Sound, Place, Geometry.ClusterSize, Geometry.ClusterOff, Raw, Listed;
      SlotBytes(r, off);
    }

    /** What the invariant says about the slot `r` of a file. */
    lemma FileFacts(r: SlotRef, off: nat)
      requires VolumeOk() && Addresses(g, root, r, off) && r.k in chains
      ensures Shaped(g.ClusterSize(), Vol())
      ensures Path(Vol().fat, root) && root[r.i] < g.TableLen() && r.k < Slots(Dir())
      ensures Path(Vol().fat, chains[r.k]) && Head(chains[r.k]) < 0x1_0000_0000
      ensures Head(chains[r.k]) == 0 <==> chains[r.k] == []
      ensures r.k in FileMap() && FileMap()[r.k].name == Name(Dir(), r.k)
      ensures FileMap()[r.k].raw == Raw(Vol().data, chains[r.k]) && FileMap()[r.k].size <= |FileMap()[r.k].raw|
      ensures FileMap()[r.k].size < 0x1_0000_0000
    {
      hide View, Mirrored, Geometry.Sound, Place, Geometry.ClusterSize, Geometry.ClusterOff, Raw;
      SlotBytes(r, off);
    }

    method ReadEntry(off: nat, ghost r: SlotRef) returns (first: nat, size: nat)
      requires VolumeOk() && Addresses(g, root, r, off) && r.k in chains
      ensures first == Head(chains[r.k]) && size == FileMap()[r.k].size
    {
      hide View, Mirrored, Geometry.Sound, Place, Geometry.ClusterSize, Geometry.ClusterOff, Raw;
      SlotBytes(r, off);
      SlotFields(Dir(), r.k);
      var e := data[off..off + 32];
      first := Le16(e, 20) * 0x1_0000 + Le16(e, 26);
      size := Le32(e, 28);
    }

    /** O_TRUNC: free the chain, then clear first cluster and size. */
    method Truncate(off: nat, ghost r: SlotRef)
      requires VolumeOk() && Addresses(g, root, r, off) && r.k in chains
      modifies data, this`chains
      ensures VolumeOk() && chains == old(chains)[r.k := []]
      ensures FileMap() == old(FileMap())[r.k := File(old(FileMap())[r.k].name, 0, [])]
      ensures Vol().fat == Freed(old(Vol()).fat, old(chains)[r.k])
    {
      hide View, Mirrored, Geometry.Sound, Place, Geometry.ClusterSize, Geometry.ClusterOff, Raw, SetEntry, FsOk, Files;
      hide Separate, DirOnly, Path;
      ghost var csz, d0, dir, k, s := g.ClusterSize(), Vol(), Dir(), r.k, chains[r.k];
      FileFacts(r, off);
      var first, _ := ReadEntry(off, r);
      if first != 0 {
        FreeWalkPath(d0.fat, s);
        FreeChain(first);
      }
      ghost var d1 := Vol();
      assert d1 == Disk(Freed(d0.fat, s), d0.data);
      ChainFreed(csz, d0, root, chains, k);
      DirOnlyRefl(csz, d1, root, chains[k := []]);
      WriteEntry(off, 0, 0, r, d1, chains[k := []], dir);
      DirOnlyRaw(csz, d1, Vol(), root, chains[k := []], SetEntry(dir, k, 0, 0));
      RawNone(d1.data);
      ChangeCompleted(csz, d0, root, chains, d1, k, [], 0, Vol());
      chains := chains[k := []];
    }

    method Create(off: nat, name: seq<byte>, ghost r: SlotRef)
      requires VolumeOk() && Addresses(g, root, r, off) && IsSpare(Dir(), r.k)
      requires |name| == 11 && name[0] != 0 && name[0] != 0xE5
      modifies data, this`chains
      ensures VolumeOk() && r.k !in old(chains) && chains == old(chains)[r.k := []]
      ensures FileMap() == old(FileMap())[r.k := File(name, 0, [])]
      ensures Vol().fat == old(Vol()).fat
    {
      hide View, Mirrored, Geometry.Sound, Place, Geometry.ClusterSize, Geometry.ClusterOff, Raw, AddEntry, FsOk, Files;
      hide Separate, Described, DirOnly, IsSpare;
      ghost var csz, d0, dir, k := g.ClusterSize(), Vol(), Dir(), r.k;
      SlotFacts(r, off);
      DirOnlyRefl(csz, d0, root, chains);
      CreateEntry(off, name, r, d0, chains, dir);
      DirOnlyRaw(csz, d0, Vol(), root, chains, AddEntry(dir, k, name));
      AddCompleted(csz, d0, root, chains, k, name, Vol());
      chains := chains[k := []];
    }

    /** The first descriptor that is not in use. */
    method FreeDescriptor() returns (fd: int)
      requires |open| == FS_MAX_OPEN
      ensures -1 <= fd < FS_MAX_OPEN
      ensures fd == -1 ==> forall j :: 0 <= j < FS_MAX_OPEN ==> open[j].used
      ensures fd != -1 ==> !open[fd].used && forall j :: 0 <= j < fd ==> open[j].used
    {
      for i := 0 to FS_MAX_OPEN
        invariant forall j :: 0 <= j < i ==> open[j].used
      {
        if !open[i].used {
          return i;
        }
      }
      return -1;
    }

    /** Find, create or truncate the entry for `name`. */
    method Lookup(name: seq<byte>, flags: bv32) returns (how: OpenCase, entryOff: nat, ghost r: SlotRef)
      requires VolumeOk() && |name| == 11 && name[0] != 0 && name[0] != 0xE5
      modifies data, this`chains
      ensures VolumeOk()
      ensures how == Missing <==>
        && (forall j :: j in old(FileMap()) ==> old(FileMap())[j].name != name)
        && (flags & O_CREAT == 0 || forall j: nat :: !IsSpare(old(Dir()), j))
      ensures how == Found || how == Truncated ==> r.k in old(FileMap()) && old(FileMap())[r.k].name == name
      ensures how == Found || how == Truncated ==>
        forall j :: j in old(FileMap()) && j < r.k ==> old(FileMap())[j].name != name
      ensures how == Truncated ==> flags & O_TRUNC != 0
      ensures how == Found ==> flags & O_TRUNC == 0
      ensures how == Created ==>
                r.k !in old(FileMap()) && forall j :: j in old(FileMap()) ==> old(FileMap())[j].name != name
      ensures FileMap() == if how == Truncated || how == Created then old(FileMap())[r.k := File(name, 0, [])]
                           else old(FileMap())
      ensures chains == if how == Truncated || how == Created then old(chains)[r.k := []] else old(chains)
      ensures Vol().fat == if how == Truncated then Freed(old(Vol()).fat, old(chains)[r.k]) else old(Vol()).fat
      ensures how != Missing ==> Addresses(g, root, r, entryOff) && r.k in chains
      ensures how == Missing || how == Found ==> data[..] == old(data[..])
    {
      hide View, Mirrored, Geometry.Sound, Place, Geometry.ClusterSize, Geometry.ClusterOff, Raw, FsOk, Addresses;
      hide IsSpare, Named, Freed;
      how := Missing;
      var found, freeOff;
      ghost var spare;
      RootFacts();
      found, entryOff, freeOff, r, spare := FindDirEntry(name);
      NamedFiles(name);
      if !found {
        if flags & O_CREAT == 0 || freeOff == 0 {
          return;
        }
        entryOff, r, how := freeOff, spare, Created;
        Create(entryOff, name, r);
      } else if flags & O_TRUNC != 0 {
        how := Truncated;
        Truncate(entryOff, r);
      } else {
        how := Found;
      }
    }

    /** The descriptor half of fs_open. */
    method Attach(entryOff: nat, flags: bv32, ghost r: SlotRef) returns (fd: int)
      requires Valid() && Addresses(g, root, r, entryOff) && r.k in chains
      modifies this`open, this`slots
      ensures Valid()
      ensures fd == -1 ==>
                open == old(open) && slots == old(slots) && forall j :: 0 <= j < FS_MAX_OPEN ==> old(open)[j].used
      ensures fd != -1 ==> 0 <= fd < FS_MAX_OPEN && !old(open)[fd].used
      ensures fd != -1 ==> slots == old(slots)[fd := r] && r.k in FileMap()
      ensures fd != -1 ==> open == old(open)[fd := OpenFile(true, entryOff, Head(chains[r.k]), FileMap()[r.k].size,
        if flags & O_APPEND != 0 then FileMap()[r.k].size else 0, flags)]
    {
      hide View, Mirrored, Geometry.Sound, Place, Geometry.ClusterSize, Geometry.ClusterOff, Raw, FsOk, Addresses;
      hide Files;
      FileFacts(r, entryOff);
      fd := FreeDescriptor();
      if fd != -1 {
        var first, size := ReadEntry(entryOff, r);
        open := open[fd := OpenFile(true, entryOff, first, size, if flags & O_APPEND != 0 then size else 0, flags)];
        slots := slots[fd := r];
      }
    }

    /** fs_open on an already shortened name. A file opened with O_TRUNC must not be open already. */
    method Open(name: seq<byte>, flags: bv32) returns (fd: int, ghost how: OpenCase, ghost k: nat)
      requires Valid() && |name| == 11 && name[0] != 0 && name[0] != 0xE5
      requires flags & 0x20 != 0 ==>
        forall j :: 0 <= j < FS_MAX_OPEN && open[j].used ==> FileMap()[slots[j].k].name != name
      modifies this, data
      ensures Valid() && root == old(root)
      ensures how == Missing <==>
        && (forall j :: j in old(FileMap()) ==> old(FileMap())[j].name != name)
        && (flags & 0x10 == 0 || forall j: nat :: !IsSpare(old(Dir()), j))
      ensures how == Found || how == Truncated ==> k in old(FileMap()) && old(FileMap())[k].name == name
      ensures how == Found || how == Truncated ==>
        forall j :: j in old(FileMap()) && j < k ==> old(FileMap())[j].name != name
      ensures how == Truncated ==> flags & 0x20 != 0
      ensures how == Found ==> flags & 0x20 == 0
      ensures how == Created ==>
                k !in old(FileMap()) && forall j :: j in old(FileMap()) ==> old(FileMap())[j].name != name
      ensures FileMap() == if how == Truncated || how == Created then old(FileMap())[k := File(name, 0, [])]
                           else old(FileMap())
      ensures Vol().fat == if how == Truncated then Freed(old(Vol()).fat, old(chains)[k]) else old(Vol()).fat
      ensures how == Missing || how == Found ==> data[..] == old(data[..])
      ensures fd == -1 ==> open == old(open) && slots == old(slots)
      ensures fd == -1 ==> how == Missing || forall j :: 0 <= j < FS_MAX_OPEN ==> old(open)[j].used
      ensures fd != -1 ==> how != Missing && 0 <= fd < FS_MAX_OPEN && !old(open)[fd].used && k in FileMap()
      ensures fd != -1 ==> open[fd].pos == if flags & 0x40 != 0 then FileMap()[k].size else 0
      ensures fd != -1 ==> open[fd].used && open[fd].flags == flags && slots[fd].k == k
      ensures fd != -1 ==> open == old(open)[fd := open[fd]] && slots == old(slots)[fd := slots[fd]]
    {
      hide View, Mirrored, Geometry.Sound, Place, Geometry.ClusterSize, Geometry.ClusterOff, Raw, FsOk, Addresses;
      hide Files, IsSpare, Freed;
      var outcome, entryOff;
      ghost var r;
      outcome, entryOff, r := Lookup(name, flags);
      fd, how, k := -1, outcome, r.k;
      if outcome != Missing {
        fd := Attach(entryOff, flags, r);
      }
    }

    /** Looking a name up in the directory is looking it up among the files. */
    lemma NamedFiles(name: seq<byte>)
      requires VolumeOk()
      ensures forall j: nat :: Named(Dir(), j, name) <==> j in FileMap() && FileMap()[j].name == name
    {
    }

    /** What can be opened is neither deleted, nor a sub-directory, nor part of a long name. */
    lemma FilesArePlain(k: nat)
      requires VolumeOk() && k in FileMap()
      ensures k < Slots(Dir()) && Mark(Dir(), k) != 0 && Mark(Dir(), k) != 0xE5
      ensures Bits.And(Attr(Dir(), k), 0x10) == 0 && Bits.And(Attr(Dir(), k), 0x0F) != 0x0F
    {
      hide Bits.And, Raw, Attr, Mark, Slots;
      assert IsFile(Dir(), k);
      PlainFile(Dir(), k);
    }

    /** No chain is longer than 4 GiB, so file positions inside one never wrap. */
    lemma RawBound(s: seq<nat>)
      requires Mounted() && Path(Vol().fat, s)
      ensures |Raw(Vol().data, s)| == Place(|s|, g.ClusterSize(), 0) < 0x1_0000_0000
    {
      Shape();
      ClusterSizeFits(g, data.Length);
      hide View, Mirrored, Geometry.Sound, Place, Geometry.ClusterSize, Raw;
      RawLen(Vol().data, s, g.ClusterSize());
      PathLength(Vol().fat, s);
      PlaceMono(|s|, g.totalClusters, g.ClusterSize());
    }

    predicate Usable(fd: int)
      reads this
    {
      0 <= fd < FS_MAX_OPEN && fd < |open| && open[fd].used
    }

    /** One turn of the read loop: the bytes of the chain at `pos`, up to the end of their cluster. */
    method ReadChunk(first: nat, pos: nat, len: nat, ghost s: seq<nat>) returns (chunk: seq<byte>)
      requires Mounted() && Chain(Vol().fat, first, s) && pos < |Raw(Vol().data, s)| && len > 0
      modifies data
      ensures data[..] == old(data[..]) && 0 < |chunk| <= len && pos + |chunk| <= |Raw(Vol().data, s)|
      ensures chunk == Raw(Vol().data, s)[pos..pos + |chunk|]
    {
      hide View, Mirrored, Geometry.Sound, Place, Geometry.ClusterSize, Geometry.ClusterOff, Raw;
      Shape();
      RawBound(s);
      var csz := g.ClusterSize();
      var q, p := Locate(pos);
      if q >= |s| {
        PlaceMono(|s|, q, csz);
        PlaceAdd(q, csz, p);
      }
      var c, _ := ChainCluster(first, q, false, s);
      var n := csz - p;
      if n > len {
        n := len;
      }
      BlockSlice(c, p, n);
      RawSlice(Vol().data, s, csz, q, p, n);
      chunk := data[g.ClusterOff(c) + p..g.ClusterOff(c) + p + n];
    }

    method ReadData(first: nat, pos: nat, want: nat, ghost s: seq<nat>) returns (out: seq<byte>)
      requires Mounted() && Chain(Vol().fat, first, s) && pos + want <= |Raw(Vol().data, s)|
      modifies data
      ensures data[..] == old(data[..]) && out == Raw(Vol().data, s)[pos..pos + want]
    {
      hide View, Mirrored, Geometry.Sound, Place, Geometry.ClusterSize, Geometry.ClusterOff, Raw, Chain;
      ghost var raw := Raw(Vol().data, s);
      out := [];
      while |out| < want
        invariant data[..] == old(data[..])
        invariant |out| <= want && out == raw[pos..pos + |out|]
      {
        var chunk := ReadChunk(first, pos + |out|, want - |out|, s);
        out := out + chunk;
      }
    }

    /** fs_read_fd returns exactly the matching slice of the file. */
    method ReadFd(fd: int, len: nat) returns (r: int, out: seq<byte>)
      requires Valid()
      modifies data, this`open
      ensures Valid() && data[..] == old(data[..]) && FileMap() == old(FileMap())
      ensures r == -1 <==> !old(Usable(fd))
      ensures r == -1 ==> open == old(open)
      ensures old(Usable(fd)) ==>
        var f, pos := old(FileMap())[slots[fd].k].Contents(), old(open)[fd].pos;
        var want := if pos >= |f| then 0 else if len < |f| - pos then len else |f| - pos;
        && r == want
        && out == (if want == 0 then [] else f[pos..pos + want])
        && open == old(open)[fd := old(open)[fd].(pos := pos + want)]
    {
      hide View, Mirrored, Geometry.Sound, Place, Geometry.ClusterSize, Geometry.ClusterOff, Raw, FsOk, Files;
      hide Addresses, Path;
      out := [];
      if !Usable(fd) {
        return -1, [];
      }
      var of := open[fd];
      ghost var s := chains[slots[fd].k];
      FileFacts(slots[fd], of.dirOff);
      if of.pos >= of.size || len == 0 {
        return 0, [];
      }
      var want := len;
      if want > of.size - of.pos {
        want := of.size - of.pos;
      }
      RawBound(s);
      out := ReadData(of.first, of.pos, want, s);
      open := open[fd := of.(pos := of.pos + want)];
      r := want;
    }

    /** The data half of fs_write_fd: allocate a first cluster if there is none, then the write loop. */
    method WriteData(first0: nat, pos: nat, buf: seq<byte>, ghost s: seq<nat>)
      returns (ok: bool, first: nat, done: nat, ghost t: seq<nat>)
      requires Mounted() && Chain(Vol().fat, first0, s)
      modifies data
      ensures Mounted()
      ensures !ok <==> first0 == 0 && old(Full())
      ensures !ok ==> data[..] == old(data[..])
      ensures ok ==> t != [] && first == Head(t) && done <= |buf|
      ensures ok ==> Rewritten(g.ClusterSize(), old(Vol()), s, Vol(), t)
      ensures ok ==> Spliced(Raw(old(Vol()).data, s), Raw(Vol().data, t), pos, buf[..done])
      ensures ok && done < |buf| ==> Full()
      ensures ok ==> |t| <= |s| || Needed(g.ClusterSize(), |t|, pos + |buf|)
    {
      hide View, Mirrored, Geometry.Sound, Place, Geometry.ClusterSize, Geometry.ClusterOff, Raw, Rewritten, Spliced;
      hide Path, Grown, Needed;
      Shape();
      ghost var csz, d0, raw0 := g.ClusterSize(), Vol(), Raw(Vol().data, s);
      ok, first, done, t := true, first0, 0, s;
      GrownRefl(d0, s, csz);
      if first == 0 {
        first := AllocCluster();
        if first == 0 {
          ok := false;
          return;
        }
        GrowOne(d0, s, first, csz);
        t := s + [first];
      }
      NothingWritten(csz, d0, s, Vol(), t, pos);
      NeededOne(csz, pos + |buf|);
      ghost var d := Vol();
      assert buf[..0] == [];
      while done < |buf|
        invariant Mounted() && d == Vol() && done <= |buf|
        invariant t != [] && Chain(d.fat, first, t)
        invariant Rewritten(csz, d0, s, d, t)
        invariant |t| <= |s| || Needed(csz, |t|, pos + |buf|)
        invariant Spliced(raw0, Raw(d.data, t), pos, buf[..done])
      {
        ghost var t';
        var step;
        step, t' := WriteChunk(first, pos + done, buf[done..], t);
        assert buf[..done + step] == buf[..done] + buf[done..][..step];
        RewrittenTrans(csz, d0, s, d, t, Vol(), t');
        SplicedTrans(raw0, Raw(d.data, t), Raw(Vol().data, t'), pos, buf[..done], buf[done..][..step]);
        RewrittenChain(csz, d, t, Vol(), t', first);
        NeededMore(csz, |s|, |t|, |t'|, pos + done + 1, pos + |buf|);
        d, t := Vol(), t';
        done := done + step;
        if step == 0 {
          return;
        }
      }
    }

    /** WriteData followed by the update of the directory entry. */
    method WriteFile(of: OpenFile, buf: seq<byte>, ghost r: SlotRef)
      returns (ok: bool, first: nat, size: nat, done: nat)
      requires VolumeOk() && Coherent(g, root, chains, FileMap(), of, r)
      modifies data, this`chains
      ensures VolumeOk()
      ensures !ok <==> of.first == 0 && old(Full())
      ensures !ok ==> data[..] == old(data[..]) && chains == old(chains)
      ensures ok ==> done <= |buf| && size == if done > 0 && of.pos + done > of.size then of.pos + done else of.size
      ensures ok ==>
                r.k in FileMap() &&
                  FileMap() == old(FileMap())[r.k := File(old(FileMap())[r.k].name, size, FileMap()[r.k].raw)]
      ensures ok ==> Spliced(old(FileMap())[r.k].raw, FileMap()[r.k].raw, of.pos, buf[..done])
      ensures ok ==>
                r.k in chains && chains == old(chains)[r.k := chains[r.k]] && first == Head(chains[r.k]) &&
                  of.pos + done < 0x1_0000_0000
      ensures ok && done < |buf| ==> Full()
      ensures ok ==> |chains[r.k]| <= |old(chains)[r.k]| || Needed(g.ClusterSize(), |chains[r.k]|, of.pos + |buf|)
    {
      hide View, Mirrored, Geometry.Sound, Place, Geometry.ClusterSize, Geometry.ClusterOff, Raw, Rewritten, Spliced;
      hide Path, FsOk, Files, SetEntry, Needed;
      FileFacts(r, of.dirOff);
      ghost var t;
      ghost var csz, d0, dir, k := g.ClusterSize(), Vol(), Dir(), r.k;
      ok, first, done, t := WriteData(of.first, of.pos, buf, chains[k]);
      size := of.size;
      if !ok {
        return;
      }
      ghost var d1 := Vol();
      SplicedSize(Raw(d0.data, chains[k]), Raw(d1.data, t), of.pos, buf[..done]);
      RewrittenOthers(csz, d0, root, chains, k, d1, t);
      RewrittenPath(csz, d0, chains[k], d1, t);
      RawBound(t);
      if done > 0 && of.pos + done > size {
        size := of.pos + done;
      }
      DirOnlyRefl(csz, d1, root, chains[k := t]);
      WriteEntry(of.dirOff, first, size, r, d1, chains[k := t], dir);
      DirOnlyRaw(csz, d1, Vol(), root, chains[k := t], SetEntry(dir, k, first, size));
      ChangeCompleted(csz, d0, root, chains, d1, k, t, size, Vol());
      chains := chains[k := t];
    }

    /** fs_write_fd overlays exactly the written part of `buf` on the file at the descriptor's
        position and changes no other file. No other descriptor may be open on the same file. */
    method WriteFd(fd: int, buf: seq<byte>) returns (r: int)
      requires Valid()
      requires Usable(fd) ==>
        forall j :: 0 <= j < FS_MAX_OPEN && j != fd && open[j].used ==> open[j].dirOff != open[fd].dirOff
      modifies this, data
      ensures Valid() && root == old(root) && slots == old(slots)
      ensures r == -1 <==>
        || !old(Usable(fd))
        || (old(open)[fd].flags & 0x02 == 0 && old(open)[fd].flags & 0x03 != 0x03)
        || (old(open)[fd].first == 0 && old(Full()))
      ensures r == -1 ==> open == old(open) && data[..] == old(data[..]) && FileMap() == old(FileMap())
      ensures r != -1 ==> 0 <= r <= |buf| && slots[fd].k in FileMap()
      ensures r != -1 ==>
        var k := slots[fd].k;
        var f, pos := old(FileMap())[k], old(open)[fd].pos;
        var size := if r > 0 && pos + r > f.size then pos + r else f.size;
        && FileMap() == old(FileMap())[k := File(f.name, size, FileMap()[k].raw)]
        && Spliced(f.raw, FileMap()[k].raw, pos, buf[..r])
        && open == old(open)[fd := old(open)[fd].(first := open[fd].first, size := size, pos := pos + r)]
      ensures r != -1 && r < |buf| ==> Full()
      ensures r != -1 ==> slots[fd].k in chains && slots[fd].k in old(chains)
      ensures r != -1 ==>
        var n := |chains[slots[fd].k]|;
        n <= |old(chains)[slots[fd].k]| || n == 1 || (n - 1) * g.ClusterSize() < old(open)[fd].pos + |buf|
    {
      hide View, Mirrored, Geometry.Sound, Place, Geometry.ClusterSize, Geometry.ClusterOff, Raw, Spliced, FsOk, Files;
      hide Addresses;
      if !Usable(fd) {
        return -1;
      }
      var of := open[fd];
      if of.flags & O_WRONLY == 0 && of.flags & O_RDWR != O_RDWR {
        return -1;
      }
      forall j | 0 <= j < FS_MAX_OPEN && j != fd && open[j].used
        ensures slots[j].k != slots[fd].k
      {
        OneAddress(g, root, slots[j], open[j].dirOff, slots[fd], of.dirOff);
      }
      var ok, first, size, done := WriteFile(of, buf, slots[fd]);
      if !ok {
        return -1;
      }
      open := open[fd := of.(first := first, size := size, pos := of.pos + done)];
      r := done;
    }

    /** fs_lseek_fd; the position is stored in 32 bits. */
    method LseekFd(fd: int, offset: int, whence: int) returns (r: int)
      requires Valid()
      modifies this`open
      ensures Valid() && FileMap() == old(FileMap())
      ensures !old(Usable(fd)) || !(0 <= whence <= 2) ==> r == -1
      ensures old(Usable(fd)) && whence == 0 ==> r == if offset < 0 then -1 else offset
      ensures old(Usable(fd)) && whence == 1 ==>
        var next := old(open)[fd].pos + offset;
        r == if next < 0 then -1 else next
      ensures old(Usable(fd)) && whence == 2 ==>
        var next := old(FileMap())[slots[fd].k].size + offset;
        r == if next < 0 then -1 else next
      ensures r == -1 ==> open == old(open)
      ensures r != -1 ==> open == old(open)[fd := old(open)[fd].(pos := r % 0x1_0000_0000)]
    {
      hide View, Mirrored, Geometry.Sound, Place, Geometry.ClusterSize, Geometry.ClusterOff, Raw, FsOk, Files;
      hide Addresses;
      if !Usable(fd) {
        return -1;
      }
      var base;
      if whence == 0 {
        base := 0;
      } else if whence == 1 {
        base := open[fd].pos;
      } else if whence == 2 {
        base := open[fd].size;
      } else {
        return -1;
      }
      var next := base + offset;
      if next < 0 {
        return -1;
      }
      open := open[fd := open[fd].(pos := next % 0x1_0000_0000)];
      return next;
    }

    method Close(fd: int) returns (r: int)
      requires Valid()
      modifies this`open
      ensures Valid() && FileMap() == old(FileMap())
      ensures r == if old(Usable(fd)) then 0 else -1
      ensures open == if r == 0 then old(open)[fd := CLOSED] else old(open)
    {
      hide View, Mirrored, Geometry.Sound, Place, Geometry.ClusterSize, Geometry.ClusterOff, Raw, FsOk, Files;
      hide Addresses;
      if !Usable(fd) {
        return -1;
      }
      open := open[fd := CLOSED];
      return 0;
    }
  }
}
