/** Where a FAT32 volume keeps its tables and clusters, and the view of the byte
    array as one table of 28-bit entries plus one byte block per cluster. */
module FatLayout {
  import opened Common
  import opened Bytes

  const ENTRY_MASK := 0x1000_0000        // fat_get and fat_set keep the low 28 bits
  const FAT32_EOC := 0x0FFF_FFF8
  const FAT32_EOC_MARK := 0x0FFF_FFFF

  datatype Geometry = Geometry(
    bytesPerSector: nat, sectorsPerCluster: nat, reservedSectors: nat, fatCount: nat,
    sectorsPerFat: nat, totalSectors: nat, rootCluster: nat, firstDataSector: nat, totalClusters: nat)
  {
    function ClusterSize(): nat { bytesPerSector * sectorsPerCluster }
    function DataBase(): nat { firstDataSector * bytesPerSector }
    function TableLen(): nat { totalClusters + 2 }

    /** What a usable mount guarantees about the layout of `size` bytes. */
    ghost predicate Sound(size: nat) {
      && bytesPerSector >= 512 && bytesPerSector % 512 == 0
      && sectorsPerCluster >= 1 && reservedSectors >= 1 && fatCount >= 1
      && rootCluster >= 2 && totalClusters >= 1
      && firstDataSector == reservedSectors + fatCount * sectorsPerFat
      && firstDataSector + totalClusters * sectorsPerCluster <= totalSectors
      && totalSectors * bytesPerSector <= size
      && 4 * TableLen() <= sectorsPerFat * bytesPerSector
      && size < 0x1_0000_0000
    }

    function FatOff(i: nat, c: nat): nat {
      (reservedSectors + i * sectorsPerFat) * bytesPerSector + 4 * c
    }

    function ClusterOff(c: nat): nat
      requires 2 <= c
    {
      (firstDataSector + (c - 2) * sectorsPerCluster) * bytesPerSector
    }
  }

  // ----- arithmetic of the layout

  lemma Distribute(a: nat, b: nat, k: nat)
    ensures (a + b) * k == a * k + b * k
  {
  }

  lemma FatOffNext(g: Geometry, i: nat)
    ensures g.FatOff(i + 1, 0) == g.FatOff(i, 0) + g.sectorsPerFat * g.bytesPerSector
  {
    Distribute(i, 1, g.sectorsPerFat);
    Distribute(g.reservedSectors + i * g.sectorsPerFat, g.sectorsPerFat, g.bytesPerSector);
  }

  /** The order on the volume: reserved sectors, the FAT copies, then the clusters from number 2 on. */
  lemma LayoutOrder(g: Geometry, size: nat, i: nat, c: nat)
    requires g.Sound(size)
    ensures g.FatOff(0, 0) == g.reservedSectors * g.bytesPerSector
    ensures g.FatOff(i, c + 1) == g.FatOff(i, c) + 4
    ensures g.FatOff(i + 1, 0) == g.FatOff(i, 0) + g.sectorsPerFat * g.bytesPerSector
    ensures g.ClusterOff(2) == g.FatOff(g.fatCount, 0)
    ensures c >= 2 ==> g.ClusterOff(c + 1) == g.ClusterOff(c) + g.bytesPerSector * g.sectorsPerCluster
  {
    FatOffNext(g, i);
    if c >= 2 {
      ClusterOffNext(g, c);
    }
  }

  lemma FatOffMonotone(g: Geometry, i: nat, j: nat)
    requires i <= j
    ensures g.FatOff(i, 0) <= g.FatOff(j, 0)
  {
    MulMono(i, j, g.sectorsPerFat);
    MulMono(g.reservedSectors + i * g.sectorsPerFat, g.reservedSectors + j * g.sectorsPerFat, g.bytesPerSector);
  }

  lemma FatOffBounds(g: Geometry, size: nat, i: nat, c: nat)
    requires g.Sound(size) && i < g.fatCount && c < g.TableLen()
    ensures 512 <= g.FatOff(i, c)
    ensures g.FatOff(i, c) + 4 <= g.FatOff(i + 1, 0) <= g.DataBase() <= size
  {
    FatOffNext(g, i);
    FatOffMonotone(g, i + 1, g.fatCount);
    FatOffMonotone(g, 0, i);
    MulMono(1, g.reservedSectors, g.bytesPerSector);
    MulMono(g.firstDataSector, g.totalSectors, g.bytesPerSector);
  }

  lemma FatOffApart(g: Geometry, size: nat, i: nat, c: nat, j: nat, e: nat)
    requires g.Sound(size) && i < g.fatCount && j < g.fatCount && c < g.TableLen() && e < g.TableLen()
    requires i != j || c != e
    ensures g.FatOff(i, c) + 4 <= g.FatOff(j, e) || g.FatOff(j, e) + 4 <= g.FatOff(i, c)
  {
    FatOffBounds(g, size, i, c);
    FatOffBounds(g, size, j, e);
    if i < j {
      FatOffMonotone(g, i + 1, j);
    } else if j < i {
      FatOffMonotone(g, j + 1, i);
    }
  }

  lemma ClusterOffNext(g: Geometry, c: nat)
    requires 2 <= c
    ensures g.ClusterOff(c + 1) == g.ClusterOff(c) + g.ClusterSize()
  {
    Distribute(c - 2, 1, g.sectorsPerCluster);
    Distribute(g.firstDataSector + (c - 2) * g.sectorsPerCluster, g.sectorsPerCluster, g.bytesPerSector);
  }

  lemma ClusterOffMonotone(g: Geometry, c: nat, e: nat)
    requires 2 <= c <= e
    ensures g.ClusterOff(c) <= g.ClusterOff(e)
  {
    MulMono(c - 2, e - 2, g.sectorsPerCluster);
    MulMono(g.firstDataSector + (c - 2) * g.sectorsPerCluster, g.firstDataSector + (e - 2) * g.sectorsPerCluster,
      g.bytesPerSector);
  }

  lemma ClusterOffBounds(g: Geometry, size: nat, c: nat)
    requires g.Sound(size) && 2 <= c < g.TableLen()
    ensures g.DataBase() <= g.ClusterOff(c) && g.ClusterOff(c) + g.ClusterSize() <= size
  {
    ClusterOffNext(g, c);
    ClusterOffMonotone(g, 2, c);
    ClusterOffMonotone(g, c + 1, g.TableLen());
    MulMono(g.firstDataSector + g.totalClusters * g.sectorsPerCluster, g.totalSectors, g.bytesPerSector);
  }

  lemma ClusterOffApart(g: Geometry, c: nat, e: nat)
    requires 2 <= c && 2 <= e && c != e
    ensures g.ClusterOff(c) + g.ClusterSize() <= g.ClusterOff(e) || g.ClusterOff(e) + g.ClusterSize() <= g.ClusterOff(c)
  {
    ClusterOffNext(g, c);
    ClusterOffNext(g, e);
    if c < e {
      ClusterOffMonotone(g, c + 1, e);
    } else {
      ClusterOffMonotone(g, e + 1, c);
    }
  }

  /** A volume below 4 GiB has far fewer clusters than the smallest end mark. */
  lemma TableSmall(g: Geometry, size: nat)
    requires g.Sound(size)
    ensures g.TableLen() <= FAT32_EOC
  {
    var n := g.totalClusters;
    MulMono(1, g.sectorsPerCluster, n);
    MulMono(512, g.bytesPerSector, g.totalSectors);
  }

  lemma ClusterSizeShape(g: Geometry, size: nat)
    requires g.Sound(size)
    ensures g.ClusterSize() > 0 && g.ClusterSize() % 32 == 0
  {
    var n := g.bytesPerSector / 512;
    assert g.bytesPerSector == 512 * n;
    TimesScaled(n, g.sectorsPerCluster);
  }

  lemma TimesScaled(n: nat, k: nat)
    requires n > 0 && k > 0
    ensures 512 * n * k > 0 && 512 * n * k % 32 == 0
  {
    var m := n * k;
    assert 512 * n * k == 512 * m;
  }

  lemma ClusterSizeFits(g: Geometry, size: nat)
    requires g.Sound(size)
    ensures g.totalClusters * g.ClusterSize() <= size
  {
    var k := g.totalClusters * g.sectorsPerCluster;
    TimesAssoc(g.totalClusters, g.sectorsPerCluster, g.bytesPerSector);
    MulMono(k, g.totalSectors, g.bytesPerSector);
  }

  lemma TimesAssoc(a: nat, b: nat, k: nat)
    ensures a * (k * b) == a * b * k
  {
  }

  // ----- the view

  /** The volume as the rest of the code thinks of it: entry and block of every cluster number. */
  datatype Disk = Disk(fat: seq<nat>, data: seq<seq<byte>>)

  ghost function Entry(g: Geometry, d: seq<byte>, i: nat, c: nat): (v: nat)
    requires g.Sound(|d|) && i < g.fatCount && c < g.TableLen()
    ensures v < ENTRY_MASK
  {
    FatOffBounds(g, |d|, i, c);
    Le32(d, g.FatOff(i, c)) % ENTRY_MASK
  }

  ghost function Block(g: Geometry, d: seq<byte>, c: nat): (b: seq<byte>)
    requires g.Sound(|d|) && c < g.TableLen()
    ensures |b| == if c < 2 then 0 else g.ClusterSize()
  {
    if c < 2 then [] else
      ClusterOffBounds(g, |d|, c);
      d[g.ClusterOff(c)..g.ClusterOff(c) + g.ClusterSize()]
  }

  ghost function View(g: Geometry, d: seq<byte>): (v: Disk)
    requires g.Sound(|d|)
    ensures |v.fat| == |v.data| == g.TableLen()
    ensures forall c :: 2 <= c < g.TableLen() ==> |v.data[c]| == g.ClusterSize()
  {
    Disk(seq(g.TableLen(), c requires 0 <= c < g.TableLen() => Entry(g, d, 0, c)),
         seq(g.TableLen(), c requires 0 <= c < g.TableLen() => Block(g, d, c)))
  }

  /** All FAT copies agree with the first one. */
  ghost predicate Mirrored(g: Geometry, d: seq<byte>)
    requires g.Sound(|d|)
  {
    forall i, c :: 0 <= i < g.fatCount && 0 <= c < g.TableLen() ==> Entry(g, d, i, c) == Entry(g, d, 0, c)
  }

  /** The bytes after fat_set has written `v` for cluster `c` in the first `n` copies. */
  ghost function SetCopies(g: Geometry, d: seq<byte>, c: nat, v: nat, n: nat): (r: seq<byte>)
    requires g.Sound(|d|) && n <= g.fatCount && c < g.TableLen() && v < ENTRY_MASK
    ensures |r| == |d|
    decreases n
  {
    if n == 0 then d else
      FatOffBounds(g, |d|, n - 1, c);
      Overlay(SetCopies(g, d, c, v, n - 1), g.FatOff(n - 1, c), Bytes32(v))
  }

  lemma Le32Frame(d: seq<byte>, e: seq<byte>, off: nat)
    requires off + 4 <= |d| == |e|
    requires forall k :: off <= k < off + 4 ==> d[k] == e[k]
    ensures Le32(d, off) == Le32(e, off)
  {
  }

  lemma Le32Overlay(d: seq<byte>, off: nat, v: nat)
    requires off + 4 <= |d| && v < 0x1_0000_0000
    ensures Le32(Overlay(d, off, Bytes32(v)), off) == v
  {
    var r := Overlay(d, off, Bytes32(v));
    assert r[off] == Bytes32(v)[0] && r[off + 1] == Bytes32(v)[1] && r[off + 2] == Bytes32(v)[2] &&
           r[off + 3] == Bytes32(v)[3];
  }

  lemma EntryPut(g: Geometry, d: seq<byte>, i: nat, c: nat, v: nat, j: nat, e: nat)
    requires g.Sound(|d|) && i < g.fatCount && c < g.TableLen() && v < ENTRY_MASK
    requires j < g.fatCount && e < g.TableLen()
    requires g.FatOff(i, c) + 4 <= |d|
    ensures Entry(g, Overlay(d, g.FatOff(i, c), Bytes32(v)), j, e) == if i == j && c == e then v else Entry(g, d, j, e)
  {
    hide Geometry.FatOff, Geometry.Sound, Le32, Overlay, Bytes32;
    FatOffBounds(g, |d|, j, e);
    if i == j && c == e {
      Le32Overlay(d, g.FatOff(i, c), v);
    } else {
      FatOffApart(g, |d|, i, c, j, e);
      Le32Frame(d, Overlay(d, g.FatOff(i, c), Bytes32(v)), g.FatOff(j, e));
    }
  }

  lemma {:induction false} SetCopiesEntry(g: Geometry, d: seq<byte>, c: nat, v: nat, n: nat, j: nat, e: nat)
    requires g.Sound(|d|) && n <= g.fatCount && c < g.TableLen() && v < ENTRY_MASK
    requires j < g.fatCount && e < g.TableLen()
    ensures Entry(g, SetCopies(g, d, c, v, n), j, e) == if e == c && j < n then v else Entry(g, d, j, e)
    decreases n
  {
    if n != 0 {
      SetCopiesEntry(g, d, c, v, n - 1, j, e);
      FatOffBounds(g, |d|, n - 1, c);
      EntryPut(g, SetCopies(g, d, c, v, n - 1), n - 1, c, v, j, e);
    }
  }

  lemma {:induction false} SetCopiesFrame(g: Geometry, d: seq<byte>, c: nat, v: nat, n: nat)
    requires g.Sound(|d|) && n <= g.fatCount && c < g.TableLen() && v < ENTRY_MASK
    ensures forall k :: g.DataBase() <= k < |d| ==> SetCopies(g, d, c, v, n)[k] == d[k]
    ensures forall k :: 0 <= k < 512 ==> k < |d| && SetCopies(g, d, c, v, n)[k] == d[k]
    decreases n
  {
    FatOffBounds(g, |d|, 0, c);
    if n != 0 {
      SetCopiesFrame(g, d, c, v, n - 1);
      FatOffBounds(g, |d|, n - 1, c);
    }
  }

  /** fat_set writes one entry of the table in every copy and touches nothing else. */
  lemma SetCopiesView(g: Geometry, d: seq<byte>, c: nat, v: nat)
    requires g.Sound(|d|) && c < g.TableLen() && v < ENTRY_MASK && Mirrored(g, d)
    ensures var r := SetCopies(g, d, c, v, g.fatCount);
      && Mirrored(g, r)
      && View(g, r) == Disk(View(g, d).fat[c := v], View(g, d).data)
  {
    var r := SetCopies(g, d, c, v, g.fatCount);
    forall j, e | 0 <= j < g.fatCount && 0 <= e < g.TableLen()
      ensures Entry(g, r, j, e) == if e == c then v else Entry(g, d, 0, e)
    {
      SetCopiesEntry(g, d, c, v, g.fatCount, j, e);
      assert Entry(g, d, j, e) == Entry(g, d, 0, e);
    }
    assert View(g, r).fat == View(g, d).fat[c := v];
    SetCopiesFrame(g, d, c, v, g.fatCount);
    forall e | 0 <= e < g.TableLen()
      ensures Block(g, r, e) == Block(g, d, e)
    {
      if 2 <= e {
        ClusterOffBounds(g, |d|, e);
      }
    }
    assert View(g, r).data == View(g, d).data;
  }

  lemma BlockWriteEntry(g: Geometry, d: seq<byte>, off: nat, b: seq<byte>, j: nat, e: nat)
    requires g.Sound(|d|) && g.DataBase() <= off && off + |b| <= |d|
    requires j < g.fatCount && e < g.TableLen()
    ensures Entry(g, Overlay(d, off, b), j, e) == Entry(g, d, j, e)
  {
    FatOffBounds(g, |d|, j, e);
    Le32Frame(d, Overlay(d, off, b), g.FatOff(j, e));
  }

  lemma BlockWriteBlock(g: Geometry, d: seq<byte>, c: nat, p: nat, b: seq<byte>, e: nat)
    requires g.Sound(|d|) && 2 <= c < g.TableLen() && p + |b| <= g.ClusterSize() && e < g.TableLen()
    requires g.ClusterOff(c) + g.ClusterSize() <= |d|
    ensures Block(g, Overlay(d, g.ClusterOff(c) + p, b), e)
         == if e == c then Overlay(Block(g, d, c), p, b) else Block(g, d, e)
  {
    if 2 <= e {
      ClusterOffBounds(g, |d|, e);
      if e != c {
        ClusterOffApart(g, c, e);
      }
    }
  }

  /** A write inside one cluster changes that block and nothing else. */
  lemma BlockWriteView(g: Geometry, d: seq<byte>, c: nat, p: nat, b: seq<byte>)
    requires g.Sound(|d|) && 2 <= c < g.TableLen() && p + |b| <= g.ClusterSize() && Mirrored(g, d)
    requires g.ClusterOff(c) + g.ClusterSize() <= |d|
    ensures var r := Overlay(d, g.ClusterOff(c) + p, b);
      && Mirrored(g, r)
      && View(g, r) == Disk(View(g, d).fat, View(g, d).data[c := Overlay(View(g, d).data[c], p, b)])
  {
    var r := Overlay(d, g.ClusterOff(c) + p, b);
    ClusterOffBounds(g, |d|, c);
    forall j, e | 0 <= j < g.fatCount && 0 <= e < g.TableLen()
      ensures Entry(g, r, j, e) == Entry(g, d, j, e)
    {
      BlockWriteEntry(g, d, g.ClusterOff(c) + p, b, j, e);
    }
    assert View(g, r).fat == View(g, d).fat;
    forall e | 0 <= e < g.TableLen()
      ensures Block(g, r, e) == if e == c then Overlay(Block(g, d, c), p, b) else Block(g, d, e)
    {
      BlockWriteBlock(g, d, c, p, b, e);
    }
    assert View(g, r).data == View(g, d).data[c := Overlay(View(g, d).data[c], p, b)];
  }
}
