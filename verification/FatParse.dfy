/** fat32_parse: when a boot sector gives a usable layout. */
module FatParse {
  import opened Common
  import opened Bytes
  import opened FatLayout
  import Bits


  const U32 := 0x1_0000_0000

  /** The 32-bit sum for the first data sector. */
  function FirstData(reserved: nat, fats: nat, spf: nat): nat {
    (reserved + fats * spf % U32) % U32
  }

  function ClusterCount(total: nat, firstData: nat, spc: nat): nat {
    if spc == 0 || total <= firstData then 0 else (total - firstData) / spc
  }

  /** The fields fat32_parse reads. */
  function ReadGeometry(d: seq<byte>): Geometry
    requires |d| >= 512
  {
    var reserved, fats, spf := Le16(d, 14), d[16], Le32(d, 36);
    var spc, total := d[13], Le32(d, 32);
    var firstData := FirstData(reserved, fats, spf);
    Geometry(Le16(d, 11), spc, reserved, fats, spf, total, Le32(d, 44), firstData, ClusterCount(total, firstData, spc))
  }

  function Parse(d: seq<byte>): Option<Geometry> {
    if |d| < 512 || d[510] != 0x55 || d[511] != 0xAA then None else
      var g := ReadGeometry(d);
      var bps := g.bytesPerSector;
      if bps == 0 || Bits.And(bps, bps - 1) != 0 || bps < 512 || g.sectorsPerCluster == 0
         || g.reservedSectors == 0 || g.fatCount == 0 || Le16(d, 17) != 0 || Le16(d, 19) != 0
         || Le16(d, 22) != 0 || g.sectorsPerFat == 0 || g.rootCluster < 2 then None
      else if g.totalSectors <= g.firstDataSector then None
      else if g.totalSectors * bps > |d| then None
      else if g.totalClusters == 0 ||
        d[82..87] != ['F' as byte, 'A' as byte, 'T' as byte, '3' as byte, '2' as byte] then None
      else Some(g)
  }

  /** The two things fat32_parse does not check: that the first data sector did not wrap,
      and that a FAT copy has an entry for every cluster. */
  predicate Roomy(g: Geometry) {
    && g.reservedSectors + g.fatCount * g.sectorsPerFat < U32
    && 4 * g.TableLen() <= g.sectorsPerFat * g.bytesPerSector
  }

  lemma SectorSize(bps: nat)
    requires bps >= 512 && Bits.And(bps, bps - 1) == 0
    ensures bps % 512 == 0
  {
    hide Bits.And;
    Bits.AndPredecessor(bps);
    var k: nat :| bps == Bits.Pow2(k);
    Pow2Nine();
    hide Bits.Pow2;
    if k < 9 {
      Bits.Pow2Mono(k, 8);
    } else {
      Bits.Pow2Add(9, k - 9);
    }
  }

  lemma Pow2Nine()
    ensures Bits.Pow2(8) == 256 && Bits.Pow2(9) == 512
  {
    assert Bits.Pow2(4) == 16;
  }

  lemma WholeClusters(space: nat, spc: nat)
    requires spc > 0
    ensures space / spc * spc <= space
  {
  }

  /** A 32-bit sum is the true one exactly when it does not wrap. */
  lemma WrappedSum(reserved: nat, tables: nat)
    requires reserved < U32
    ensures (reserved + tables % U32) % U32 == reserved + tables <==> reserved + tables < U32
  {
  }

  lemma ParseFacts(d: seq<byte>)
    requires Parse(d).Some?
    ensures var g := Parse(d).value;
      && g.bytesPerSector >= 512 && Bits.And(g.bytesPerSector, g.bytesPerSector - 1) == 0
      && g.sectorsPerCluster >= 1 && 1 <= g.reservedSectors < U32 && g.fatCount >= 1 && g.rootCluster >= 2
      && g.sectorsPerFat < U32
      && g.firstDataSector == (g.reservedSectors + g.fatCount * g.sectorsPerFat % U32) % U32
      && g.firstDataSector < g.totalSectors && g.totalSectors * g.bytesPerSector <= |d|
      && g.totalClusters == (g.totalSectors - g.firstDataSector) / g.sectorsPerCluster
      && g.totalClusters >= 1
  {
    hide Bits.And;
  }

  /** Every entry of every FAT copy lies before the next copy and before the data area. */
  ghost predicate InPlace(g: Geometry) {
    forall i: nat, c: nat :: i < g.fatCount && c < g.TableLen() ==> EntryInPlace(g, i, c)
  }

  ghost predicate EntryInPlace(g: Geometry, i: nat, c: nat) {
    && (i + 1 < g.fatCount ==> g.FatOff(i, c) + 4 <= g.FatOff(i + 1, 0))
    && g.FatOff(i, c) + 4 <= g.DataBase()
  }

  /** An accepted layout has its tables in place exactly when both unchecked conditions hold. */
  lemma ParseInPlace(d: seq<byte>)
    requires Parse(d).Some?
    ensures InPlace(Parse(d).value) <==> Roomy(Parse(d).value)
  {
    hide Parse, Bits.And;
    var g := Parse(d).value;
    ParseFacts(d);
    WrappedSum(g.reservedSectors, g.fatCount * g.sectorsPerFat);
    if Roomy(g) {
      RoomyInPlace(g);
    }
    if InPlace(g) {
      InPlaceRoomy(g);
    }
  }

  lemma RoomyInPlace(g: Geometry)
    requires Roomy(g) && g.firstDataSector == g.reservedSectors + g.fatCount * g.sectorsPerFat
    ensures InPlace(g)
  {
    forall i: nat, c: nat | i < g.fatCount && c < g.TableLen()
      ensures EntryInPlace(g, i, c)
    {
      RoomyEntry(g, i, c);
    }
  }

  lemma RoomyEntry(g: Geometry, i: nat, c: nat)
    requires 4 * g.TableLen() <= g.sectorsPerFat * g.bytesPerSector && i < g.fatCount && c < g.TableLen()
    requires g.firstDataSector == g.reservedSectors + g.fatCount * g.sectorsPerFat
    ensures EntryInPlace(g, i, c)
  {
    FatOffNext(g, i);
    FatOffMonotone(g, i + 1, g.fatCount);
    assert g.FatOff(g.fatCount, 0) == g.DataBase();
  }

  /** The last entry of the last copy ends before the data area: that leaves room, and no 32-bit wrap. */
  lemma InPlaceRoomy(g: Geometry)
    requires InPlace(g) && g.fatCount >= 1 && g.sectorsPerFat < U32 && g.bytesPerSector >= 1
    requires g.firstDataSector == (g.reservedSectors + g.fatCount * g.sectorsPerFat % U32) % U32 &&
             g.reservedSectors < U32
    ensures Roomy(g)
  {
    var last: nat := g.fatCount - 1;
    var c: nat := g.TableLen() - 1;
    assert EntryInPlace(g, last, c);
    var sectors := g.reservedSectors + g.fatCount * g.sectorsPerFat;
    Distribute(last, 1, g.sectorsPerFat);
    assert g.reservedSectors + last * g.sectorsPerFat == sectors - g.sectorsPerFat;
    WrapDrop(g.reservedSectors, g.fatCount * g.sectorsPerFat);
    var before: nat := sectors - g.sectorsPerFat;
    assert before * g.bytesPerSector + 4 * g.TableLen() <= g.firstDataSector * g.bytesPerSector;
    if sectors >= U32 {
      MulMono(g.firstDataSector, before, g.bytesPerSector);
    } else {
      Distribute(before, g.sectorsPerFat, g.bytesPerSector);
    }
  }

  /** A sum that wraps loses at least 2^32. */
  lemma WrapDrop(reserved: nat, tables: nat)
    requires reserved < U32
    ensures var s := (reserved + tables % U32) % U32;
      if reserved + tables < U32 then s == reserved + tables else s <= reserved + tables - U32
  {
  }

  /** What a volume needs on top of an accepted boot sector. */
  lemma RoomySound(d: seq<byte>)
    requires Parse(d).Some? && |d| < U32 && Roomy(Parse(d).value)
    ensures Parse(d).value.Sound(|d|)
  {
    hide Parse, Bits.And;
    var g := Parse(d).value;
    ParseFacts(d);
    SectorSize(g.bytesPerSector);
    WholeClusters(g.totalSectors - g.firstDataSector, g.sectorsPerCluster);
    WrappedSum(g.reservedSectors, g.fatCount * g.sectorsPerFat);
  }

  // ----- the boot sector of a formatted volume

  /** The fields of a boot sector that fat32_parse reads; `gaps` are the bytes between them. */
  datatype Format = Format(bps: nat, spc: byte, reserved: nat, fats: byte, total: nat, spf: nat, root: nat)

  predicate Encodable(f: Format) {
    f.bps < 0x1_0000 && f.reserved < 0x1_0000 && f.total < U32 && f.spf < U32 && f.root < U32
  }

  predicate Spaced(gaps: seq<seq<byte>>) {
    && |gaps| == 6 && |gaps[0]| == 11 && |gaps[1]| == 1 && |gaps[2]| == 8 && |gaps[3]| == 4 && |gaps[4]| == 34
    && |gaps[5]| == 423
  }

  /** Bytes 0 to 47: the old FAT12 and FAT16 counts are zero. */
  function BootFront(f: Format, gaps: seq<seq<byte>>): (r: seq<byte>)
    requires Encodable(f) && Spaced(gaps)
    ensures |r| == 48
  {
    gaps[0] + Bytes16(f.bps) + [f.spc] + Bytes16(f.reserved) + [f.fats] + [0, 0, 0, 0] + gaps[1] + [0, 0] + gaps[2]
    + Bytes32(f.total) + Bytes32(f.spf) + gaps[3] + Bytes32(f.root)
  }

  function BootSector(f: Format, gaps: seq<seq<byte>>): (r: seq<byte>)
    requires Encodable(f) && Spaced(gaps)
    ensures |r| == 512
  {
    BootFront(f, gaps) + gaps[4] + [0x46, 0x41, 0x54, 0x33, 0x32] + gaps[5] + [0x55, 0xAA]
  }

  lemma FrontFields(f: Format, gaps: seq<seq<byte>>)
    requires Encodable(f) && Spaced(gaps)
    ensures var d := BootFront(f, gaps);
      && Le16(d, 11) == f.bps && d[13] == f.spc && Le16(d, 14) == f.reserved && d[16] == f.fats
      && d[17] == d[18] == d[19] == d[20] == d[22] == d[23] == 0
      && Le32(d, 32) == f.total && Le32(d, 36) == f.spf && Le32(d, 44) == f.root
  {
    hide Bytes16, Bytes32, Le16, Le32;
    var d := BootFront(f, gaps);
    assert d[11..13] == Bytes16(f.bps) && d[14..16] == Bytes16(f.reserved);
    assert d[32..36] == Bytes32(f.total) && d[36..40] == Bytes32(f.spf) && d[44..48] == Bytes32(f.root);
    Le16At(d, 11);
    Le16At(d, 14);
    Le32At(d, 32);
    Le32At(d, 36);
    Le32At(d, 44);
  }

  /** The verdict of fat32_parse on the fields of a format. */
  ghost predicate Accepted(f: Format, size: nat, r: Option<Geometry>) {
    var first := (f.reserved + f.fats * f.spf % U32) % U32;
    && (r.Some? <==>
        && 512 <= f.bps && Bits.IsPow2(f.bps) && f.spc > 0 && f.reserved > 0 && f.fats > 0 && f.spf > 0 && f.root >= 2
        && f.total >= first + f.spc && f.total * f.bps <= size)
    && (r.Some? ==>
        r.value == Geometry(f.bps, f.spc, f.reserved, f.fats, f.spf, f.total, f.root, first, (f.total - first) / f.spc))
  }

  lemma ParseFields(d: seq<byte>, f: Format)
    requires |d| >= 512 && d[510] == 0x55 && d[511] == 0xAA && d[82..87] == [0x46, 0x41, 0x54, 0x33, 0x32]
    requires Le16(d, 11) == f.bps && d[13] == f.spc && Le16(d, 14) == f.reserved && d[16] == f.fats
    requires Le16(d, 17) == 0 && Le16(d, 19) == 0 && Le16(d, 22) == 0
    requires Le32(d, 32) == f.total && Le32(d, 36) == f.spf && Le32(d, 44) == f.root
    ensures Accepted(f, |d|, Parse(d))
  {
    hide Le16, Le32, Bits.And, Bits.IsPow2;
    if f.bps > 0 {
      Bits.AndPredecessor(f.bps);
    }
    var first := FirstData(f.reserved, f.fats, f.spf);
    if f.spc > 0 && f.total > first {
      AtLeastOne(f.total - first, f.spc);
    }
  }

  /** A formatted volume is accepted exactly if its fields are good, and is read back as they say. */
  lemma ParseBack(f: Format, gaps: seq<seq<byte>>, rest: seq<byte>)
    requires Encodable(f) && Spaced(gaps)
    ensures var d := BootSector(f, gaps) + rest; Accepted(f, |d|, Parse(d))
  {
    hide Bytes16, Bytes32, Le16, Le32, BootFront, Parse, Accepted;
    var d, front := BootSector(f, gaps) + rest, BootFront(f, gaps);
    assert d[..48] == front && d[510] == 0x55 && d[511] == 0xAA;
    assert d[82..87] == [0x46, 0x41, 0x54, 0x33, 0x32];
    FrontFields(f, gaps);
    FieldsOf(d, front);
    ParseFields(d, f);
  }

  lemma AtLeastOne(space: nat, spc: nat)
    requires spc > 0
    ensures space / spc >= 1 <==> space >= spc
  {
  }

  lemma FieldsOf(d: seq<byte>, front: seq<byte>)
    requires |d| >= 512 && |front| == 48 && d[..48] == front
    ensures Le16(d, 11) == Le16(front, 11) && Le16(d, 14) == Le16(front, 14) && d[13] == front[13] && d[16] == front[16]
    ensures Le32(d, 32) == Le32(front, 32) && Le32(d, 36) == Le32(front, 36) && Le32(d, 44) == Le32(front, 44)
    ensures Le16(d, 17) == 0 <==> front[17] == front[18] == 0
    ensures Le16(d, 19) == 0 <==> front[19] == front[20] == 0
    ensures Le16(d, 22) == 0 <==> front[22] == front[23] == 0
  {
  }

  // ----- two boot sectors that are accepted and lead to overlaps

  /** The bytes of a boot sector with 512-byte sectors, one reserved sector and 129 sectors in all. */
  function BootByte(i: nat, fats: byte, spfLow: byte, spfHigh: byte): byte {
    if i == 12 then 2
    else if i == 13 || i == 14 then 1
    else if i == 16 then fats
    else if i == 32 then 129
    else if i == 36 then spfLow
    else if i == 39 then spfHigh
    else if i == 44 then 2
    else if i == 82 then 'F' as byte else if i == 83 then 'A' as byte else if i == 84 then 'T' as byte
    else if i == 85 then '3' as byte else if i == 86 then '2' as byte
    else if i == 510 then 0x55 else if i == 511 then 0xAA else 0
  }

  function BootVolume(fats: byte, spfLow: byte, spfHigh: byte): (d: seq<byte>)
    ensures |d| == 129 * 512 && forall i :: 0 <= i < |d| ==> d[i] == BootByte(i, fats, spfLow, spfHigh)
  {
    seq(129 * 512, i requires 0 <= i => BootByte(i, fats, spfLow, spfHigh))
  }

  lemma BootFields(fats: byte, spfLow: byte, spfHigh: byte)
    ensures var d := BootVolume(fats, spfLow, spfHigh);
      && |d| == 129 * 512 && d[13] == 1 && d[16] == fats && d[510] == 0x55 && d[511] == 0xAA
      && Le16(d, 11) == 512 && Le16(d, 14) == 1 && Le32(d, 32) == 129 && Le32(d, 44) == 2
      && Le32(d, 36) == spfLow + 0x100_0000 * spfHigh
      && Le16(d, 17) == 0 && Le16(d, 19) == 0 && Le16(d, 22) == 0
      && d[82..87] == ['F' as byte, 'A' as byte, 'T' as byte, '3' as byte, '2' as byte]
  {
    var d := BootVolume(fats, spfLow, spfHigh);
    assert d[11] == 0 && d[12] == 2 && d[14] == 1 && d[15] == 0;
    assert d[17] == 0 && d[18] == 0 && d[19] == 0 && d[20] == 0 && d[22] == 0 && d[23] == 0;
    assert d[32] == 129 && d[33] == 0 && d[34] == 0 && d[35] == 0;
    assert d[36] == spfLow && d[37] == 0 && d[38] == 0 && d[39] == spfHigh;
    assert d[44] == 2 && d[45] == 0 && d[46] == 0 && d[47] == 0;
  }

  /** One FAT of one sector for 129 entries: entry 128 is the start of the root directory. */
  lemma ShortTableAccepted()
    ensures var d, g := BootVolume(1, 1, 0), Geometry(512, 1, 1, 1, 1, 129, 2, 2, 127);
      && Parse(d) == Some(g) && !Roomy(g) && 128 < g.TableLen()
      && g.FatOff(0, 128) == g.ClusterOff(g.rootCluster) == 1024 && |d| > 1028
  {
    hide Bits.And, Le16, Le32, BootVolume;
    Pow2Nine();
    Bits.AndPredecessor(512);
    BootFields(1, 1, 0);
    var d := BootVolume(1, 1, 0);
    assert ReadGeometry(d) == Geometry(512, 1, 1, 1, 1, 129, 2, 2, 127);
  }

  /** So storing any value there puts it over the first directory entry. */
  lemma ShortTableOverwrites(value: nat)
    requires value < U32
    ensures var d := BootVolume(1, 1, 0); Overlay(d, 1024, Bytes32(value))[1024..1028] == Bytes32(value)
  {
    hide BootVolume, Bytes32;
  }

  /** Two FATs of 2^31 sectors: their sum wraps to 0 and the root directory is the first sector of the first FAT. */
  lemma WrappedTableAccepted()
    ensures var d, g := BootVolume(2, 0, 0x80), Geometry(512, 1, 1, 2, 0x8000_0000, 129, 2, 1, 128);
      && Parse(d) == Some(g) && !Roomy(g) && g.FatOff(0, 0) == g.ClusterOff(g.rootCluster)
  {
    hide Bits.And, Le16, Le32, BootVolume;
    Pow2Nine();
    Bits.AndPredecessor(512);
    BootFields(2, 0, 0x80);
    var d := BootVolume(2, 0, 0x80);
    assert ReadGeometry(d) == Geometry(512, 1, 1, 2, 0x8000_0000, 129, 2, 1, 128);
  }
}
