/** The root directory as a byte sequence of 32-byte slots. */
module FatDir {
  import opened Bytes
  import Bits

  const ATTR_ARCHIVE: byte := 0x20

  function Slots(dir: seq<byte>): nat { |dir| / 32 }

  function Mark(dir: seq<byte>, k: nat): byte
    requires k < Slots(dir)
  {
    dir[32 * k]
  }

  function Attr(dir: seq<byte>, k: nat): byte
    requires k < Slots(dir)
  {
    dir[32 * k + 11]
  }

  function Name(dir: seq<byte>, k: nat): (n: seq<byte>)
    requires k < Slots(dir)
    ensures |n| == 11
  {
    dir[32 * k..32 * k + 11]
  }

  function First(dir: seq<byte>, k: nat): nat
    requires k < Slots(dir)
  {
    Le16(dir, 32 * k + 20) * 0x1_0000 + Le16(dir, 32 * k + 26)
  }

  function Size(dir: seq<byte>, k: nat): nat
    requires k < Slots(dir)
  {
    Le32(dir, 32 * k + 28)
  }

  /** No end marker up to and including slot `k`. */
  ghost predicate Reached(dir: seq<byte>, k: nat)
    requires k < Slots(dir)
  {
    forall j :: 0 <= j <= k ==> Mark(dir, j) != 0
  }

  /** Long-name parts and sub-directories are not files. */
  predicate Plain(attr: byte) { attr % 16 != 15 && attr / 16 % 2 == 0 }

  /** The two attribute tests of find_dir_entry, bit by bit. */
  lemma PlainBits(attr: byte)
    ensures Plain(attr) <==> Bits.And(attr, 0x0F) != 0x0F && Bits.And(attr, 0x10) == 0
  {
    assert Bits.Pow2(4) == 16;
    Bits.AndMask(attr, 4);
    var h := attr / 2 / 2 / 2 / 2;
    assert h == attr / 16;
    assert Bits.And(h, 1) == h % 2 + 2 * Bits.And(h / 2, 0);
    AndZero(h / 2);
    assert Bits.And(attr / 2 / 2 / 2, 2) == 2 * Bits.And(h, 1);
    assert Bits.And(attr / 2 / 2, 4) == 2 * Bits.And(attr / 2 / 2 / 2, 2);
    assert Bits.And(attr / 2, 8) == 2 * Bits.And(attr / 2 / 2, 4);
    assert Bits.And(attr, 16) == 2 * Bits.And(attr / 2, 8);
  }

  lemma {:induction false} AndZero(a: nat)
    ensures Bits.And(a, 0) == 0
  {
    if a > 0 {
      AndZero(a / 2);
    }
  }

  ghost predicate IsFile(dir: seq<byte>, k: nat) {
    k < Slots(dir) && Reached(dir, k) && Mark(dir, k) != 0xE5 && Plain(Attr(dir, k))
  }

  lemma PlainFile(dir: seq<byte>, k: nat)
    requires IsFile(dir, k)
    ensures k < Slots(dir) && Mark(dir, k) != 0 && Mark(dir, k) != 0xE5
    ensures Bits.And(Attr(dir, k), 0x10) == 0 && Bits.And(Attr(dir, k), 0x0F) != 0x0F
  {
    hide Bits.And;
    PlainBits(Attr(dir, k));
  }

  /** Every slot after an end marker is one too. */
  ghost predicate CleanTail(dir: seq<byte>) {
    forall j, k :: 0 <= j <= k < Slots(dir) && Mark(dir, j) == 0 ==> Mark(dir, k) == 0
  }

  /** A slot fs_open may create an entry in: deleted, or the first end marker. */
  ghost predicate IsSpare(dir: seq<byte>, k: nat) {
    && k < Slots(dir)
    && (forall j :: 0 <= j < k ==> Mark(dir, j) != 0)
    && (Mark(dir, k) == 0 || Mark(dir, k) == 0xE5)
  }

  ghost predicate SpareIn(dir: seq<byte>) { exists k: nat :: IsSpare(dir, k) }

  /** The entry at slot `k` and `j` read the same in both directories. */
  ghost predicate SameSlot(dir: seq<byte>, dir': seq<byte>, j: nat) {
    && j < Slots(dir) && j < Slots(dir')
    && Mark(dir, j) == Mark(dir', j) && Attr(dir, j) == Attr(dir', j) && Name(dir, j) == Name(dir', j)
    && First(dir, j) == First(dir', j) && Size(dir, j) == Size(dir', j)
  }

  lemma SlotFrame(dir: seq<byte>, dir': seq<byte>, j: nat)
    requires |dir| == |dir'| && j < Slots(dir)
    requires dir[32 * j..32 * j + 32] == dir'[32 * j..32 * j + 32]
    ensures SameSlot(dir, dir', j)
  {
    var a, b := dir[32 * j..32 * j + 32], dir'[32 * j..32 * j + 32];
    assert forall i :: 0 <= i < 32 ==> dir[32 * j + i] == a[i] && dir'[32 * j + i] == b[i];
    assert Name(dir, j) == a[..11] && Name(dir', j) == b[..11];
  }

  lemma OtherSlot(dir: seq<byte>, k: nat, off: nat, b: seq<byte>, j: nat)
    requires k < Slots(dir) && j < Slots(dir) && j != k
    requires 32 * k <= off && off + |b| <= 32 * k + 32
    ensures SameSlot(dir, Overlay(dir, off, b), j)
  {
    SlotFrame(dir, Overlay(dir, off, b), j);
  }

  lemma SlotFields(dir: seq<byte>, k: nat)
    requires k < Slots(dir)
    ensures var e := dir[32 * k..32 * k + 32];
      && First(dir, k) == Le16(e, 20) * 0x1_0000 + Le16(e, 26)
      && Size(dir, k) == Le32(e, 28)
  {
    var e := dir[32 * k..32 * k + 32];
    assert forall i :: 0 <= i < 32 ==> e[i] == dir[32 * k + i];
  }

  /** A 32-byte entry as the FAT32 specification lays it out: name, attributes, first cluster in two halves, size. */
  ghost function Record(name: seq<byte>, attr: byte, mid: seq<byte>, times: seq<byte>, first: nat,
                        size: nat): (e: seq<byte>)
    requires |name| == 11 && |mid| == 8 && |times| == 4 && first < 0x1_0000_0000 && size < 0x1_0000_0000
    ensures |e| == 32
  {
    name + [attr] + mid + Bytes16(first / 0x1_0000) + times + Bytes16(first % 0x1_0000) + Bytes32(size)
  }

  /** Such an entry is read back field by field. */
  lemma RecordFields(dir: seq<byte>, k: nat, name: seq<byte>, attr: byte, mid: seq<byte>, times: seq<byte>, first: nat,
                     size: nat)
    requires |name| == 11 && |mid| == 8 && |times| == 4 && first < 0x1_0000_0000 && size < 0x1_0000_0000
    requires k < Slots(dir) && SlotAt(dir, k) == Record(name, attr, mid, times, first, size)
    ensures Mark(dir, k) == name[0] && Name(dir, k) == name && Attr(dir, k) == attr
    ensures First(dir, k) == first && Size(dir, k) == size
  {
    hide Bytes16, Bytes32, Le16, Le32;
    SlotFields(dir, k);
    var e := SlotAt(dir, k);
    var lo, hi, sz := Bytes16(first % 0x1_0000), Bytes16(first / 0x1_0000), Bytes32(size);
    assert Name(dir, k) == e[..11];
    assert e[20..22] == hi && e[26..28] == lo && e[28..32] == sz;
    Le16At(e, 20);
    Le16At(e, 26);
    Le32At(e, 28);
  }

  // ----- scanning

  datatype Verdict = End | Deleted | Other | Match

  /** What find_dir_entry makes of one 32-byte slot. */
  function Judge(e: seq<byte>, name: seq<byte>): Verdict
    requires |e| == 32
  {
    if e[0] == 0 then End
    else if e[0] == 0xE5 then Deleted
    else if !Plain(e[11]) then Other
    else if e[..11] == name then Match
    else Other
  }

  function SlotAt(dir: seq<byte>, k: nat): (e: seq<byte>)
    requires k < Slots(dir)
    ensures |e| == 32
  {
    dir[32 * k..32 * k + 32]
  }

  ghost predicate Passed(dir: seq<byte>, name: seq<byte>, k: nat)
    requires k < Slots(dir)
  {
    Judge(SlotAt(dir, k), name) == Deleted || Judge(SlotAt(dir, k), name) == Other
  }

  ghost predicate AllPassed(dir: seq<byte>, name: seq<byte>, n: nat)
    requires n <= Slots(dir)
  {
    forall j :: 0 <= j < n ==> Passed(dir, name, j)
  }

  lemma NonePassed(dir: seq<byte>, name: seq<byte>)
    ensures AllPassed(dir, name, 0)
  {
  }

  ghost predicate Named(dir: seq<byte>, k: nat, name: seq<byte>) {
    IsFile(dir, k) && Name(dir, k) == name
  }

  lemma JudgeMeans(dir: seq<byte>, name: seq<byte>, k: nat)
    requires k < Slots(dir)
    ensures var v := Judge(SlotAt(dir, k), name);
      && (v == End <==> Mark(dir, k) == 0)
      && (v == Deleted <==> Mark(dir, k) == 0xE5)
      && (v == Match <==> Mark(dir, k) != 0 && Mark(dir, k) != 0xE5 && Plain(Attr(dir, k)) && Name(dir, k) == name)
  {
    assert SlotAt(dir, k)[..11] == Name(dir, k);
  }

  /** A match after passed slots is the first file of that name. */
  lemma FirstMatch(dir: seq<byte>, name: seq<byte>, n: nat)
    requires n < Slots(dir) && AllPassed(dir, name, n) && Judge(SlotAt(dir, n), name) == Match
    ensures Named(dir, n, name) && forall k: nat :: k < n ==> !Named(dir, k, name)
  {
    forall k: nat | k <= n
      ensures Mark(dir, k) != 0 && (k < n ==> !Named(dir, k, name))
    {
      assert k < n ==> Passed(dir, name, k);
      JudgeMeans(dir, name, k);
    }
  }

  /** Passed slots up to the end of the directory, or to its end marker, mean there is no such file. */
  lemma NoMatch(dir: seq<byte>, name: seq<byte>, n: nat)
    requires n <= Slots(dir) && AllPassed(dir, name, n)
    requires n < Slots(dir) ==> Judge(SlotAt(dir, n), name) == End
    ensures forall k: nat :: !Named(dir, k, name)
  {
    forall k: nat | Named(dir, k, name)
      ensures false
    {
      if k < n {
        assert Passed(dir, name, k);
      }
      JudgeMeans(dir, name, if k < n then k else n);
    }
  }

  /** A directory passed to its very end without a deleted slot has no spare slot. */
  lemma NoSpare(dir: seq<byte>, name: seq<byte>)
    requires AllPassed(dir, name, Slots(dir))
    requires forall j :: 0 <= j < Slots(dir) ==> Mark(dir, j) != 0xE5
    ensures forall k: nat :: !IsSpare(dir, k)
  {
    forall k: nat | IsSpare(dir, k)
      ensures false
    {
      assert Passed(dir, name, k);
      JudgeMeans(dir, name, k);
    }
  }

  lemma SpareHere(dir: seq<byte>, name: seq<byte>, n: nat)
    requires n < Slots(dir) && AllPassed(dir, name, n)
    requires Judge(SlotAt(dir, n), name) == End || Judge(SlotAt(dir, n), name) == Deleted
    ensures IsSpare(dir, n)
  {
    forall j | 0 <= j <= n
      ensures j < n ==> Mark(dir, j) != 0
    {
      assert j < n ==> Passed(dir, name, j);
      JudgeMeans(dir, name, j);
    }
    JudgeMeans(dir, name, n);
  }

  // ----- the two updates fs.c makes

  /** entry_set_first_cluster followed by the size field. */
  ghost function SetEntry(dir: seq<byte>, k: nat, first: nat, size: nat): (r: seq<byte>)
    requires k < Slots(dir) && first < 0x1_0000_0000 && size < 0x1_0000_0000
    ensures |r| == |dir|
  {
    Overlay(
      Overlay(
        Overlay(dir, 32 * k + 20, Bytes16(first / 0x1_0000)),
        32 * k + 26, Bytes16(first % 0x1_0000)),
      32 * k + 28, Bytes32(size))
  }

  lemma SetEntryOther(dir: seq<byte>, k: nat, first: nat, size: nat, j: nat)
    requires k < Slots(dir) && first < 0x1_0000_0000 && size < 0x1_0000_0000
    requires j < Slots(dir) && j != k
    ensures SameSlot(dir, SetEntry(dir, k, first, size), j)
  {
    SlotFrame(dir, SetEntry(dir, k, first, size), j);
  }

  lemma SetEntrySelf(dir: seq<byte>, k: nat, first: nat, size: nat)
    requires k < Slots(dir) && first < 0x1_0000_0000 && size < 0x1_0000_0000
    ensures var r := SetEntry(dir, k, first, size);
      && Mark(r, k) == Mark(dir, k) && Attr(r, k) == Attr(dir, k) && Name(r, k) == Name(dir, k)
      && First(r, k) == first && Size(r, k) == size
  {
    var r := SetEntry(dir, k, first, size);
    var hi, lo, sz := Bytes16(first / 0x1_0000), Bytes16(first % 0x1_0000), Bytes32(size);
    assert r[32 * k + 20] == hi[0] && r[32 * k + 21] == hi[1];
    assert r[32 * k + 26] == lo[0] && r[32 * k + 27] == lo[1];
    assert r[32 * k + 28] == sz[0] && r[32 * k + 29] == sz[1] && r[32 * k + 30] == sz[2] && r[32 * k + 31] == sz[3];
  }

  /** The entry fs_open writes for a new file. */
  ghost function NewEntry(name: seq<byte>): (e: seq<byte>)
    requires |name| == 11
    ensures |e| == 32
  {
    name + [ATTR_ARCHIVE] + Zeros(20)
  }

  ghost function AddEntry(dir: seq<byte>, k: nat, name: seq<byte>): (r: seq<byte>)
    requires k < Slots(dir) && |name| == 11
    ensures |r| == |dir|
  {
    Overlay(dir, 32 * k, NewEntry(name))
  }

  lemma AddEntrySelf(dir: seq<byte>, k: nat, name: seq<byte>)
    requires k < Slots(dir) && |name| == 11
    ensures var r := AddEntry(dir, k, name);
      && Mark(r, k) == name[0] && Attr(r, k) == ATTR_ARCHIVE && Name(r, k) == name
      && First(r, k) == 0 && Size(r, k) == 0
  {
    var r := AddEntry(dir, k, name);
    var e := NewEntry(name);
    assert forall i :: 0 <= i < 32 ==> r[32 * k + i] == e[i];
    assert forall i :: 12 <= i < 32 ==> e[i] == 0;
    assert Name(r, k) == name;
  }

  /** Clearing the already zero fields of a new entry changes nothing. */
  lemma SetEntryZero(dir: seq<byte>, k: nat, name: seq<byte>)
    requires k < Slots(dir) && |name| == 11
    ensures SetEntry(AddEntry(dir, k, name), k, 0, 0) == AddEntry(dir, k, name)
  {
    var r, e := AddEntry(dir, k, name), NewEntry(name);
    assert forall i :: 12 <= i < 32 ==> e[i] == 0;
    assert forall i :: 32 * k + 12 <= i < 32 * k + 32 ==> r[i] == e[i - 32 * k];
    assert Bytes16(0) == [0, 0] && Bytes32(0) == [0, 0, 0, 0];
  }

  /** Rewriting an existing file's entry keeps the set of files and the clean tail. */
  lemma SetEntryFiles(dir: seq<byte>, k: nat, first: nat, size: nat)
    requires IsFile(dir, k) && CleanTail(dir) && first < 0x1_0000_0000 && size < 0x1_0000_0000
    ensures var r := SetEntry(dir, k, first, size);
      && CleanTail(r)
      && forall j :: IsFile(r, j) <==> IsFile(dir, j)
  {
    var r := SetEntry(dir, k, first, size);
    SetEntrySelf(dir, k, first, size);
    forall j | 0 <= j < Slots(dir)
      ensures Mark(r, j) == Mark(dir, j) && Attr(r, j) == Attr(dir, j)
    {
      if j != k { SetEntryOther(dir, k, first, size, j); }
    }
  }

  /** Creating an entry in a spare slot adds exactly that file, given a clean tail and a
      name that does not start with one of the two reserved marks. */
  lemma AddEntryFiles(dir: seq<byte>, k: nat, name: seq<byte>)
    requires IsSpare(dir, k) && CleanTail(dir) && |name| == 11 && name[0] != 0 && name[0] != 0xE5
    ensures var r := AddEntry(dir, k, name);
      && CleanTail(r)
      && !IsFile(dir, k)
      && forall j :: IsFile(r, j) <==> IsFile(dir, j) || j == k
  {
    var r := AddEntry(dir, k, name);
    AddEntrySelf(dir, k, name);
    forall j | 0 <= j < Slots(dir)
      ensures Mark(r, j) == if j == k then name[0] else Mark(dir, j)
      ensures j != k ==> Attr(r, j) == Attr(dir, j)
    {
      if j != k { OtherSlot(dir, k, 32 * k, NewEntry(name), j); }
    }
  }
}
