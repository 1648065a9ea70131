/** include/elf.h: the records of a file as bytes, and that elf_validate reads them back. */
module ElfLayout {
  import opened Bytes
  import opened Elf

  /** The fields of the file header that differ from file to file. */
  datatype FileHeader = FileHeader(abi: seq<byte>, entry: nat, phoff: nat, shoff: nat, flags: nat, phnum: nat,
                                   sections: seq<byte>)

  predicate Proper(h: FileHeader) {
    && |h.abi| == 9 && |h.sections| == 6 && h.entry < U64 && h.phoff < U64 && h.shoff < U64
    && h.flags < 0x1_0000_0000 && h.phnum < 0x1_0000
  }

  /** A 64-bit little-endian executable for x86-64. */
  function Ident(abi: seq<byte>): (r: seq<byte>)
    requires |abi| == 9
    ensures |r| == 24
  {
    [0x7F, 0x45, 0x4C, 0x46, 2, 1, 1] + abi + Bytes16(2) + Bytes16(62) + Bytes32(1)
  }

  function HeaderBytes(h: FileHeader): (r: seq<byte>)
    requires Proper(h)
    ensures |r| == 64
  {
    Ident(h.abi) + Bytes64(h.entry) + Bytes64(h.phoff) + Bytes64(h.shoff) + Bytes32(h.flags)
    + Bytes16(64) + Bytes16(56) + Bytes16(h.phnum) + h.sections
  }

  lemma IdentFields(abi: seq<byte>)
    requires |abi| == 9
    ensures var d := Ident(abi);
            && Le32(d, 0) == 0x464C457F && d[4] == 2 && d[5] == 1 && d[6] == 1
            && Le16(d, 16) == 2 && Le16(d, 18) == 62 && Le32(d, 20) == 1
  {
    var d := Ident(abi);
    assert d[16..18] == Bytes16(2) && d[18..20] == Bytes16(62) && d[20..24] == Bytes32(1);
    hide Bytes16, Bytes32;
    Le16At(d, 16);
    Le16At(d, 18);
    Le32At(d, 20);
  }

  lemma HeaderFields(h: FileHeader)
    requires Proper(h)
    ensures var d := HeaderBytes(h);
            && d[..24] == Ident(h.abi) && Le64(d, 24) == h.entry && Le64(d, 32) == h.phoff
            && Le16(d, 52) == 64 && Le16(d, 54) == 56 && Le16(d, 56) == h.phnum
  {
    hide Bytes16, Bytes32, Bytes64, Le16, Le32, Le64, Ident;
    var d := HeaderBytes(h);
    assert d[24..32] == Bytes64(h.entry) && d[32..40] == Bytes64(h.phoff);
    assert d[52..54] == Bytes16(64) && d[54..56] == Bytes16(56) && d[56..58] == Bytes16(h.phnum);
    Le64At(d, 24);
    Le64At(d, 32);
    Le16At(d, 52);
    Le16At(d, 54);
    Le16At(d, 56);
  }

  // ----- program headers

  predicate ProperPhdr(p: Phdr) {
    && p.kind < 0x1_0000_0000 && p.flags < 0x1_0000_0000
    && p.offset < U64 && p.vaddr < U64 && p.filesz < U64 && p.memsz < U64 && p.align < U64
  }

  /** A program header; the physical address is not read. */
  function PhdrBytes(p: Phdr, paddr: nat): (r: seq<byte>)
    requires ProperPhdr(p) && paddr < U64
    ensures |r| == 56
  {
    Bytes32(p.kind) + Bytes32(p.flags) + Bytes64(p.offset) + Bytes64(p.vaddr) + Bytes64(paddr)
    + Bytes64(p.filesz) + Bytes64(p.memsz) + Bytes64(p.align)
  }

  lemma PhdrFields(p: Phdr, paddr: nat)
    requires ProperPhdr(p) && paddr < U64
    ensures PhdrAt(PhdrBytes(p, paddr), 0) == p
  {
    hide Bytes32, Bytes64, Le32, Le64;
    var d := PhdrBytes(p, paddr);
    assert d[0..4] == Bytes32(p.kind) && d[4..8] == Bytes32(p.flags);
    assert d[8..16] == Bytes64(p.offset) && d[16..24] == Bytes64(p.vaddr);
    assert d[32..40] == Bytes64(p.filesz) && d[40..48] == Bytes64(p.memsz) && d[48..56] == Bytes64(p.align);
    Le32At(d, 0);
    Le32At(d, 4);
    Le64At(d, 8);
    Le64At(d, 16);
    Le64At(d, 32);
    Le64At(d, 40);
    Le64At(d, 48);
  }

  lemma PhdrSlice(d: seq<byte>, at: nat)
    requires at + 56 <= |d|
    ensures PhdrAt(d, at) == PhdrAt(d[at..at + 56], 0)
  {
  }

  predicate AllProper(ps: seq<Phdr>, paddrs: seq<nat>) {
    |ps| == |paddrs| && forall i :: 0 <= i < |ps| ==> ProperPhdr(ps[i]) && paddrs[i] < U64
  }

  function TableBytes(ps: seq<Phdr>, paddrs: seq<nat>): (r: seq<byte>)
    requires AllProper(ps, paddrs)
    ensures |r| == 56 * |ps|
  {
    if ps == [] then [] else PhdrBytes(ps[0], paddrs[0]) + TableBytes(ps[1..], paddrs[1..])
  }

  lemma {:induction false} TableFields(ps: seq<Phdr>, paddrs: seq<nat>, i: nat)
    requires AllProper(ps, paddrs) && i < |ps|
    ensures 56 * i + 56 <= 56 * |ps| && TableBytes(ps, paddrs)[56 * i..56 * i + 56] == PhdrBytes(ps[i], paddrs[i])
  {
    hide PhdrBytes, ProperPhdr;
    var d := TableBytes(ps, paddrs);
    if i == 0 {
      assert d[0..56] == PhdrBytes(ps[0], paddrs[0]);
    } else {
      TableFields(ps[1..], paddrs[1..], i - 1);
      assert d[56 * i..56 * i + 56] == TableBytes(ps[1..], paddrs[1..])[56 * (i - 1)..56 * (i - 1) + 56];
    }
  }

  // ----- the file

  /** Header, anything, program headers, anything. */
  function FileBytes(h: FileHeader, gap: seq<byte>, ps: seq<Phdr>, paddrs: seq<nat>, rest: seq<byte>): seq<byte>
    requires Proper(h) && AllProper(ps, paddrs)
  {
    HeaderBytes(h) + gap + TableBytes(ps, paddrs) + rest
  }

  /** A file laid out from a header and program headers is read back as those. */
  lemma ReadBack(h: FileHeader, gap: seq<byte>, ps: seq<Phdr>, paddrs: seq<nat>, rest: seq<byte>)
    requires Proper(h) && AllProper(ps, paddrs)
    requires h.phoff == 64 + |gap| && h.phnum == |ps| > 0
    requires |FileBytes(h, gap, ps, paddrs, rest)| < U64
    ensures var file := FileBytes(h, gap, ps, paddrs, rest);
            HeaderOk(file) && Entry(file) == h.entry && Phdrs(file) == ps
  {
    hide Bytes16, Bytes32, Bytes64, Le16, Le32, Le64, HeaderBytes, PhdrBytes, PhdrAt, ProperPhdr, Ident;
    var file, d := FileBytes(h, gap, ps, paddrs, rest), HeaderBytes(h);
    HeaderFields(h);
    IdentFields(h.abi);
    FrontFields(file, d, Ident(h.abi));
    assert RangeInside(h.phoff, 56 * h.phnum, |file|);
    forall i | 0 <= i < |ps|
      ensures h.phoff + 56 * i + 56 <= |file| && PhdrAt(file, h.phoff + 56 * i) == ps[i]
    {
      var at := h.phoff + 56 * i;
      TableFields(ps, paddrs, i);
      assert file[at..at + 56] == TableBytes(ps, paddrs)[56 * i..56 * i + 56];
      PhdrSlice(file, at);
      PhdrFields(ps[i], paddrs[i]);
    }
  }

  /** The header fields of a file are those of its first 64 bytes. */
  lemma FrontFields(file: seq<byte>, d: seq<byte>, ident: seq<byte>)
    requires |file| >= |d| == 64 && file[..64] == d && |ident| == 24 && d[..24] == ident
    ensures Le32(file, 0) == Le32(ident, 0) && Le32(file, 20) == Le32(ident, 20)
    ensures Le16(file, 16) == Le16(ident, 16) && Le16(file, 18) == Le16(ident, 18)
    ensures file[4] == ident[4] && file[5] == ident[5] && file[6] == ident[6]
    ensures Le64(file, 24) == Le64(d, 24) && Le64(file, 32) == Le64(d, 32)
    ensures Le16(file, 52) == Le16(d, 52) && Le16(file, 54) == Le16(d, 54) && Le16(file, 56) == Le16(d, 56)
  {
  }
}
