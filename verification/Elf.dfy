/** kernel/elf.c: which files are accepted and what image they load to. */
module Elf {
  import opened Common
  import opened Bytes
  import Bits

  const U64 := 0x1_0000_0000_0000_0000
  const EHDR_SIZE := 64
  const PHDR_SIZE := 56
  const PT_LOAD := 1
  const MAX_LOAD_SIZE := 16 * 1024 * 1024

  datatype Range = Range(min: nat, max: nat)
  datatype Phdr = Phdr(kind: nat, flags: nat, offset: nat, vaddr: nat, filesz: nat, memsz: nat, align: nat)

  /** Sum modulo 2^64 and whether it wrapped, judged as the kernel does: by the result being smaller. */
  function AddU64(a: nat, b: nat): (nat, bool) {
    var out := (a + b) % U64;
    (out, out < a)
  }

  lemma AddU64Exact(a: nat, b: nat)
    requires a < U64 && b < U64
    ensures AddU64(a, b).1 <==> a + b >= U64
    ensures !AddU64(a, b).1 ==> AddU64(a, b).0 == a + b
  {
  }

  predicate RangeInside(off: nat, len: nat, total: nat) {
    !AddU64(off, len).1 && off <= total && AddU64(off, len).0 <= total
  }

  function PhdrAt(file: seq<byte>, at: nat): (p: Phdr)
    requires at + PHDR_SIZE <= |file|
    ensures p.offset < U64 && p.vaddr < U64 && p.filesz < U64 && p.memsz < U64 && p.align < U64
  {
    Phdr(Le32(file, at), Le32(file, at + 4), Le64(file, at + 8), Le64(file, at + 16),
         Le64(file, at + 32), Le64(file, at + 40), Le64(file, at + 48))
  }

  function Entry(file: seq<byte>): (e: nat)
    requires |file| >= EHDR_SIZE
    ensures e < U64
  {
    Le64(file, 24)
  }

  /** The checks elf_validate makes on the file header. */
  predicate HeaderOk(file: seq<byte>) {
    && |file| >= EHDR_SIZE
    && Le32(file, 0) == 0x464C457F && file[4] == 2 && file[5] == 1
    && file[6] == 1 && Le32(file, 20) == 1
    && Le16(file, 16) == 2 && Le16(file, 18) == 62
    && Le16(file, 52) == EHDR_SIZE && Le16(file, 54) == PHDR_SIZE && Le16(file, 56) != 0
    && RangeInside(Le64(file, 32), PHDR_SIZE * Le16(file, 56), |file|)
  }

  /** The program header table, which a good file header places inside the file. */
  function Phdrs(file: seq<byte>): (ps: seq<Phdr>)
    requires HeaderOk(file) && |file| < U64
    ensures |ps| == Le16(file, 56)
    ensures forall i :: 0 <= i < |ps| ==>
              ps[i].offset < U64 && ps[i].vaddr < U64 && ps[i].filesz < U64 && ps[i].memsz < U64 && ps[i].align < U64
  {
    AddU64Exact(Le64(file, 32), PHDR_SIZE * Le16(file, 56));
    seq(Le16(file, 56), i requires 0 <= i < Le16(file, 56) => PhdrAt(file, Le64(file, 32) + PHDR_SIZE * i))
  }

  // ----- one loadable header

  /** The tests of inspect_load_range, with the kernel's 64-bit arithmetic and masks. */
  predicate Accepts(p: Phdr, size: nat) {
    && p.flags < 8 && p.memsz != 0 && p.filesz <= p.memsz
    && !AddU64(p.offset, p.filesz).1 && AddU64(p.offset, p.filesz).0 <= size
    && !AddU64(p.vaddr, p.memsz).1
    && (p.align != 0 ==> Bits.And(p.align, p.align - 1) == 0)
    && (p.align > 1 ==> Bits.And((p.vaddr - p.offset) % U64, p.align - 1) == 0)
  }

  /** The same in plain arithmetic: parts in range, and vaddr congruent to offset modulo a
      power-of-two alignment. */
  ghost predicate Loadable(p: Phdr, size: nat) {
    && p.flags < 8 && 0 < p.memsz && p.filesz <= p.memsz
    && p.offset + p.filesz <= size
    && p.vaddr + p.memsz < U64
    && (p.align != 0 ==> Bits.IsPow2(p.align) && p.vaddr % p.align == p.offset % p.align)
  }

  lemma ModShift(x: int, q: int, p: nat)
    requires p > 0
    ensures (x + q * p) % p == x % p
  {
    var r := x % p;
    assert x == (x / p) * p + r;
    assert x + q * p == (x / p + q) * p + r by {
      assert (x / p + q) * p == (x / p) * p + q * p;
    }
    IntModUnique(x + q * p, p, x / p + q, r);
  }

  lemma IntModUnique(x: int, m: nat, q: int, t: int)
    requires m > 0 && 0 <= t < m && x == q * m + t
    ensures x % m == t
  {
    var e := x / m - q;
    assert x == (x / m) * m + x % m;
    assert e * m == t - x % m by {
      assert (x / m) * m - q * m == e * m;
    }
  }

  lemma CongruentIff(v: nat, o: nat, p: nat)
    requires p > 0
    ensures (v - o) % p == 0 <==> v % p == o % p
  {
    var a, b := v % p, o % p;
    assert v == (v / p) * p + a && o == (o / p) * p + b;
    assert v - o == (a - b) + (v / p - o / p) * p by {
      assert (v / p - o / p) * p == (v / p) * p - (o / p) * p;
    }
    ModShift(a - b, v / p - o / p, p);
    if a < b {
      IntModUnique(a - b, p, -1, a - b + p);
    } else {
      IntModUnique(a - b, p, 0, a - b);
    }
  }

  /** Reducing modulo 2^64 first does not change the remainder by a divisor of 2^64. */
  lemma WrapKeepsMod(d: int, q: nat, p: nat)
    requires p > 0 && q * p == U64
    ensures d % U64 % p == d % p
  {
    var x, n := d % U64, d / U64;
    assert d == x + n * U64;
    assert n * (q * p) == n * q * p;
    ModShift(x, n * q, p);
  }

  /** The mask test is congruence modulo the alignment, wrap-around included. */
  lemma MaskIsCongruence(v: nat, o: nat, align: nat)
    requires v < U64 && o < U64 && 0 < align < U64 && Bits.IsPow2(align)
    ensures Bits.And((v - o) % U64, align - 1) == 0 <==> v % align == o % align
  {
    hide Bits.And, Bits.Pow2;
    var k: nat :| align == Bits.Pow2(k);
    Pow2Sixty();
    if k > 64 {
      Bits.Pow2Mono(64, k);
    }
    Bits.Pow2Add(64 - k, k);
    WrapKeepsMod(v - o, Bits.Pow2(64 - k), align);
    Bits.AndMask((v - o) % U64, k);
    CongruentIff(v, o, align);
  }

  lemma Pow2Eight()
    ensures Bits.Pow2(8) == 256
  {
    assert Bits.Pow2(4) == 16;
  }

  lemma Pow2Sixty()
    ensures Bits.Pow2(64) == U64
  {
    hide Bits.Pow2;
    Pow2Eight();
    Bits.Pow2Add(8, 8);
    Bits.Pow2Add(16, 16);
    Bits.Pow2Add(32, 32);
  }

  /** The kernel's tests are the plain conditions. */
  lemma AcceptsIsLoadable(p: Phdr, size: nat)
    requires p.offset < U64 && p.vaddr < U64 && p.filesz < U64 && p.memsz < U64 && p.align < U64 && size < U64
    ensures Accepts(p, size) <==> Loadable(p, size)
  {
    hide Bits.And, Bits.IsPow2;
    AddU64Exact(p.offset, p.filesz);
    AddU64Exact(p.vaddr, p.memsz);
    if p.align != 0 {
      Bits.AndPredecessor(p.align);
      if Bits.IsPow2(p.align) {
        MaskIsCongruence(p.vaddr, p.offset, p.align);
        IntModUnique(p.vaddr, 1, p.vaddr, 0);
        IntModUnique(p.offset, 1, p.offset, 0);
      }
    }
  }

  // ----- the address range of the image

  ghost predicate IsLoad(ps: seq<Phdr>, i: nat) { i < |ps| && ps[i].kind == PT_LOAD }

  /** [min, max) is the hull of the memory parts of the loadable headers. */
  ghost predicate Hull(ps: seq<Phdr>, r: Range) {
    && (exists i: nat :: IsLoad(ps, i) && ps[i].vaddr == r.min)
    && (exists i: nat :: IsLoad(ps, i) && ps[i].vaddr + ps[i].memsz == r.max)
    && (forall i: nat :: IsLoad(ps, i) ==> r.min <= ps[i].vaddr && ps[i].vaddr + ps[i].memsz <= r.max)
  }

  ghost predicate AllLoadable(ps: seq<Phdr>, size: nat) {
    forall i: nat :: IsLoad(ps, i) ==> Loadable(ps[i], size)
  }

  /** inspect_load_range: the hull of the loadable headers, provided every one of them is loadable,
      the entry point lies in the hull, and the hull is at most 16 MiB. */
  method Inspect(ps: seq<Phdr>, entry: nat, size: nat) returns (r: Option<Range>)
    requires size < U64
    requires forall i :: 0 <= i < |ps| ==>
               ps[i].offset < U64 && ps[i].vaddr < U64 && ps[i].filesz < U64 && ps[i].memsz < U64 && ps[i].align < U64
    ensures r.Some? ==> AllLoadable(ps, size) && Hull(ps, r.value)
    ensures r.Some? ==> r.value.min <= entry < r.value.max && r.value.max - r.value.min <= MAX_LOAD_SIZE
    ensures r.None? ==>
              !AllLoadable(ps, size) || forall h :: Hull(ps, h) ==>
                !(h.min <= entry < h.max) || h.max - h.min > MAX_LOAD_SIZE
  {
    hide Loadable, Accepts;
    var min: nat, max: nat := U64 - 1, 0;
    var loads := 0;
    ghost var lowest, highest: nat := 0, 0;
    for i := 0 to |ps|
      invariant forall j: nat :: j < i && IsLoad(ps, j) ==> Loadable(ps[j], size)
      invariant forall j: nat :: j < i && IsLoad(ps, j) ==> min <= ps[j].vaddr && ps[j].vaddr + ps[j].memsz <= max
      invariant loads == 0 ==> min == U64 - 1 && max == 0 && forall j: nat :: j < i ==> !IsLoad(ps, j)
      invariant loads != 0 ==> lowest < i && IsLoad(ps, lowest) && ps[lowest].vaddr == min
      invariant loads != 0 ==> highest < i && IsLoad(ps, highest) && ps[highest].vaddr + ps[highest].memsz == max
      invariant loads >= 0
    {
      if ps[i].kind == PT_LOAD {
        AcceptsIsLoadable(ps[i], size);
        LoadableEnd(ps[i], size);
        if !Accepts(ps[i], size) {
          assert IsLoad(ps, i);
          return None;
        }
        var end := AddU64(ps[i].vaddr, ps[i].memsz).0;
        if ps[i].vaddr <= min {
          lowest := i;
        }
        if end >= max {
          highest := i;
        }
        if ps[i].vaddr < min {
          min := ps[i].vaddr;
        }
        if end > max {
          max := end;
        }
        loads := loads + 1;
      }
    }
    if loads == 0 || entry < min || entry >= max || max <= min || max - min > MAX_LOAD_SIZE {
      HullUnique(ps, Range(min, max), lowest, highest, loads != 0);
      return None;
    }
    return Some(Range(min, max));
  }

  lemma LoadableEnd(p: Phdr, size: nat)
    requires p.vaddr < U64 && p.memsz < U64
    ensures Loadable(p, size) ==> AddU64(p.vaddr, p.memsz).0 == p.vaddr + p.memsz && p.vaddr < U64 - 1
  {
    AddU64Exact(p.vaddr, p.memsz);
  }

  lemma HullUnique(ps: seq<Phdr>, r: Range, lowest: nat, highest: nat, some: bool)
    requires some ==>
               IsLoad(ps, lowest) && ps[lowest].vaddr == r.min && IsLoad(ps, highest) &&
                 ps[highest].vaddr + ps[highest].memsz == r.max
    requires some ==> forall i: nat :: IsLoad(ps, i) ==> r.min <= ps[i].vaddr && ps[i].vaddr + ps[i].memsz <= r.max
    requires !some ==> forall i: nat :: !IsLoad(ps, i)
    ensures forall h :: Hull(ps, h) ==> some && h == r
  {
  }

  // ----- validation and loading

  /** elf_validate accepts the file, and its image spans [r.min, r.max). */
  ghost predicate Valid(file: seq<byte>, r: Range) {
    && |file| < U64 && HeaderOk(file)
    && AllLoadable(Phdrs(file), |file|) && Hull(Phdrs(file), r)
    && r.min <= Entry(file) < r.max && r.max - r.min <= MAX_LOAD_SIZE
  }

  lemma ValidOnce(file: seq<byte>, r: Range)
    requires Valid(file, r)
    ensures forall q :: Valid(file, q) ==> q == r
  {
    hide Phdrs, Entry, HeaderOk, AllLoadable;
  }

  method Examine(file: seq<byte>) returns (r: Option<Range>)
    requires |file| < U64
    ensures r.Some? ==> Valid(file, r.value)
    ensures r.None? ==> forall h :: !Valid(file, h)
  {
    hide Hull, AllLoadable, RangeInside, Phdrs, Entry;
    if !HeaderOk(file) {
      return None;
    }
    r := Inspect(Phdrs(file), Entry(file), |file|);
  }

  predicate Covers(p: Phdr, addr: nat) {
    p.kind == PT_LOAD && p.vaddr <= addr < p.vaddr + p.filesz
  }

  function FileByte(file: seq<byte>, p: Phdr, addr: nat): byte
    requires p.vaddr <= addr
  {
    var at := p.offset + (addr - p.vaddr);
    if at < |file| then file[at] else 0
  }

  /** The byte at `addr` after the first n headers have been copied over zeros. */
  function ImageByte(file: seq<byte>, ps: seq<Phdr>, n: nat, addr: nat): byte
    requires n <= |ps|
  {
    if n == 0 then 0
    else if Covers(ps[n - 1], addr) then FileByte(file, ps[n - 1], addr)
    else ImageByte(file, ps, n - 1, addr)
  }

  /** An image byte comes from the last header whose file part covers it ... */
  lemma {:induction false} LastHeaderWins(file: seq<byte>, ps: seq<Phdr>, n: nat, addr: nat, j: nat)
    requires j < n <= |ps| && Covers(ps[j], addr) && forall k :: j < k < n ==> !Covers(ps[k], addr)
    ensures ImageByte(file, ps, n, addr) == FileByte(file, ps[j], addr)
  {
    if j < n - 1 {
      LastHeaderWins(file, ps, n - 1, addr, j);
    }
  }

  /** ... and is zero if there is none. */
  lemma {:induction false} UncoveredIsZero(file: seq<byte>, ps: seq<Phdr>, n: nat, addr: nat)
    requires n <= |ps| && forall k :: 0 <= k < n ==> !Covers(ps[k], addr)
    ensures ImageByte(file, ps, n, addr) == 0
  {
    if n > 0 {
      UncoveredIsZero(file, ps, n - 1, addr);
    }
  }

  /** memcpy of the file part of header p into the image. */
  method CopySegment(base: array<byte>, file: seq<byte>, p: Phdr, dest: nat, ghost min: nat)
    requires min <= p.vaddr && dest == p.vaddr - min && dest + p.filesz <= base.Length && p.offset + p.filesz <= |file|
    requires p.kind == PT_LOAD
    modifies base
    ensures forall i :: 0 <= i < base.Length ==>
      base[i] == if Covers(p, min + i) then FileByte(file, p, min + i) else old(base[i])
  {
    for k := 0 to p.filesz
      invariant forall i :: 0 <= i < base.Length ==>
        base[i] == if dest <= i < dest + k then FileByte(file, p, min + i) else old(base[i])
    {
      base[dest + k] := file[p.offset + k];
    }
  }

  lemma SegmentFits(ps: seq<Phdr>, size: nat, r: Range, i: nat)
    requires AllLoadable(ps, size) && Hull(ps, r) && IsLoad(ps, i)
    ensures r.min <= ps[i].vaddr && (ps[i].vaddr - r.min) + ps[i].memsz <= r.max - r.min
    ensures ps[i].filesz <= ps[i].memsz && ps[i].offset + ps[i].filesz <= size
  {
    hide Bits.IsPow2;
    assert Loadable(ps[i], size);
  }

  /** elf_load_process_image on an accepted file and a buffer of the image's size: every copy stays
      inside file and buffer, so the range check in the copy loop never fires. */
  method Load(file: seq<byte>, base: array<byte>, r: Range) returns (ok: bool)
    requires Valid(file, r) && base.Length == r.max - r.min
    modifies base
    ensures ok
    ensures forall i :: 0 <= i < base.Length ==> base[i] == ImageByte(file, Phdrs(file), |Phdrs(file)|, r.min + i)
  {
    hide Phdrs, Entry, HeaderOk, Hull, AllLoadable, Loadable;
    var ps := Phdrs(file);
    for i := 0 to base.Length
      invariant forall j :: 0 <= j < i ==> base[j] == 0
    {
      base[i] := 0;
    }
    for n := 0 to |ps|
      invariant forall i :: 0 <= i < base.Length ==> base[i] == ImageByte(file, ps, n, r.min + i)
    {
      if ps[n].kind == PT_LOAD {
        SegmentFits(ps, |file|, r, n);
        var dest := ps[n].vaddr - r.min;
        if dest > base.Length || ps[n].memsz > base.Length - dest {
          return false;
        }
        CopySegment(base, file, ps[n], dest, r.min);
      }
    }
    return true;
  }
}
