/** Bytes, little-endian fields and in-place overlays: the vocabulary every
    byte buffer of the kernel is described with. */
module Bytes {

  type byte = x: int | 0 <= x < 256

  function Le16(d: seq<byte>, off: nat): (r: nat)
    requires off + 2 <= |d|
    ensures r < 0x1_0000
  {
    d[off] as int + 0x100 * (d[off + 1] as int)
  }

  function Le32(d: seq<byte>, off: nat): (r: nat)
    requires off + 4 <= |d|
    ensures r < 0x1_0000_0000
  {
    Le16(d, off) + 0x1_0000 * Le16(d, off + 2)
  }

  function Le64(d: seq<byte>, off: nat): (r: nat)
    requires off + 8 <= |d|
    ensures r < 0x1_0000_0000_0000_0000
  {
    Le32(d, off) + 0x1_0000_0000 * Le32(d, off + 4)
  }

  function Bytes16(v: nat): (b: seq<byte>)
    requires v < 0x1_0000
    ensures |b| == 2 && Le16(b, 0) == v
  {
    [v % 0x100, v / 0x100]
  }

  function Bytes32(v: nat): (b: seq<byte>)
    requires v < 0x1_0000_0000
    ensures |b| == 4 && Le32(b, 0) == v
  {
    var lo, hi := Bytes16(v % 0x1_0000), Bytes16(v / 0x1_0000);
    assert Le16(lo + hi, 0) == Le16(lo, 0) && Le16(lo + hi, 2) == Le16(hi, 0);
    lo + hi
  }

  function Bytes64(v: nat): (b: seq<byte>)
    requires v < 0x1_0000_0000_0000_0000
    ensures |b| == 8 && Le64(b, 0) == v
  {
    var lo, hi := Bytes32(v % 0x1_0000_0000), Bytes32(v / 0x1_0000_0000);
    Le32At(lo + hi, 0);
    Le32At(lo + hi, 4);
    assert (lo + hi)[0..4] == lo && (lo + hi)[4..8] == hi;
    lo + hi
  }

  lemma Le16At(e: seq<byte>, off: nat)
    requires off + 2 <= |e|
    ensures Le16(e, off) == Le16(e[off..off + 2], 0)
  {
  }

  lemma Le32At(e: seq<byte>, off: nat)
    requires off + 4 <= |e|
    ensures Le32(e, off) == Le32(e[off..off + 4], 0)
  {
  }

  lemma Le64At(e: seq<byte>, off: nat)
    requires off + 8 <= |e|
    ensures Le64(e, off) == Le64(e[off..off + 8], 0)
  {
  }

  function Zeros(n: nat): (z: seq<byte>)
    ensures |z| == n
    ensures forall i :: 0 <= i < n ==> z[i] == 0
  {
    seq(n, _ => 0)
  }

  /** `d` with the bytes from `off` on replaced by `b`. */
  function Overlay(d: seq<byte>, off: nat, b: seq<byte>): (r: seq<byte>)
    requires off + |b| <= |d|
    ensures |r| == |d|
    ensures forall i :: 0 <= i < |d| ==> r[i] == if off <= i < off + |b| then b[i - off] else d[i]
  {
    d[..off] + b + d[off + |b|..]
  }

  /** Two overlays that meet make one. */
  lemma OverlayJoin(d: seq<byte>, off: nat, a: seq<byte>, b: seq<byte>)
    requires off + |a| + |b| <= |d|
    ensures Overlay(Overlay(d, off, a), off + |a|, b) == Overlay(d, off, a + b)
  {
  }

  /** An overlay of the front part does not care what follows it. */
  lemma OverlayAppend(d: seq<byte>, off: nat, b: seq<byte>, tail: seq<byte>)
    requires off + |b| <= |d|
    ensures Overlay(d, off, b) + tail == Overlay(d + tail, off, b)
  {
  }
}
