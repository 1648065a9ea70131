/** The free list: headers chained through their next fields. */
module MemList {
  import opened Common
  import opened MemArena

  /** Following next from `head` visits exactly `s` and then arrives at `tail`. */
  ghost predicate Seg(hdr: Headers, head: nat, s: seq<nat>, tail: nat)
    decreases |s|
  {
    if s == [] then head == tail
    else head == s[0] && head != 0 && head in hdr && Seg(hdr, hdr[head].next, s[1..], tail)
  }

  lemma {:induction false} SegConcat(hdr: Headers, head: nat, s: seq<nat>, mid: nat, t: seq<nat>, tail: nat)
    requires Seg(hdr, head, s, mid) && Seg(hdr, mid, t, tail)
    ensures Seg(hdr, head, s + t, tail)
    decreases |s|
  {
    if s == [] {
      assert s + t == t;
    } else {
      SegConcat(hdr, hdr[head].next, s[1..], mid, t, tail);
      assert (s + t)[1..] == s[1..] + t;
    }
  }

  lemma {:induction false} SegCut(hdr: Headers, head: nat, s: seq<nat>, t: seq<nat>, tail: nat) returns (mid: nat)
    requires Seg(hdr, head, s + t, tail)
    ensures Seg(hdr, head, s, mid) && Seg(hdr, mid, t, tail)
    ensures mid == if t == [] then tail else t[0]
    decreases |s|
  {
    if s == [] {
      assert s + t == t;
      mid := head;
    } else {
      assert (s + t)[1..] == s[1..] + t;
      mid := SegCut(hdr, hdr[head].next, s[1..], t, tail);
    }
  }

  lemma {:induction false} SegFrame(hdr: Headers, hdr': Headers, head: nat, s: seq<nat>, tail: nat)
    requires Seg(hdr, head, s, tail)
    requires forall b :: b in s ==> b in hdr && b in hdr' && hdr'[b].next == hdr[b].next
    ensures Seg(hdr', head, s, tail)
    decreases |s|
  {
    if s != [] {
      assert s[0] in s;
      SegFrame(hdr, hdr', hdr[head].next, s[1..], tail);
    }
  }

  lemma {:induction false} SegIn(hdr: Headers, head: nat, s: seq<nat>, tail: nat)
    requires Seg(hdr, head, s, tail)
    ensures forall b :: b in s ==> b in hdr && b != 0
    ensures s != [] ==> head == s[0]
    decreases |s|
  {
    if s != [] {
      SegIn(hdr, hdr[head].next, s[1..], tail);
      assert forall b :: b in s ==> b == s[0] || b in s[1..];
    }
  }

  lemma SegHead(hdr: Headers, head: nat, x: nat, rest: seq<nat>, tail: nat)
    requires Seg(hdr, head, [x] + rest, tail)
    ensures head == x && x != 0 && x in hdr && Seg(hdr, hdr[x].next, rest, tail)
  {
    assert ([x] + rest)[1..] == rest;
  }

  lemma SegCons(hdr: Headers, x: nat, rest: seq<nat>, tail: nat)
    requires x != 0 && x in hdr && Seg(hdr, hdr[x].next, rest, tail)
    ensures Seg(hdr, x, [x] + rest, tail)
  {
    assert ([x] + rest)[1..] == rest;
  }

  lemma SegNil(hdr: Headers, x: nat)
    ensures Seg(hdr, x, [], x)
  {
  }

  /** Where the i-th step along the list leads. */
  lemma SegStep(hdr: Headers, head: nat, s: seq<nat>, i: nat)
    requires Seg(hdr, head, s, 0) && i < |s|
    ensures s[i] in hdr && s[i] != 0
    ensures hdr[s[i]].next == if i + 1 < |s| then s[i + 1] else 0
  {
    assert s == s[..i] + s[i..];
    var mid := SegCut(hdr, head, s[..i], s[i..], 0);
    assert s[i..][1..] == s[i + 1..];
  }

  // ----- the store through a link pointer: the head, or the next field of the last node passed

  function LinkHead(head: nat, front: seq<nat>, x: nat): nat {
    if front == [] then x else head
  }

  function LinkNext(hdr: Headers, front: seq<nat>, x: nat): Headers {
    if front == [] then hdr else
      var p := front[|front| - 1];
      if p in hdr then hdr[p := hdr[p].(next := x)] else hdr
  }

  lemma Relink(hdr: Headers, head: nat, front: seq<nat>, y: nat, x: nat)
    requires Seg(hdr, head, front, y) && NoDup(front)
    ensures Seg(LinkNext(hdr, front, x), LinkHead(head, front, x), front, x)
  {
    if front != [] {
      var n := |front| - 1;
      var p := front[n];
      var hdr' := LinkNext(hdr, front, x);
      assert front == front[..n] + [p];
      var mid := SegCut(hdr, head, front[..n], [p], y);
      SegIn(hdr, head, front[..n], mid);
      SegFrame(hdr, hdr', head, front[..n], mid);
      assert [p][1..] == [];
      assert Seg(hdr', p, [p], x);
      SegConcat(hdr', head, front[..n], p, [p], x);
    }
  }

  /** The list with the nodes between `front` and `rest` replaced by `mid`. */
  lemma Splice(hdr: Headers, head: nat, front: seq<nat>, y: nat, mid: seq<nat>, z: nat, rest: seq<nat>, x: nat)
    requires Seg(hdr, head, front, y) && NoDup(front)
    requires Seg(hdr, x, mid, z) && Seg(hdr, z, rest, 0)
    requires forall b :: b in front ==> b !in mid && b !in rest
    ensures Seg(LinkNext(hdr, front, x), LinkHead(head, front, x), front + mid + rest, 0)
  {
    var hdr' := LinkNext(hdr, front, x);
    Relink(hdr, head, front, y, x);
    SegIn(hdr, x, mid, z);
    SegIn(hdr, z, rest, 0);
    assert front != [] ==> front[|front| - 1] in front;
    SegFrame(hdr, hdr', x, mid, z);
    SegFrame(hdr, hdr', z, rest, 0);
    SegConcat(hdr', x, mid, z, rest, 0);
    SegConcat(hdr', LinkHead(head, front, x), front, x, mid + rest, 0);
    assert front + mid + rest == front + (mid + rest);
  }

  /** Relinking touches only next fields. */
  lemma LinkKeeps(hdr: Headers, front: seq<nat>, x: nat, b: nat)
    requires b in hdr
    ensures b in LinkNext(hdr, front, x) &&
            LinkNext(hdr, front, x)[b] == hdr[b].(next := LinkNext(hdr, front, x)[b].next)
  {
  }
}
