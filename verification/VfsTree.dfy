/** The node table of kernel/vfs.c as a value: children, walks along segments, and the tree they form. */
module VfsTree {
  import opened VfsPath

  const MAX_NODES := 64

  datatype Kind = None | File | Dir
  datatype Node = Node(used: bool, inode: nat, kind: Kind, parent: nat, name: string, size: nat)

  const NO_NODE := Node(false, 0, None, 0, "", 0)

  /** Every parent link stays inside the table. */
  ghost predicate Shape(nodes: seq<Node>) {
    |nodes| == MAX_NODES && forall i :: 0 <= i < |nodes| ==> nodes[i].parent < MAX_NODES
  }

  predicate IsDir(nodes: seq<Node>, i: int) { 0 <= i < |nodes| && nodes[i].used && nodes[i].kind == Dir }

  predicate IsChild(nodes: seq<Node>, i: int, parent: int, name: string) {
    0 <= i < |nodes| && nodes[i].used && nodes[i].parent == parent && nodes[i].name == name
  }

  // ----- find_child

  function ChildFrom(nodes: seq<Node>, parent: int, name: string, i: nat): (c: int)
    ensures c == -1 || (i <= c < |nodes| && IsChild(nodes, c, parent, name))
    ensures c == -1 ==> forall j :: i <= j ==> !IsChild(nodes, j, parent, name)
    decreases |nodes| - i
  {
    if i >= |nodes| then -1 else if IsChild(nodes, i, parent, name) then i else ChildFrom(nodes, parent, name, i + 1)
  }

  /** The first child of a directory with this name, or -1. */
  function Child(nodes: seq<Node>, parent: int, name: string): (c: int)
    ensures c == -1 || (0 <= c < |nodes| && IsChild(nodes, c, parent, name) && IsDir(nodes, parent))
    ensures c == -1 && IsDir(nodes, parent) ==> forall j :: !IsChild(nodes, j, parent, name)
  {
    if IsDir(nodes, parent) then ChildFrom(nodes, parent, name, 0) else -1
  }

  // ----- the two walkers

  function ParentOf(nodes: seq<Node>, i: int): (p: int)
    requires Shape(nodes) && 0 <= i < |nodes|
    ensures 0 <= p < |nodes|
  {
    if i == 0 then 0 else nodes[i].parent
  }

  /** resolve_path's walk along the segments. */
  function Walk(nodes: seq<Node>, node: int, segs: seq<string>): (r: int)
    requires Shape(nodes) && -1 <= node < |nodes|
    ensures -1 <= r < |nodes|
    decreases |segs|
  {
    if node == -1 || segs == [] then node
    else if segs[0] == "." then Walk(nodes, node, segs[1..])
    else if segs[0] == ".." then Walk(nodes, ParentOf(nodes, node), segs[1..])
    else Walk(nodes, Child(nodes, node, segs[0]), segs[1..])
  }

  function Resolve(nodes: seq<Node>, cwd: nat, path: string): (r: int)
    requires Shape(nodes) && cwd < |nodes|
    ensures -1 <= r < |nodes|
  {
    if path == "" then -1 else Walk(nodes, if path[0] == '/' then 0 else cwd, Segments(path))
  }

  datatype Spot = Nowhere | Spot(parent: nat, leaf: string)

  /** resolve_parent steps into a segment only if it is a directory. */
  function Enter(nodes: seq<Node>, node: nat, seg: string): (r: int)
    requires Shape(nodes) && node < |nodes|
    ensures -1 <= r < |nodes|
  {
    if seg == "" then node
    else if seg == ".." then ParentOf(nodes, node)
    else if IsDir(nodes, Child(nodes, node, seg)) then Child(nodes, node, seg) else -1
  }

  /**
   * resolve_parent, one segment behind: `last` was read and not yet entered. A "." is skipped unless it ends an
   * unclosed path.
   */
  function Behind(nodes: seq<Node>, node: nat, last: string, segs: seq<string>, closed: bool): (r: Spot)
    requires Shape(nodes) && node < |nodes|
    ensures r.Spot? ==> r.parent < |nodes| && !Dots(r.leaf) && r.leaf != ""
    decreases |segs|
  {
    if segs == [] then
      if last == "" || Dots(last) then Nowhere else Spot(node, last)
    else if segs[0] == "." && (|segs| > 1 || closed) then Behind(nodes, node, last, segs[1..], closed)
    else
      var n := Enter(nodes, node, last);
      if n == -1 then Nowhere else Behind(nodes, n, segs[0], segs[1..], closed)
  }

  function Above(nodes: seq<Node>, cwd: nat, path: string): (r: Spot)
    requires Shape(nodes) && cwd < |nodes|
    ensures r.Spot? ==> r.parent < |nodes| && !Dots(r.leaf) && r.leaf != ""
  {
    if path == "" then Nowhere
    else Behind(nodes, if path[0] == '/' then 0 else cwd, "", Segments(path), path[|path| - 1] == '/')
  }

  /** The two walkers agree on every path of every table. */
  lemma WalkersAgree(nodes: seq<Node>, cwd: nat, path: string)
    requires Shape(nodes) && cwd < |nodes| && Above(nodes, cwd, path).Spot?
    ensures var s := Above(nodes, cwd, path); Resolve(nodes, cwd, path) == Child(nodes, s.parent, s.leaf)
  {
    var start := if path[0] == '/' then 0 else cwd;
    SegmentsOk(path);
    BehindAgrees(nodes, start, "", Segments(path), path[|path| - 1] == '/');
    assert Piece("") + Segments(path) == Segments(path);
  }

  lemma {:induction false} BehindAgrees(nodes: seq<Node>, node: nat, last: string, segs: seq<string>, closed: bool)
    requires Shape(nodes) && node < |nodes| && last != "." && (forall i :: 0 <= i < |segs| ==> segs[i] != "")
    requires Behind(nodes, node, last, segs, closed).Spot?
    ensures var s := Behind(nodes, node, last, segs, closed);
            Walk(nodes, node, Piece(last) + segs) == Child(nodes, s.parent, s.leaf)
    decreases |segs|
  {
    var all := Piece(last) + segs;
    if segs == [] {
      assert all == [last] && all[1..] == [];
    } else if segs[0] == "." && (|segs| > 1 || closed) {
      BehindAgrees(nodes, node, last, segs[1..], closed);
      if last == "" {
        assert all[1..] == segs[1..] && Piece(last) + segs[1..] == segs[1..];
      } else {
        DotSkipped(nodes, node, last, segs[1..]);
        assert all == [last, "."] + segs[1..] && Piece(last) + segs[1..] == [last] + segs[1..];
      }
    } else {
      var n := Enter(nodes, node, last);
      if segs[0] != "." {
        BehindAgrees(nodes, n, segs[0], segs[1..], closed);
        assert Piece(segs[0]) + segs[1..] == segs;
        if last == "" {
          assert all == segs;
        } else {
          assert all[0] == last && all[1..] == segs;
        }
      }
    }
  }

  lemma DotSkipped(nodes: seq<Node>, node: nat, s: string, rest: seq<string>)
    requires Shape(nodes) && node < |nodes|
    ensures Walk(nodes, node, [s, "."] + rest) == Walk(nodes, node, [s] + rest)
  {
    var a, b := [s, "."] + rest, [s] + rest;
    assert a[1..] == ["."] + rest && a[1..][1..] == rest && b[1..] == rest;
    var n := if s == "." then node else if s == ".." then ParentOf(nodes, node) else Child(nodes, node, s);
    assert Walk(nodes, node, a) == Walk(nodes, n, ["."] + rest);
    assert Walk(nodes, node, b) == Walk(nodes, n, rest);
    assert n != -1 ==> Walk(nodes, n, ["."] + rest) == Walk(nodes, n, rest);
  }

  // ----- the tree

  /** n steps towards the root. */
  function Up(nodes: seq<Node>, i: int, n: nat): (r: int)
    requires Shape(nodes) && 0 <= i < |nodes|
    ensures 0 <= r < |nodes|
    decreases n
  {
    if n == 0 then i else Up(nodes, nodes[i].parent, n - 1)
  }

  ghost predicate Reaches(nodes: seq<Node>, i: int)
    requires Shape(nodes) && 0 <= i < |nodes|
  {
    exists n: nat :: Up(nodes, i, n) == 0
  }

  /** a is i or a directory above i. */
  ghost predicate Ancestor(nodes: seq<Node>, a: int, i: int)
    requires Shape(nodes) && 0 <= i < |nodes|
  {
    exists n: nat :: Up(nodes, i, n) == a
  }

  /** Slot 0 is the root; every other node has a proper name and hangs in a directory. */
  ghost predicate Linked(nodes: seq<Node>) {
    && Shape(nodes)
    && IsDir(nodes, 0) && nodes[0].parent == 0 && nodes[0].name == ""
    && (forall i :: 0 <= i < |nodes| && !nodes[i].used ==> nodes[i] == NO_NODE)
    && (forall i :: 0 < i < |nodes| && nodes[i].used ==> IsDir(nodes, nodes[i].parent) && NameOk(nodes[i].name))
  }

  ghost predicate Distinct(nodes: seq<Node>) {
    forall i, j :: 0 < i < j < |nodes| && nodes[i].used && nodes[j].used && nodes[i].parent == nodes[j].parent ==>
      nodes[i].name != nodes[j].name
  }

  ghost predicate Grounded(nodes: seq<Node>)
    requires Shape(nodes)
  {
    forall i :: 0 <= i < |nodes| && nodes[i].used ==> Reaches(nodes, i)
  }

  /** The invariant: a tree under slot 0 with distinct sibling names, and a working directory in it. */
  ghost predicate Tree(nodes: seq<Node>, cwd: nat) {
    Linked(nodes) && Distinct(nodes) && Grounded(nodes) && IsDir(nodes, cwd)
  }

  /** In a tree a child is found under its own name. */
  lemma ChildIs(nodes: seq<Node>, i: int)
    requires Linked(nodes) && Distinct(nodes) && 0 < i < |nodes| && nodes[i].used
    ensures Child(nodes, nodes[i].parent, nodes[i].name) == i
  {
    var c := Child(nodes, nodes[i].parent, nodes[i].name);
    assert IsChild(nodes, i, nodes[i].parent, nodes[i].name);
    assert c != 0;
    if c < i {
    } else if i < c {
    }
  }

  /** The parent walker ends in a directory of the tree. */
  lemma {:induction false} BehindIsDir(nodes: seq<Node>, node: nat, last: string, segs: seq<string>, closed: bool)
    requires Linked(nodes) && IsDir(nodes, node) && Behind(nodes, node, last, segs, closed).Spot?
    requires (forall i :: 0 <= i < |segs| ==> IsSegment(segs[i])) && (last == "" || IsSegment(last))
    ensures var s := Behind(nodes, node, last, segs, closed); IsDir(nodes, s.parent) && IsSegment(s.leaf)
    decreases |segs|
  {
    if segs != [] {
      if segs[0] == "." && (|segs| > 1 || closed) {
        BehindIsDir(nodes, node, last, segs[1..], closed);
      } else {
        BehindIsDir(nodes, Enter(nodes, node, last), segs[0], segs[1..], closed);
      }
    }
  }

  lemma AboveIsDir(nodes: seq<Node>, cwd: nat, path: string)
    requires Linked(nodes) && IsDir(nodes, cwd) && Above(nodes, cwd, path).Spot?
    ensures var s := Above(nodes, cwd, path); IsDir(nodes, s.parent) && NameOk(Truncated(s.leaf))
  {
    SegmentsOk(path);
    BehindIsDir(nodes, if path[0] == '/' then 0 else cwd, "", Segments(path), path[|path| - 1] == '/');
    TruncatedOk(Above(nodes, cwd, path).leaf);
  }

  // ----- adding a node

  function NewNode(inode: nat, kind: Kind, parent: nat, leaf: string): Node {
    Node(true, inode, kind, parent, Truncated(leaf), 0)
  }

  /** A node's chain does not see a slot that nobody points to. */
  lemma {:induction false} UpFrame(nodes: seq<Node>, nodes': seq<Node>, i: int, x: int, n: nat)
    requires Shape(nodes) && Shape(nodes') && 0 <= i < |nodes| && i != x
    requires forall j :: 0 <= j < |nodes| && j != x ==> nodes'[j] == nodes[j]
    requires forall j :: 0 <= j < |nodes| && nodes[j].used && j != x ==> nodes[j].parent != x
    requires forall j :: 0 <= j < |nodes| && nodes[j].used ==> nodes[nodes[j].parent].used
    requires nodes[i].used
    ensures Up(nodes', i, n) == Up(nodes, i, n)
    decreases n
  {
    if n > 0 {
      UpFrame(nodes, nodes', nodes[i].parent, x, n - 1);
    }
  }

  lemma ReachesFrame(nodes: seq<Node>, nodes': seq<Node>, x: int)
    requires Linked(nodes) && Shape(nodes') && Grounded(nodes)
    requires forall j :: 0 <= j < |nodes| && j != x ==> nodes'[j] == nodes[j]
    requires forall j :: 0 <= j < |nodes| && nodes[j].used && j != x ==> nodes[j].parent != x
    ensures forall i :: 0 <= i < |nodes| && i != x && nodes[i].used ==> Reaches(nodes', i)
  {
    forall i | 0 <= i < |nodes| && i != x && nodes[i].used
      ensures Reaches(nodes', i)
    {
      var n: nat :| Up(nodes, i, n) == 0;
      UpFrame(nodes, nodes', i, x, n);
    }
  }

  /** A creation keeps the tree exactly when no sibling carries the name that is stored. */
  lemma Added(nodes: seq<Node>, cwd: nat, x: int, inode: nat, kind: Kind, parent: nat, leaf: string)
    requires Tree(nodes, cwd) && 0 <= x < |nodes| && !nodes[x].used
    requires IsDir(nodes, parent) && NameOk(Truncated(leaf))
    ensures Tree(nodes[x := NewNode(inode, kind, parent, leaf)], cwd) <==> Child(nodes, parent, Truncated(leaf)) == -1
    ensures Linked(nodes[x := NewNode(inode, kind, parent, leaf)]) &&
            Grounded(nodes[x := NewNode(inode, kind, parent, leaf)])
  {
    var nodes' := nodes[x := NewNode(inode, kind, parent, leaf)];
    AddedLinked(nodes, x, inode, kind, parent, leaf);
    ReachesFrame(nodes, nodes', x);
    var n: nat :| Up(nodes', parent, n) == 0;
    assert Up(nodes', x, n + 1) == 0;
    var c := Child(nodes, parent, Truncated(leaf));
    if c != -1 {
      assert nodes'[c] == nodes[c] && nodes'[x].name == nodes'[c].name && nodes'[x].parent == nodes'[c].parent;
      assert c != 0;
      if c < x {
      } else {
      }
    } else {
      assert forall j :: !IsChild(nodes, j, parent, Truncated(leaf));
      forall i, j | 0 < i < j < |nodes| && nodes'[i].used && nodes'[j].used && nodes'[i].parent == nodes'[j].parent
        ensures nodes'[i].name != nodes'[j].name
      {
        assert !IsChild(nodes, i, parent, Truncated(leaf)) && !IsChild(nodes, j, parent, Truncated(leaf));
      }
    }
  }

  lemma AddedLinked(nodes: seq<Node>, x: int, inode: nat, kind: Kind, parent: nat, leaf: string)
    requires Linked(nodes) && 0 <= x < |nodes| && !nodes[x].used
    requires IsDir(nodes, parent) && NameOk(Truncated(leaf))
    ensures Linked(nodes[x := NewNode(inode, kind, parent, leaf)])
    ensures forall d :: IsDir(nodes, d) ==> IsDir(nodes[x := NewNode(inode, kind, parent, leaf)], d)
    ensures forall j :: 0 <= j < |nodes| && nodes[j].used && j != x ==> nodes[j].parent != x
  {
  }

  /** Slot x was free and holds the new node. */
  ghost predicate AddedAt(nodes: seq<Node>, nodes': seq<Node>, x: int, inode: nat, kind: Kind, s: Spot) {
    && s.Spot? && 0 <= x < |nodes| && !nodes[x].used && (forall j :: 0 <= j < x ==> nodes[j].used)
    && nodes' == nodes[x := NewNode(inode, kind, s.parent, s.leaf)]
  }

  /** A child that was found before an addition is found after it. */
  lemma ChildStable(nodes: seq<Node>, nodes': seq<Node>, x: int, parent: int, name: string)
    requires 0 <= x < |nodes| == |nodes'| && !nodes[x].used && nodes' == nodes[x := nodes'[x]] &&
             !IsChild(nodes', x, parent, name)
    requires Child(nodes, parent, name) != -1
    ensures Child(nodes', parent, name) == Child(nodes, parent, name)
  {
    ChildFromStable(nodes, nodes', x, parent, name, 0);
  }

  lemma {:induction false} ChildFromStable(nodes: seq<Node>, nodes': seq<Node>, x: int, parent: int, name: string,
                                           i: nat)
    requires 0 <= x < |nodes| == |nodes'| && !nodes[x].used && nodes' == nodes[x := nodes'[x]] &&
             !IsChild(nodes', x, parent, name)
    ensures ChildFrom(nodes', parent, name, i) == ChildFrom(nodes, parent, name, i)
    decreases |nodes| - i
  {
    if i < |nodes| {
      ChildFromStable(nodes, nodes', x, parent, name, i + 1);
    }
  }

  lemma {:induction false} BehindStable(nodes: seq<Node>, nodes': seq<Node>, x: int, p: nat, leaf: string, node: nat,
                                        last: string, segs: seq<string>, closed: bool)
    requires Linked(nodes) && Shape(nodes') && node < |nodes| && nodes[node].used && 0 <= x < |nodes| && !nodes[x].used
    requires nodes' == nodes[x := nodes'[x]] && nodes'[x].parent == p && nodes'[x].name == leaf &&
             Child(nodes, p, leaf) == -1
    requires Behind(nodes, node, last, segs, closed).Spot?
    ensures Behind(nodes', node, last, segs, closed) == Behind(nodes, node, last, segs, closed)
    decreases |segs|
  {
    if segs != [] {
      if segs[0] == "." && (|segs| > 1 || closed) {
        BehindStable(nodes, nodes', x, p, leaf, node, last, segs[1..], closed);
      } else {
        if last != "" && last != ".." {
          ChildStable(nodes, nodes', x, node, last);
        }
        BehindStable(nodes, nodes', x, p, leaf, Enter(nodes, node, last), segs[0], segs[1..], closed);
      }
    }
  }

  /** What a creation under a short name made is what the path now resolves to. */
  lemma FoundAgain(nodes: seq<Node>, nodes': seq<Node>, cwd: nat, path: string, x: int, inode: nat, kind: Kind)
    requires Tree(nodes, cwd) && Above(nodes, cwd, path).Spot? &&
             AddedAt(nodes, nodes', x, inode, kind, Above(nodes, cwd, path))
    requires |Above(nodes, cwd, path).leaf| <= MAX_NAME
    requires Child(nodes, Above(nodes, cwd, path).parent, Above(nodes, cwd, path).leaf) == -1
    ensures Tree(nodes', cwd) && Resolve(nodes', cwd, path) == x
  {
    hide Distinct, Grounded;
    var s := Above(nodes, cwd, path);
    AboveIsDir(nodes, cwd, path);
    Added(nodes, cwd, x, inode, kind, s.parent, s.leaf);
    var start := if path[0] == '/' then 0 else cwd;
    BehindStable(nodes, nodes', x, s.parent, s.leaf, start, "", Segments(path), path[|path| - 1] == '/');
    WalkersAgree(nodes', cwd, path);
    ChildIs(nodes', x);
  }

  // ----- removing a node

  lemma Removed(nodes: seq<Node>, cwd: nat, x: int)
    requires Tree(nodes, cwd) && 0 < x < |nodes| && nodes[x].used
    requires forall j :: 0 <= j < |nodes| && j != x && nodes[j].used ==> nodes[j].parent != x
    ensures Tree(nodes[x := NO_NODE], if cwd == x then 0 else cwd)
  {
    var nodes' := nodes[x := NO_NODE];
    ReachesFrame(nodes, nodes', x);
  }

  // ----- moving a node

  function Moved(nodes: seq<Node>, x: int, parent: nat, leaf: string): (r: seq<Node>)
    requires 0 <= x < |nodes|
    ensures |r| == |nodes|
  {
    nodes[x := nodes[x].(parent := parent, name := Truncated(leaf))]
  }

  lemma MovedLinked(nodes: seq<Node>, x: int, parent: nat, leaf: string)
    requires Linked(nodes) && 0 < x < |nodes| && nodes[x].used && IsDir(nodes, parent) && NameOk(Truncated(leaf))
    ensures Linked(Moved(nodes, x, parent, leaf))
    ensures forall d :: IsDir(Moved(nodes, x, parent, leaf), d) <==> IsDir(nodes, d)
  {
  }

  lemma MovedDistinct(nodes: seq<Node>, x: int, parent: nat, leaf: string)
    requires Linked(nodes) && Distinct(nodes) && 0 < x < |nodes| && nodes[x].used && IsDir(nodes, parent) &&
             NameOk(Truncated(leaf))
    ensures Distinct(Moved(nodes, x, parent, leaf)) <==>
            Child(nodes, parent, Truncated(leaf)) == -1 || Child(nodes, parent, Truncated(leaf)) == x
  {
    var nodes' := Moved(nodes, x, parent, leaf);
    var c := Child(nodes, parent, Truncated(leaf));
    if c != -1 && c != x {
      assert c != 0;
      assert nodes'[c].name == nodes'[x].name && nodes'[c].parent == nodes'[x].parent;
      if c < x {
      } else {
      }
    } else {
      forall j | 0 < j < |nodes| && j != x && nodes[j].used && nodes[j].parent == parent
        ensures nodes[j].name != Truncated(leaf)
      {
        if nodes[j].name == Truncated(leaf) {
          ChildIs(nodes, j);
        }
      }
    }
  }

  /** Away from the moved node, the chain to the root is the old one. */
  lemma {:induction false} MovedClear(nodes: seq<Node>, x: int, parent: nat, leaf: string, i: int, n: nat)
    requires Shape(nodes) && 0 <= x < |nodes| && parent < MAX_NODES && 0 <= i < |nodes|
    requires forall m: nat :: m < n ==> Up(nodes, i, m) != x
    ensures Up(Moved(nodes, x, parent, leaf), i, n) == Up(nodes, i, n)
    decreases n
  {
    if n > 0 {
      assert Up(nodes, i, 0) != x;
      forall m: nat | m < n - 1
        ensures Up(nodes, nodes[i].parent, m) != x
      {
        assert Up(nodes, i, m + 1) == Up(nodes, nodes[i].parent, m);
      }
      MovedClear(nodes, x, parent, leaf, nodes[i].parent, n - 1);
    }
  }

  /** If the target is clear of x, every node still reaches the root. */
  lemma {:induction false} MovedReaches(nodes: seq<Node>, x: int, parent: nat, leaf: string, i: int, n: nat)
    requires Shape(nodes) && nodes[0].parent == 0 && 0 < x < |nodes| && parent < MAX_NODES && 0 <= i < |nodes|
    requires Reaches(Moved(nodes, x, parent, leaf), parent) && Up(nodes, i, n) == 0
    ensures Reaches(Moved(nodes, x, parent, leaf), i)
    decreases n
  {
    var nodes' := Moved(nodes, x, parent, leaf);
    if i == 0 {
      assert Up(nodes', 0, 0) == 0;
    } else if i == x {
      var k: nat :| Up(nodes', parent, k) == 0;
      assert Up(nodes', x, k + 1) == 0;
    } else {
      assert n > 0;
      MovedReaches(nodes, x, parent, leaf, nodes[i].parent, n - 1);
      var k: nat :| Up(nodes', nodes[i].parent, k) == 0;
      assert Up(nodes', i, k + 1) == 0;
    }
  }

  lemma {:induction false} UpAdd(nodes: seq<Node>, i: int, m: nat, n: nat)
    requires Shape(nodes) && 0 <= i < |nodes|
    ensures Up(nodes, Up(nodes, i, m), n) == Up(nodes, i, m + n)
    decreases m
  {
    if m > 0 {
      UpAdd(nodes, nodes[i].parent, m - 1, n);
    }
  }

  /** The fewest steps from i to an ancestor. */
  lemma {:induction false} Nearest(nodes: seq<Node>, a: int, i: int, n: nat) returns (m: nat)
    requires Shape(nodes) && 0 <= i < |nodes| && Up(nodes, i, n) == a
    ensures m <= n && Up(nodes, i, m) == a && forall k: nat :: k < m ==> Up(nodes, i, k) != a
    decreases n
  {
    if i == a || n == 0 {
      m := 0;
    } else {
      m := Nearest(nodes, a, nodes[i].parent, n - 1);
      m := m + 1;
      forall k: nat | k < m
        ensures Up(nodes, i, k) != a
      {
        if k > 0 {
          assert Up(nodes, i, k) == Up(nodes, nodes[i].parent, k - 1);
        }
      }
    }
  }

  lemma {:induction false} RootStays(nodes: seq<Node>, n: nat)
    requires Shape(nodes) && nodes[0].parent == 0
    ensures Up(nodes, 0, n) == 0
  {
    if n > 0 {
      RootStays(nodes, n - 1);
    }
  }

  /** A directory moved under itself closes a cycle that never meets the root. */
  lemma {:induction false} CycleMisses(nodes: seq<Node>, p: int, m: nat, n: nat)
    requires Shape(nodes) && 0 <= p < |nodes| && Up(nodes, p, m + 1) == p
    requires forall k: nat :: k <= m ==> Up(nodes, p, k) != 0
    ensures Up(nodes, p, n) != 0
  {
    if n > m {
      UpAdd(nodes, p, m + 1, n - (m + 1));
      CycleMisses(nodes, p, m, n - (m + 1));
    }
  }

  lemma MovedGrounded(nodes: seq<Node>, x: int, parent: nat, leaf: string)
    requires Linked(nodes) && Grounded(nodes) && 0 < x < |nodes| && nodes[x].used && IsDir(nodes, parent)
    ensures Grounded(Moved(nodes, x, parent, leaf)) <==> !Ancestor(nodes, x, parent)
  {
    var nodes' := Moved(nodes, x, parent, leaf);
    if Ancestor(nodes, x, parent) {
      var n: nat :| Up(nodes, parent, n) == x;
      var m := Nearest(nodes, x, parent, n);
      forall k: nat | k <= m
        ensures Up(nodes', parent, k) != 0
      {
        MovedClear(nodes, x, parent, leaf, parent, k);
        UpAdd(nodes, parent, k, m - k);
        RootStays(nodes, m - k);
      }
      MovedClear(nodes, x, parent, leaf, parent, m);
      UpAdd(nodes', parent, m, 1);
      assert Up(nodes', parent, m + 1) == Up(nodes', x, 1) == parent;
      forall k: nat
        ensures Up(nodes', parent, k) != 0
      {
        CycleMisses(nodes', parent, m, k);
      }
      assert nodes'[parent].used && !Reaches(nodes', parent);
    } else {
      var n: nat :| Up(nodes, parent, n) == 0;
      MovedClear(nodes, x, parent, leaf, parent, n);
      forall i | 0 <= i < |nodes| && nodes'[i].used
        ensures Reaches(nodes', i)
      {
        var k: nat :| Up(nodes, i, k) == 0;
        MovedReaches(nodes, x, parent, leaf, i, k);
      }
    }
  }

  /** A rename keeps the tree exactly when the target is not beneath the node and the stored name is not taken. */
  lemma MovedTree(nodes: seq<Node>, cwd: nat, x: int, parent: nat, leaf: string)
    requires Tree(nodes, cwd) && 0 < x < |nodes| && nodes[x].used && IsDir(nodes, parent) && NameOk(Truncated(leaf))
    ensures Tree(Moved(nodes, x, parent, leaf), cwd) <==>
            && !Ancestor(nodes, x, parent)
            && (Child(nodes, parent, Truncated(leaf)) == -1 || Child(nodes, parent, Truncated(leaf)) == x)
  {
    hide Distinct, Grounded, Child;
    MovedLinked(nodes, x, parent, leaf);
    MovedDistinct(nodes, x, parent, leaf);
    MovedGrounded(nodes, x, parent, leaf);
  }
}
