/** kernel/vfs.c: the in-memory file tree, its path walkers, its path printer and the operations that change it. */
module Vfs {
  import opened VfsPath
  import opened VfsTree

  const MAX_OPEN := 32
  const MAX_PATH := 128

  /** The access bits of a flags word: WRONLY, CREAT, TRUNC and APPEND. */
  datatype Flags = Flags(write: bool, creat: bool, trunc: bool, append: bool)
  datatype OpenFile = OpenFile(used: bool, node: nat, offset: nat, flags: Flags)

  const CLOSED := OpenFile(false, 0, 0, Flags(false, false, false, false))

  class FileSystem {
    var nodes: seq<Node>
    var cwd: nat
    var nextInode: nat
    var files: seq<OpenFile>

    ghost predicate Valid()
      reads this
    {
      Shape(nodes) && cwd < MAX_NODES && |files| == MAX_OPEN && forall f :: 0 <= f < |files| ==>
        files[f].node < MAX_NODES
    }

    ghost predicate IsTree()
      reads this
    {
      Tree(nodes, cwd)
    }

    /** vfs_init. */
    constructor Init()
      ensures Valid() && IsTree() && cwd == 0
      ensures forall i :: 0 < i < MAX_NODES ==> !nodes[i].used
      ensures forall f :: 0 <= f < MAX_OPEN ==> files[f] == CLOSED
    {
      nodes := [Node(true, 1, Dir, 0, "", 0)] + seq(MAX_NODES - 1, _ => NO_NODE);
      cwd := 0;
      nextInode := 2;
      files := seq(MAX_OPEN, _ => CLOSED);
      new;
      assert Up(nodes, 0, 0) == 0;
    }

    /** find_child. */
    method FindChild(parent: int, name: string) returns (c: int)
      requires Valid()
      ensures c == Child(nodes, parent, name)
    {
      if parent < 0 || parent >= MAX_NODES || !nodes[parent].used || nodes[parent].kind != Dir {
        return -1;
      }
      c := 0;
      while c < MAX_NODES
        invariant 0 <= c <= MAX_NODES
        invariant ChildFrom(nodes, parent, name, 0) == ChildFrom(nodes, parent, name, c)
      {
        if nodes[c].used && nodes[c].parent == parent && nodes[c].name == name {
          return;
        }
        c := c + 1;
      }
      c := -1;
    }

    /** child_count. */
    method ChildCount(parent: int) returns (n: nat)
      requires Valid()
      ensures n == |Children(nodes, parent, MAX_NODES)|
    {
      n := 0;
      var i := 0;
      while i < MAX_NODES
        invariant 0 <= i <= MAX_NODES && n == |Children(nodes, parent, i)|
      {
        ghost var before, after := Children(nodes, parent, i), Children(nodes, parent, i + 1);
        if i != parent && nodes[i].used && nodes[i].parent == parent {
          assert after == before + {i};
          n := n + 1;
        } else {
          assert after == before;
        }
        i := i + 1;
      }
    }

    /** resolve_path. */
    method ResolvePath(path: string) returns (node: int)
      requires Valid()
      ensures node == Resolve(nodes, cwd, path)
    {
      hide Walk, Segments, Child, IsSegment;
      if path == "" {
        return -1;
      }
      node := if path[0] == '/' then 0 else cwd;
      var seg, len, p := NextSegment(path, 0);
      assert path[0..] == path;
      while p < |path|
        invariant seg <= p <= |path| && p == seg + len && 0 <= node < MAX_NODES
        invariant p < |path| ==> len > 0
        invariant Resolve(nodes, cwd, path) == Walk(nodes, node, Piece(path[seg..p]) + Segments(path[p..]))
        decreases |path| - p
      {
        var s := path[seg..p];
        ghost var rest := Segments(path[p..]);
        WalkStep(nodes, node, s, rest);
        seg, len, p := NextSegment(path, p);
        if s == "" || s == "." {
        } else if s == ".." {
          if node != 0 {
            node := nodes[node].parent;
          }
        } else {
          node := FindChild(node, s);
          if node < 0 {
            WalkEnd(nodes, -1, rest);
            return;
          }
        }
      }
      var s := path[seg..p];
      assert path[p..] == "";
      NoSegments();
      WalkStep(nodes, node, s, []);
      if len > 0 && s != "." {
        if s == ".." {
          node := if node == 0 then 0 else nodes[node].parent;
        } else {
          node := FindChild(node, s);
        }
      }
      WalkEnd(nodes, node, []);
    }

    /** The step of resolve_parent into the segment read before. */
    method EnterLast(node: nat, last: string) returns (r: int)
      requires Valid() && node < MAX_NODES
      ensures r == Enter(nodes, node, last)
    {
      r := node;
      if last != "" {
        if last == ".." {
          if node != 0 {
            r := nodes[node].parent;
          }
        } else {
          r := FindChild(node, last);
          if r >= 0 && (!nodes[r].used || nodes[r].kind != Dir) {
            r := -1;
          }
        }
      }
    }

    /** resolve_parent. */
    method ResolveParent(path: string) returns (r: Spot)
      requires Valid()
      ensures r == Above(nodes, cwd, path)
    {
      hide Behind, Enter, Segments, Child, IsSegment;
      if path == "" {
        return Nowhere;
      }
      var node: nat := if path[0] == '/' then 0 else cwd;
      var last := "";
      var seg, len, p := NextSegment(path, 0);
      assert path[0..] == path;
      ghost var closed := path[|path| - 1] == '/';
      while p < |path|
        invariant seg <= p <= |path| && p == seg + len && node < MAX_NODES
        invariant p < |path| ==> len > 0
        invariant p == |path| ==> (len == 0 <==> closed)
        invariant Above(nodes, cwd, path) ==
                  Behind(nodes, node, last, Piece(path[seg..p]) + Segments(path[p..]), closed)
        decreases |path| - p
      {
        var s := path[seg..p];
        ghost var rest := Segments(path[p..]);
        BehindStep(nodes, node, last, s, rest, closed);
        ghost var at := p;
        seg, len, p := NextSegment(path, p);
        MoreSegments(path, at, seg, p);
        if s != "" && s != "." {
          var n := EnterLast(node, last);
          if n < 0 {
            return Nowhere;
          }
          node := n;
          last := s;
        }
      }
      var s := path[seg..p];
      assert path[p..] == "";
      NoSegments();
      BehindStep(nodes, node, last, s, [], closed);
      if len > 0 {
        var n := EnterLast(node, last);
        if n < 0 {
          return Nowhere;
        }
        node := n;
        last := s;
      }
      BehindEnd(nodes, node, last, closed);
      if last == "" || last == "." || last == ".." {
        return Nowhere;
      }
      return Spot(node, last);
    }

    /** alloc_node: the first free slot. */
    method AllocNode(kind: Kind, parent: nat, leaf: string) returns (x: int)
      requires Valid() && parent < MAX_NODES && leaf != "" && !Dots(leaf)
      modifies this`nodes, this`nextInode
      ensures Valid()
      ensures x == -1 ==> nodes == old(nodes) && forall j :: 0 <= j < MAX_NODES ==> nodes[j].used
      ensures x != -1 ==> AddedAt(old(nodes), nodes, x, old(nextInode), kind, Spot(parent, leaf))
      ensures nextInode == old(nextInode) + if x == -1 then 0 else 1
    {
      x := 0;
      while x < MAX_NODES
        invariant 0 <= x <= MAX_NODES && nodes == old(nodes) && nextInode == old(nextInode)
        invariant forall j :: 0 <= j < x ==> nodes[j].used
      {
        if !nodes[x].used {
          nodes := nodes[x := Node(true, nextInode, kind, parent, Truncated(leaf), 0)];
          nextInode := nextInode + 1;
          return;
        }
        x := x + 1;
      }
      x := -1;
    }

    /** vfs_mkdir. */
    method Mkdir(path: string) returns (r: int)
      requires Valid()
      modifies this`nodes, this`nextInode
      ensures Valid() && (r == 0 || r == -1)
      ensures var s := Above(old(nodes), cwd, path);
              && (r == 0 <==>
                s.Spot? && Child(old(nodes), s.parent, s.leaf) == -1 &&
                 exists j :: 0 <= j < MAX_NODES && !old(nodes)[j].used)
              && (r == 0 ==>
                exists x ::
                  AddedAt(old(nodes), nodes, x, old(nextInode), Dir, s) && Lands(old(nodes), nodes, cwd, path, x))
              && (r == 0 && old(IsTree()) ==> (IsTree() <==> Child(old(nodes), s.parent, Truncated(s.leaf)) == -1))
      ensures r == -1 ==> nodes == old(nodes)
      ensures nextInode == old(nextInode) + if r == 0 then 1 else 0
    {
      hide Above, Tree, Child, IsSegment, NameOk, Resolve;
      var s := ResolveParent(path);
      if s.Nowhere? {
        return -1;
      }
      var c := FindChild(s.parent, s.leaf);
      if c >= 0 {
        return -1;
      }
      var x := AllocNode(Dir, s.parent, s.leaf);
      if x == -1 {
        return -1;
      }
      CreatedTree(old(nodes), nodes, cwd, path, x, old(nextInode), Dir);
      return 0;
    }

    /** vfs_unlink. */
    method Unlink(path: string) returns (r: int)
      requires Valid()
      modifies this`nodes
      ensures Valid() && (r == 0 || r == -1) && (old(IsTree()) ==> IsTree())
      ensures var x := Resolve(old(nodes), cwd, path);
              && (r == 0 <==> x > 0 && old(nodes)[x].kind != Dir && Children(old(nodes), x, MAX_NODES) == {})
              && nodes == if r == 0 then old(nodes)[x := NO_NODE] else old(nodes)
    {
      hide Resolve, Tree;
      var x := ResolvePath(path);
      if x <= 0 || nodes[x].kind == Dir {
        return -1;
      }
      var n := ChildCount(x);
      if n != 0 {
        return -1;
      }
      if IsTree() {
        Unlinked(nodes, cwd, path, x);
      }
      nodes := nodes[x := NO_NODE];
      return 0;
    }

    /** vfs_rmdir. */
    method Rmdir(path: string) returns (r: int)
      requires Valid()
      modifies this`nodes, this`cwd
      ensures Valid() && (r == 0 || r == -1) && (old(IsTree()) ==> IsTree())
      ensures var x := Resolve(old(nodes), old(cwd), path);
              && (r == 0 <==> x > 0 && old(nodes)[x].kind == Dir && Children(old(nodes), x, MAX_NODES) == {})
              && nodes == (if r == 0 then old(nodes)[x := NO_NODE] else old(nodes))
              && cwd == if r == 0 && old(cwd) == x then 0 else old(cwd)
    {
      hide Resolve, Tree;
      var x := ResolvePath(path);
      if x <= 0 || nodes[x].kind != Dir {
        return -1;
      }
      var n := ChildCount(x);
      if n != 0 {
        return -1;
      }
      if IsTree() {
        Unlinked(nodes, cwd, path, x);
      }
      if cwd == x {
        cwd := 0;
      }
      nodes := nodes[x := NO_NODE];
      return 0;
    }

    /** vfs_chdir. */
    method Chdir(path: string) returns (r: int)
      requires Valid()
      modifies this`cwd
      ensures Valid() && (r == 0 || r == -1) && (old(IsTree()) ==> IsTree())
      ensures var x := Resolve(nodes, old(cwd), path);
              && (r == 0 <==> x >= 0 && nodes[x].kind == Dir)
              && cwd == if r == 0 then x else old(cwd)
    {
      hide Resolve, Distinct, Grounded;
      var x := ResolvePath(path);
      if x < 0 || nodes[x].kind != Dir {
        return -1;
      }
      if IsTree() {
        ResolvedUsed(nodes, cwd, path);
      }
      cwd := x;
      return 0;
    }

    /** vfs_rename: no check that the target lies outside of what is moved. */
    method Rename(from: string, to: string) returns (r: int)
      requires Valid()
      modifies this`nodes
      ensures Valid() && (r == 0 || r == -1)
      ensures var x, s := Resolve(old(nodes), cwd, from), Above(old(nodes), cwd, to);
              && (r == 0 <==> x > 0 && s.Spot? && Child(old(nodes), s.parent, s.leaf) == -1)
              && nodes == (if r == 0 then Moved(old(nodes), x, s.parent, s.leaf) else old(nodes))
              && (r == 0 && old(IsTree()) ==>
                  (IsTree() <==> && !Ancestor(old(nodes), x, s.parent)
                                 && (Child(old(nodes), s.parent, Truncated(s.leaf)) == -1 ||
                                   Child(old(nodes), s.parent, Truncated(s.leaf)) == x)))
    {
      hide Resolve, Above, Tree, Child;
      var x := ResolvePath(from);
      if x <= 0 {
        return -1;
      }
      var s := ResolveParent(to);
      if s.Nowhere? {
        return -1;
      }
      var c := FindChild(s.parent, s.leaf);
      if c >= 0 {
        return -1;
      }
      if IsTree() {
        Renamed(nodes, cwd, from, to, x);
      }
      nodes := nodes[x := nodes[x].(parent := s.parent, name := Truncated(s.leaf))];
      return 0;
    }

    /** The first half of vfs_open: find the node, or create a file for it without looking for a sibling first. */
    method OpenNode(path: string, creat: bool) returns (x: int)
      requires Valid()
      modifies this`nodes, this`nextInode
      ensures Valid() && -1 <= x < MAX_NODES
      ensures var found, s := Resolve(old(nodes), cwd, path), Above(old(nodes), cwd, path);
              && (found != -1 || !creat || s.Nowhere? ==> x == found && nodes == old(nodes))
              && (found == -1 && creat && s.Spot? && x == -1 ==>
                nodes == old(nodes) && forall j :: 0 <= j < MAX_NODES ==> nodes[j].used)
              && (found == -1 && creat && s.Spot? && x != -1 ==>
                  && AddedAt(old(nodes), nodes, x, old(nextInode), File, s) && Lands(old(nodes), nodes, cwd, path, x)
                  && (old(IsTree()) ==> (IsTree() <==> Child(old(nodes), s.parent, Truncated(s.leaf)) == -1)))
      ensures nextInode == old(nextInode) + if nodes == old(nodes) then 0 else 1
    {
      hide Resolve, Above, Tree, Child;
      x := ResolvePath(path);
      if x < 0 && creat {
        var s := ResolveParent(path);
        if s.Nowhere? {
          return;
        }
        WalkersAgree(nodes, cwd, path);
        x := AllocNode(File, s.parent, s.leaf);
        if x != -1 {
          CreatedTree(old(nodes), nodes, cwd, path, x, old(nextInode), File);
        }
      }
    }

    /** The first free descriptor for a node. */
    method Grant(x: nat, flags: Flags) returns (fd: int)
      requires Valid() && x < MAX_NODES
      modifies this`files
      ensures Valid() && -1 <= fd < MAX_OPEN
      ensures fd == -1 <==> forall f :: 0 <= f < MAX_OPEN ==> old(files)[f].used
      ensures fd == -1 ==> files == old(files)
      ensures fd != -1 ==> !old(files)[fd].used && forall f :: 0 <= f < fd ==> old(files)[f].used
      ensures fd != -1 ==>
                files == old(files)[fd := OpenFile(true, x, if flags.append then nodes[x].size else 0, flags)]
    {
      fd := 0;
      while fd < MAX_OPEN
        invariant 0 <= fd <= MAX_OPEN && files == old(files)
        invariant forall f :: 0 <= f < fd ==> files[f].used
      {
        if !files[fd].used {
          files := files[fd := OpenFile(true, x, if flags.append then nodes[x].size else 0, flags)];
          return;
        }
        fd := fd + 1;
      }
      fd := -1;
    }

    /** vfs_open. */
    method Open(path: string, flags: Flags) returns (fd: int)
      requires Valid()
      modifies this`nodes, this`nextInode, this`files
      ensures Valid() && -1 <= fd < MAX_OPEN
      ensures var found, s := Resolve(old(nodes), cwd, path), Above(old(nodes), cwd, path);
              && (if found == -1 && flags.creat && s.Spot? && exists j :: 0 <= j < MAX_NODES && !old(nodes)[j].used
                  then
                    && nextInode == old(nextInode) + 1
                    && exists x ::
                      AddedAt(old(nodes), nodes, x, old(nextInode), File, s) && Lands(old(nodes), nodes, cwd, path, x)
                  else nextInode == old(nextInode) && nodes == Emptied(old(nodes), found, flags.trunc))
              && (old(IsTree()) ==> (IsTree() <==>
                nodes == old(nodes) || found != -1 || Child(old(nodes), s.parent, Truncated(s.leaf)) == -1))
      ensures fd == -1 <==>
                NotOpened(old(nodes), cwd, path, flags) || forall f :: 0 <= f < MAX_OPEN ==> old(files)[f].used
      ensures fd == -1 ==> files == old(files)
      ensures fd != -1 ==> !old(files)[fd].used && files == old(files)[fd := files[fd]] && files[fd].used
      ensures fd != -1 ==> Targets(old(nodes), nodes, cwd, path, files[fd], flags)
      ensures fd != -1 && flags.trunc && nodes[files[fd].node].kind == File ==> nodes[files[fd].node].size == 0
    {
      hide Resolve, Above, Child, Distinct, Grounded, Linked, Lands, AddedAt;
      fd := -1;
      var x := OpenNode(path, flags.creat);
      ghost var made := nodes;
      assert made == old(nodes) || Resolve(old(nodes), cwd, path) == -1;
      if x < 0 {
        return;
      }
      AddedKind(old(nodes), nodes, x, old(nextInode), Above(old(nodes), cwd, path));
      if nodes[x].kind == Dir && (flags.write || flags.creat || flags.trunc || flags.append) {
        return;
      }
      if flags.trunc && nodes[x].kind == File {
        ResizedTree(nodes, cwd, x);
        nodes := nodes[x := nodes[x].(size := 0)];
      }
      assert Resolve(old(nodes), cwd, path) == -1 ==> nodes == made;
      fd := Grant(x, flags);
    }

    /** build_path: the names from the node up to the root, as long as they fit 126 characters. */
    method BuildPath(node: nat, len: nat) returns (ok: bool, path: string)
      requires Valid() && node < MAX_NODES
      ensures node == 0 ==> (ok <==> len >= 2) && (ok ==> path == "/")
      ensures node != 0 && ok ==>
                |path| < len && |path| <= MAX_PATH - 2 && exists n: nat :: Printed(nodes, node, n, path)
      ensures node != 0 && !ok ==> forall n: nat, p :: Printed(nodes, node, n, p) ==> |p| >= len || |p| > MAX_PATH - 2
      ensures ok && IsTree() && nodes[node].used ==> forall d: nat :: d < MAX_NODES ==> Resolve(nodes, d, path) == node
    {
      hide Tree, Resolve;
      ok, path := false, "";
      if node == 0 {
        if len >= 2 {
          ok, path := true, "/";
          RootResolves(nodes);
        }
        return;
      }
      var tmp := "";
      var cur := node;
      ghost var n: nat := 0;
      while cur != 0
        invariant Shape(nodes) && cur < MAX_NODES && |tmp| <= MAX_PATH - 2
        invariant Up(nodes, node, n) == cur && tmp == Names(nodes, node, n)
        invariant forall m: nat :: m < n ==> Up(nodes, node, m) != 0
        decreases MAX_PATH - |tmp|
      {
        NamesStep(nodes, node, n);
        if |nodes[cur].name| + |tmp| + 2 >= MAX_PATH {
          TooLong(nodes, node, n);
          return;
        }
        tmp := "/" + nodes[cur].name + tmp;
        cur := nodes[cur].parent;
        n := n + 1;
      }
      assert Printed(nodes, node, n, tmp);
      PrintedOnce(nodes, node, n, tmp);
      if |tmp| + 1 > len {
        return;
      }
      ok, path := true, tmp;
      if IsTree() && nodes[node].used {
        RoundTrip(nodes, cwd, node, n, path);
      }
    }
  }

  ghost function Children(nodes: seq<Node>, parent: int, n: nat): set<int>
    requires n <= |nodes|
  {
    set i | 0 <= i < n && i != parent && nodes[i].used && nodes[i].parent == parent
  }

  lemma WalkStep(nodes: seq<Node>, node: int, s: string, rest: seq<string>)
    requires Shape(nodes) && 0 <= node < |nodes|
    ensures Walk(nodes, node, Piece(s) + rest) ==
            if s == "" || s == "." then Walk(nodes, node, rest)
            else if s == ".." then Walk(nodes, ParentOf(nodes, node), rest)
            else Walk(nodes, Child(nodes, node, s), rest)
  {
    var all := Piece(s) + rest;
    if s == "" {
      assert all == rest;
    } else {
      assert all[0] == s && all[1..] == rest;
    }
  }

  lemma WalkEnd(nodes: seq<Node>, node: int, segs: seq<string>)
    requires Shape(nodes) && -1 <= node < |nodes| && (node == -1 || segs == [])
    ensures Walk(nodes, node, segs) == node
  {
  }

  /** One segment of resolve_parent. */
  lemma BehindStep(nodes: seq<Node>, node: nat, last: string, s: string, rest: seq<string>, closed: bool)
    requires Shape(nodes) && node < |nodes|
    ensures Behind(nodes, node, last, Piece(s) + rest, closed) ==
            if s == "" || (s == "." && (rest != [] || closed)) then Behind(nodes, node, last, rest, closed)
            else if Enter(nodes, node, last) == -1 then Nowhere
            else Behind(nodes, Enter(nodes, node, last), s, rest, closed)
  {
    var all := Piece(s) + rest;
    if s == "" {
      assert all == rest;
    } else {
      assert all[0] == s && all[1..] == rest;
    }
  }

  lemma BehindEnd(nodes: seq<Node>, node: nat, last: string, closed: bool)
    requires Shape(nodes) && node < |nodes|
    ensures Behind(nodes, node, last, [], closed) == if last == "" || Dots(last) then Nowhere else Spot(node, last)
  {
  }

  lemma NoSegments()
    ensures Segments("") == []
  {
  }

  /** Before the end of an unclosed path there is another segment. */
  lemma MoreSegments(path: string, at: nat, start: nat, next: nat)
    requires at < |path| && start <= next <= |path|
    requires Segments(path[at..]) == Piece(path[start..next]) + Segments(path[next..])
    requires next < |path| ==> next > start
    requires next == |path| ==> (next == start <==> path[|path| - 1] == '/')
    ensures Segments(path[at..]) != [] || path[|path| - 1] == '/'
  {
  }

  /** In a tree, a path with a short leaf leads to what was created for it. */
  ghost predicate Lands(nodes: seq<Node>, nodes': seq<Node>, cwd: nat, path: string, x: int)
    requires Shape(nodes) && Shape(nodes') && cwd < MAX_NODES
  {
    var s := Above(nodes, cwd, path);
    Tree(nodes, cwd) && s.Spot? && |s.leaf| <= MAX_NAME ==> Resolve(nodes', cwd, path) == x
  }

  lemma CreatedTree(nodes: seq<Node>, nodes': seq<Node>, cwd: nat, path: string, x: int, inode: nat, kind: Kind)
    requires Shape(nodes) && Shape(nodes') && cwd < MAX_NODES && Above(nodes, cwd, path).Spot?
    requires Child(nodes, Above(nodes, cwd, path).parent, Above(nodes, cwd, path).leaf) == -1
    requires AddedAt(nodes, nodes', x, inode, kind, Above(nodes, cwd, path))
    ensures Lands(nodes, nodes', cwd, path, x)
    ensures var s := Above(nodes, cwd, path);
            Tree(nodes, cwd) ==> (Tree(nodes', cwd) <==> Child(nodes, s.parent, Truncated(s.leaf)) == -1)
  {
    hide Distinct, Grounded, Above, Resolve, Child;
    if Tree(nodes, cwd) {
      var s := Above(nodes, cwd, path);
      AboveIsDir(nodes, cwd, path);
      Added(nodes, cwd, x, inode, kind, s.parent, s.leaf);
      if |s.leaf| <= MAX_NAME {
        FoundAgain(nodes, nodes', cwd, path, x, inode, kind);
      }
    }
  }

  /** In a tree the walker only meets used nodes. */
  lemma {:induction false} WalkUsed(nodes: seq<Node>, node: int, segs: seq<string>)
    requires Linked(nodes) && -1 <= node < |nodes| && (node != -1 ==> nodes[node].used)
    ensures var r := Walk(nodes, node, segs); r != -1 ==> nodes[r].used
    decreases |segs|
  {
    if node != -1 && segs != [] {
      if segs[0] == "." {
        WalkUsed(nodes, node, segs[1..]);
      } else if segs[0] == ".." {
        WalkUsed(nodes, ParentOf(nodes, node), segs[1..]);
      } else {
        WalkUsed(nodes, Child(nodes, node, segs[0]), segs[1..]);
      }
    }
  }

  lemma ResolvedUsed(nodes: seq<Node>, cwd: nat, path: string)
    requires Tree(nodes, cwd)
    ensures var r := Resolve(nodes, cwd, path); r != -1 ==> nodes[r].used
  {
    if path != "" {
      WalkUsed(nodes, if path[0] == '/' then 0 else cwd, Segments(path));
    }
  }

  lemma Unlinked(nodes: seq<Node>, cwd: nat, path: string, x: int)
    requires Tree(nodes, cwd) && 0 < x == Resolve(nodes, cwd, path) && Children(nodes, x, MAX_NODES) == {}
    ensures Tree(nodes[x := NO_NODE], if cwd == x then 0 else cwd)
    ensures nodes[x].kind != Dir ==> cwd != x
  {
    hide Distinct, Grounded, Resolve;
    ResolvedUsed(nodes, cwd, path);
    forall j | 0 <= j < |nodes| && j != x && nodes[j].used
      ensures nodes[j].parent != x
    {
      assert j !in Children(nodes, x, MAX_NODES);
    }
    Removed(nodes, cwd, x);
  }

  lemma Renamed(nodes: seq<Node>, cwd: nat, from: string, to: string, x: int)
    requires Tree(nodes, cwd) && 0 < x == Resolve(nodes, cwd, from) && Above(nodes, cwd, to).Spot?
    ensures var s := Above(nodes, cwd, to);
            Tree(Moved(nodes, x, s.parent, s.leaf), cwd) <==>
            && !Ancestor(nodes, x, s.parent)
            && (Child(nodes, s.parent, Truncated(s.leaf)) == -1 || Child(nodes, s.parent, Truncated(s.leaf)) == x)
  {
    hide Distinct, Grounded, Resolve, Above, Child, Ancestor;
    var s := Above(nodes, cwd, to);
    ResolvedUsed(nodes, cwd, from);
    AboveIsDir(nodes, cwd, to);
    MovedTree(nodes, cwd, x, s.parent, s.leaf);
  }

  /** A truncating open of file x leaves it empty; any other open changes nothing. */
  ghost function Emptied(nodes: seq<Node>, x: int, trunc: bool): seq<Node> {
    if trunc && 0 <= x < |nodes| && nodes[x].kind == File then nodes[x := nodes[x].(size := 0)] else nodes
  }

  /** No node can be had for the path, or it is a directory that may not be opened that way. */
  ghost predicate NotOpened(nodes: seq<Node>, cwd: nat, path: string, flags: Flags)
    requires Shape(nodes) && cwd < MAX_NODES
  {
    var found := Resolve(nodes, cwd, path);
    if found == -1
    then !flags.creat || Above(nodes, cwd, path).Nowhere? || forall j :: 0 <= j < MAX_NODES ==> nodes[j].used
    else nodes[found].kind == Dir && (flags.write || flags.creat || flags.trunc || flags.append)
  }

  /** What a new descriptor stands for. */
  ghost predicate Targets(nodes: seq<Node>, nodes': seq<Node>, cwd: nat, path: string, f: OpenFile, flags: Flags)
    requires Shape(nodes) && cwd < MAX_NODES && |nodes'| == |nodes|
  {
    var found := Resolve(nodes, cwd, path);
    && f.node < |nodes| && f.flags == flags
    && (if found != -1 then f.node == found
        else AddedAt(nodes, nodes', f.node, nodes'[f.node].inode, File, Above(nodes, cwd, path)))
    && f.offset == (if flags.append then nodes'[f.node].size else 0)
    && (nodes'[f.node].kind == Dir ==> !flags.write && !flags.creat && !flags.trunc && !flags.append)
  }

  lemma AddedKind(nodes: seq<Node>, nodes': seq<Node>, x: int, inode: nat, s: Spot)
    requires 0 <= x < |nodes|
    ensures AddedAt(nodes, nodes', x, inode, File, s) ==>
            && |nodes'| == |nodes| && !nodes[x].used && nodes'[x].kind == File && nodes'[x].size == 0 &&
              nodes'[x].inode == inode
            && nodes'[x := nodes'[x].(size := 0)] == nodes' && nodes' != nodes
  {
  }

  lemma ResizedTree(nodes: seq<Node>, cwd: nat, x: int)
    requires Shape(nodes) && 0 <= x < |nodes| && nodes[x].kind == File
    ensures Tree(nodes[x := nodes[x].(size := 0)], cwd) <==> Tree(nodes, cwd)
  {
    var nodes' := nodes[x := nodes[x].(size := 0)];
    if Tree(nodes, cwd) {
      SizeIrrelevant(nodes, nodes', cwd, x);
    }
    if Tree(nodes', cwd) {
      SizeIrrelevant(nodes', nodes, cwd, x);
    }
  }

  lemma SizeIrrelevant(nodes: seq<Node>, nodes': seq<Node>, cwd: nat, x: int)
    requires Tree(nodes, cwd) && Shape(nodes') && 0 <= x < |nodes| && nodes[x].kind == File
    requires nodes' == nodes[x := nodes'[x]] && nodes'[x].(size := 0) == nodes[x].(size := 0)
    ensures Tree(nodes', cwd)
  {
    assert nodes'[x].used == nodes[x].used && nodes'[x].kind == nodes[x].kind && nodes'[x].parent == nodes[x].parent &&
           nodes'[x].name == nodes[x].name by {
      assert nodes'[x].(size := 0) == nodes[x].(size := 0);
    }
    forall i | 0 <= i < |nodes| && nodes'[i].used
      ensures Reaches(nodes', i)
    {
      var n: nat :| Up(nodes, i, n) == 0;
      SameUp(nodes, nodes', i, n);
    }
  }

  lemma {:induction false} SameUp(nodes: seq<Node>, nodes': seq<Node>, i: int, n: nat)
    requires Shape(nodes) && Shape(nodes') && 0 <= i < |nodes| && forall j :: 0 <= j < |nodes| ==>
               nodes'[j].parent == nodes[j].parent
    ensures Up(nodes', i, n) == Up(nodes, i, n)
    decreases n
  {
    if n > 0 {
      SameUp(nodes, nodes', nodes[i].parent, n - 1);
    }
  }

  // ----- printing paths

  /** The last n names on the way to node i, each after a slash. */
  function Names(nodes: seq<Node>, i: int, n: nat): string
    requires Shape(nodes) && 0 <= i < |nodes|
  {
    if n == 0 then "" else "/" + nodes[Up(nodes, i, n - 1)].name + Names(nodes, i, n - 1)
  }

  /** The root is n steps away, no fewer, and p prints the way. */
  ghost predicate Printed(nodes: seq<Node>, i: int, n: nat, p: string)
    requires Shape(nodes) && 0 <= i < |nodes|
  {
    Up(nodes, i, n) == 0 && (forall m: nat :: m < n ==> Up(nodes, i, m) != 0) && p == Names(nodes, i, n)
  }

  lemma NamesStep(nodes: seq<Node>, i: int, n: nat)
    requires Shape(nodes) && 0 <= i < |nodes|
    ensures Names(nodes, i, n + 1) == "/" + nodes[Up(nodes, i, n)].name + Names(nodes, i, n)
    ensures Up(nodes, i, n + 1) == nodes[Up(nodes, i, n)].parent < |nodes|
    ensures Names(nodes, i, 0) == ""
  {
    UpAdd(nodes, i, n, 1);
  }

  lemma {:induction false} NamesGrow(nodes: seq<Node>, i: int, m: nat, n: nat)
    requires Shape(nodes) && 0 <= i < |nodes| && m <= n
    ensures |Names(nodes, i, m)| <= |Names(nodes, i, n)|
    decreases n
  {
    if m < n {
      NamesGrow(nodes, i, m, n - 1);
    }
  }

  lemma TooLong(nodes: seq<Node>, i: int, n: nat)
    requires Shape(nodes) && 0 <= i < |nodes| && |Names(nodes, i, n + 1)| > MAX_PATH - 2
    requires forall m: nat :: m <= n ==> Up(nodes, i, m) != 0
    ensures forall k: nat, p :: Printed(nodes, i, k, p) ==> |p| > MAX_PATH - 2
  {
    forall k: nat, p | Printed(nodes, i, k, p)
      ensures |p| > MAX_PATH - 2
    {
      assert k > n;
      NamesGrow(nodes, i, n + 1, k);
    }
  }

  lemma PrintedOnce(nodes: seq<Node>, i: int, n: nat, p: string)
    requires Shape(nodes) && 0 <= i < |nodes| && Printed(nodes, i, n, p)
    ensures forall k: nat, q :: Printed(nodes, i, k, q) ==> k == n && q == p
  {
    forall k: nat, q | Printed(nodes, i, k, q)
      ensures k == n && q == p
    {
      if k < n {
      } else if n < k {
      }
    }
  }

  lemma RootResolves(nodes: seq<Node>)
    requires Shape(nodes)
    ensures forall d: nat :: d < MAX_NODES ==> Resolve(nodes, d, "/") == 0
  {
    Joined("/", "", "");
    assert "/" + "" + "" == "/";
    NoSegments();
  }

  /** What build_path prints, resolve_path finds, from any working directory. */
  lemma RoundTrip(nodes: seq<Node>, cwd: nat, i: int, n: nat, p: string)
    requires Tree(nodes, cwd) && 0 < i < |nodes| && nodes[i].used && Printed(nodes, i, n, p)
    ensures forall d: nat :: d < MAX_NODES ==> Resolve(nodes, d, p) == i
  {
    NamesWalk(nodes, i, n);
    assert p[0] == '/';
  }

  lemma {:induction false} NamesWalk(nodes: seq<Node>, i: int, n: nat)
    requires Linked(nodes) && Distinct(nodes) && 0 < i < |nodes| && nodes[i].used
    requires forall m: nat :: m < n ==> Up(nodes, i, m) != 0
    ensures nodes[Up(nodes, i, n)].used && Walk(nodes, Up(nodes, i, n), Segments(Names(nodes, i, n))) == i
    ensures Names(nodes, i, n) == "" || Names(nodes, i, n)[0] == '/'
  {
    hide Walk, Segments, Child, Distinct, Names, IsSegment;
    NamesStep(nodes, i, n);
    if n == 0 {
      NoSegments();
      WalkEnd(nodes, i, []);
    } else {
      NamesWalk(nodes, i, n - 1);
      NamesStep(nodes, i, n - 1);
      var c := Up(nodes, i, n - 1);
      var rest := Names(nodes, i, n - 1);
      assert c != 0;
      Prefixed(nodes[c].name, rest);
      ChildIs(nodes, c);
      WalkStep(nodes, nodes[c].parent, nodes[c].name, Segments(rest));
      SegmentPiece(nodes[c].name);
    }
  }

  lemma SegmentPiece(s: string)
    requires NameOk(s)
    ensures Piece(s) == [s] && s != "" && !Dots(s)
  {
  }
}
