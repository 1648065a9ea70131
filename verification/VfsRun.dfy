/** Whole runs of the file tree, and the two inputs that break it. */
module VfsRun {
  import opened VfsPath
  import opened VfsTree
  import opened Vfs

  datatype Op =
    | Mkdir(path: string)
    | Open(path: string, flags: Flags)
    | Unlink(path: string)
    | Rmdir(path: string)
    | Chdir(path: string)
    | Rename(from: string, to: string)

  ghost predicate ShortLeaf(nodes: seq<Node>, cwd: nat, path: string)
    requires Shape(nodes) && cwd < MAX_NODES
  {
    var s := Above(nodes, cwd, path);
    s.Spot? ==> |s.leaf| <= MAX_NAME
  }

  /** What the caller has to see to: leaf names of at most 31 characters, and no move of a directory beneath itself. */
  ghost predicate Careful(nodes: seq<Node>, cwd: nat, op: Op)
    requires Shape(nodes) && cwd < MAX_NODES
  {
    match op
    case Mkdir(path) => ShortLeaf(nodes, cwd, path)
    case Open(path, _) => ShortLeaf(nodes, cwd, path)
    case Rename(from, to) =>
      && ShortLeaf(nodes, cwd, to)
      && var x, s := Resolve(nodes, cwd, from), Above(nodes, cwd, to);
         x > 0 && s.Spot? ==> !Ancestor(nodes, x, s.parent)
    case _ => true
  }

  ghost predicate HasSlot(nodes: seq<Node>) { exists x :: 0 <= x < |nodes| && !nodes[x].used }

  /** The path names something that is not there yet, in a directory that is, and a slot is free. */
  ghost predicate Creatable(nodes: seq<Node>, cwd: nat, path: string)
    requires Shape(nodes) && cwd < MAX_NODES
  {
    var s := Above(nodes, cwd, path);
    s.Spot? && Child(nodes, s.parent, s.leaf) == -1 && HasSlot(nodes)
  }

  /** A free slot received the node that the path asks for. */
  ghost predicate Creates(nodes: seq<Node>, cwd: nat, path: string, kind: Kind, nodes': seq<Node>)
    requires Shape(nodes) && cwd < MAX_NODES
  {
    exists x, inode :: AddedAt(nodes, nodes', x, inode, kind, Above(nodes, cwd, path))
  }

  /** The path leads to a node that is not the root and has no children. */
  ghost predicate Removable(nodes: seq<Node>, cwd: nat, path: string, dir: bool)
    requires Shape(nodes) && cwd < MAX_NODES
  {
    var x := Resolve(nodes, cwd, path);
    x > 0 && (nodes[x].kind == Dir <==> dir) && Children(nodes, x, MAX_NODES) == {}
  }

  /** Exactly what one operation makes of table and working directory; failures change nothing. */
  ghost predicate Next(nodes: seq<Node>, cwd: nat, op: Op, nodes': seq<Node>, cwd': nat)
    requires Shape(nodes) && cwd < MAX_NODES
  {
    match op
    case Mkdir(path) =>
      cwd' == cwd && if Creatable(nodes, cwd, path) then Creates(nodes, cwd, path, Dir, nodes') else nodes' == nodes
    case Open(path, flags) =>
      && cwd' == cwd
      && if flags.creat && Creatable(nodes, cwd, path) then Creates(nodes, cwd, path, File, nodes')
         else nodes' == Emptied(nodes, Resolve(nodes, cwd, path), flags.trunc)
    case Unlink(path) =>
      && cwd' == cwd
      && nodes' == if Removable(nodes, cwd, path, false) then nodes[Resolve(nodes, cwd, path) := NO_NODE] else nodes
    case Rmdir(path) =>
      if Removable(nodes, cwd, path, true) then
        && nodes' == nodes[Resolve(nodes, cwd, path) := NO_NODE]
        && cwd' == if cwd == Resolve(nodes, cwd, path) then 0 else cwd
      else nodes' == nodes && cwd' == cwd
    case Chdir(path) =>
      var x := Resolve(nodes, cwd, path);
      nodes' == nodes && cwd' == if x >= 0 && nodes[x].kind == Dir then x else cwd
    case Rename(from, to) =>
      var x, s := Resolve(nodes, cwd, from), Above(nodes, cwd, to);
      && cwd' == cwd
      && nodes' == if x > 0 && s.Spot? && Child(nodes, s.parent, s.leaf) == -1
                   then Moved(nodes, x, s.parent, s.leaf) else nodes
  }

  /** A careful operation keeps the tree. */
  lemma NextTree(nodes: seq<Node>, cwd: nat, op: Op, nodes': seq<Node>, cwd': nat)
    requires Tree(nodes, cwd) && Careful(nodes, cwd, op) && Next(nodes, cwd, op, nodes', cwd') && Shape(nodes')
    ensures Tree(nodes', cwd')
  {
    hide Linked, Distinct, Grounded, Above, Resolve, Child, Ancestor, AddedAt, Children, Lands, Moved;
    LinkedShape(nodes, cwd);
    match op {
      case Mkdir(path) =>
        if nodes' != nodes {
          CreatesTree(nodes, cwd, path, Dir, nodes');
        }
      case Open(path, flags) =>
        if flags.creat && Creatable(nodes, cwd, path) {
          CreatesTree(nodes, cwd, path, File, nodes');
        } else if nodes' != nodes {
          ResizedTree(nodes, cwd, Resolve(nodes, cwd, path));
        }
      case Unlink(path) =>
        if nodes' != nodes {
          Unlinked(nodes, cwd, path, Resolve(nodes, cwd, path));
        }
      case Rmdir(path) =>
        if nodes' != nodes {
          Unlinked(nodes, cwd, path, Resolve(nodes, cwd, path));
        }
      case Chdir(path) =>
        ResolvedUsed(nodes, cwd, path);
      case Rename(from, to) =>
        if nodes' != nodes {
          Renamed(nodes, cwd, from, to, Resolve(nodes, cwd, from));
        }
    }
  }

  lemma LinkedShape(nodes: seq<Node>, cwd: nat)
    requires Tree(nodes, cwd)
    ensures Shape(nodes) && cwd < MAX_NODES
  {
  }

  lemma CreatesTree(nodes: seq<Node>, cwd: nat, path: string, kind: Kind, nodes': seq<Node>)
    requires Tree(nodes, cwd) && ShortLeaf(nodes, cwd, path) && Shape(nodes')
    requires Creatable(nodes, cwd, path) && Creates(nodes, cwd, path, kind, nodes')
    ensures Tree(nodes', cwd)
  {
    hide Linked, Distinct, Grounded, Above, Child, AddedAt, Lands;
    LinkedShape(nodes, cwd);
    var x, inode :| AddedAt(nodes, nodes', x, inode, kind, Above(nodes, cwd, path));
    CreatedTree(nodes, nodes', cwd, path, x, inode, kind);
  }

  method Step(fs: FileSystem, op: Op)
    requires fs.Valid()
    modifies fs
    ensures fs.Valid() && Next(old(fs.nodes), old(fs.cwd), op, fs.nodes, fs.cwd)
  {
    hide Tree, Above, Resolve, Child, Ancestor, AddedAt, Lands, Moved, Targets, Children;
    match op {
      case Mkdir(path) =>
        var r := fs.Mkdir(path);
      case Open(path, flags) =>
        if Above(fs.nodes, fs.cwd, path).Spot? {
          WalkersAgree(fs.nodes, fs.cwd, path);
        }
        var fd := fs.Open(path, flags);
      case Unlink(path) =>
        var r := fs.Unlink(path);
      case Rmdir(path) =>
        var r := fs.Rmdir(path);
      case Chdir(path) =>
        var r := fs.Chdir(path);
      case Rename(from, to) =>
        var r := fs.Rename(from, to);
    }
  }

  datatype State = State(nodes: seq<Node>, cwd: nat)

  /** The states of a run, each one operation after the other. */
  ghost predicate Trace(states: seq<State>, ops: seq<Op>) {
    && |states| == |ops| + 1
    && (forall i :: 0 <= i < |states| ==> Shape(states[i].nodes) && states[i].cwd < MAX_NODES)
    && forall i :: 0 <= i < |ops| ==>
      Next(states[i].nodes, states[i].cwd, ops[i], states[i + 1].nodes, states[i + 1].cwd)
  }

  /** Every run of careful operations stays in trees. */
  lemma {:induction false} TraceTree(states: seq<State>, ops: seq<Op>, n: nat)
    requires Trace(states, ops) && Tree(states[0].nodes, states[0].cwd) && n <= |ops|
    requires forall i :: 0 <= i < n ==> Careful(states[i].nodes, states[i].cwd, ops[i])
    ensures Tree(states[n].nodes, states[n].cwd)
  {
    hide Tree, Careful, Next;
    if n > 0 {
      TraceTree(states, ops, n - 1);
      NextTree(states[n - 1].nodes, states[n - 1].cwd, ops[n - 1], states[n].nodes, states[n].cwd);
    }
  }

  /** Any sequence of operations, with the states it went through. */
  method Run(fs: FileSystem, ops: seq<Op>) returns (ghost states: seq<State>)
    requires fs.Valid()
    modifies fs
    ensures fs.Valid() && Trace(states, ops)
    ensures states[0] == State(old(fs.nodes), old(fs.cwd)) && states[|ops|] == State(fs.nodes, fs.cwd)
  {
    hide Next, Tree;
    states := [State(fs.nodes, fs.cwd)];
    var i := 0;
    while i < |ops|
      invariant 0 <= i <= |ops| && fs.Valid() && |states| == i + 1
      invariant states[0] == State(old(fs.nodes), old(fs.cwd)) && states[i] == State(fs.nodes, fs.cwd)
      invariant forall j :: 0 <= j < |states| ==> Shape(states[j].nodes) && states[j].cwd < MAX_NODES
      invariant forall j :: 0 <= j < i ==>
                  Next(states[j].nodes, states[j].cwd, ops[j], states[j + 1].nodes, states[j + 1].cwd)
    {
      Step(fs, ops[i]);
      states := states + [State(fs.nodes, fs.cwd)];
      i := i + 1;
    }
  }

  // ----- what goes wrong otherwise

  function Letters(n: nat): (s: string)
    ensures |s| == n && '/' !in s && forall i :: 0 <= i < n ==> s[i] == 'a'
  {
    seq(n, _ => 'a')
  }

  function Single(kind: Kind, name: string): seq<Node> {
    [Node(true, 1, Dir, 0, "", 0), Node(true, 2, kind, 0, name, 0)] + seq(MAX_NODES - 2, _ => NO_NODE)
  }

  lemma SingleIsTree(kind: Kind, name: string)
    requires NameOk(name)
    ensures Tree(Single(kind, name), 0)
  {
    var nodes := Single(kind, name);
    assert Up(nodes, 0, 0) == 0;
    assert Up(nodes, 1, 1) == 0;
  }

  lemma Relative(nodes: seq<Node>, leaf: string)
    requires Shape(nodes) && IsSegment(leaf) && !Dots(leaf)
    ensures Above(nodes, 0, leaf) == Spot(0, leaf)
  {
    hide Segments, Behind, Child;
    Joined("", leaf, "");
    NoSegments();
    assert "" + leaf + "" == leaf;
    assert Piece(leaf) + [] == [leaf];
    BehindStep(nodes, 0, "", leaf, [], false);
    BehindEnd(nodes, 0, leaf, false);
    assert leaf[|leaf| - 1] in leaf;
  }

  lemma NoOtherChild(kind: Kind, name: string, parent: nat, leaf: string)
    requires NameOk(name) && leaf != "" && (leaf != name || parent != 0) && parent < MAX_NODES
    ensures Child(Single(kind, name), parent, leaf) == -1
  {
  }

  lemma SingleChild(kind: Kind, name: string)
    requires NameOk(name)
    ensures Child(Single(kind, name), 0, name) == 1
  {
    var nodes := Single(kind, name);
    assert IsChild(nodes, 1, 0, name);
    assert !IsChild(nodes, 0, 0, name);
  }

  /** Next to a file of 31 letters, a directory of 32 letters gets the same name. */
  lemma LongNamesCollide()
    ensures var nodes, leaf := Single(File, Letters(31)), Letters(32);
            && Tree(nodes, 0) && Above(nodes, 0, leaf) == Spot(0, leaf) && Child(nodes, 0, leaf) == -1
            && AddedAt(nodes, nodes[2 := NewNode(3, Dir, 0, leaf)], 2, 3, Dir, Spot(0, leaf))
            && !Tree(nodes[2 := NewNode(3, Dir, 0, leaf)], 0)
  {
    hide Tree, Above, Child, Single;
    var nodes, leaf := Single(File, Letters(31)), Letters(32);
    SingleShape(File, Letters(31));
    SingleIsTree(File, Letters(31));
    Relative(nodes, leaf);
    NoOtherChild(File, Letters(31), 0, leaf);
    assert Truncated(leaf) == Letters(31);
    SingleChild(File, Letters(31));
    Added(nodes, 0, 2, 3, Dir, 0, leaf);
  }

  lemma SingleShape(kind: Kind, name: string)
    ensures var nodes := Single(kind, name);
            Shape(nodes) && nodes[0].used && nodes[1].used && nodes[1].kind == kind && !nodes[2].used &&
              IsDir(nodes, 0) && nodes[1].parent == 0
  {
  }

  /** Moving directory "a" to "a/b" cuts it off from the root. */
  lemma SelfNestingCutsOff()
    ensures var nodes := Single(Dir, "a");
            && Tree(nodes, 0) && Resolve(nodes, 0, "a") == 1 && Above(nodes, 0, "a/b") == Spot(1, "b")
            && Child(nodes, 1, "b") == -1 && !Tree(Moved(nodes, 1, 1, "b"), 0)
  {
    hide Tree, Child, Single, Behind, Segments, Resolve;
    var nodes := Single(Dir, "a");
    SingleShape(Dir, "a");
    SingleIsTree(Dir, "a");
    SingleChild(Dir, "a");
    NoOtherChild(Dir, "a", 1, "b");
    Relative(nodes, "a");
    WalkersAgree(nodes, 0, "a");
    TwoSegments();
    BehindStep(nodes, 0, "", "a", ["b"], false);
    BehindStep(nodes, 0, "a", "b", [], false);
    BehindEnd(nodes, 1, "b", false);
    assert Up(nodes, 1, 0) == 1;
    MovedTree(nodes, 0, 1, 1, "b");
  }

  lemma TwoSegments()
    ensures Segments("a/b") == Piece("a") + ["b"] && ["b"] == Piece("b") + []
  {
    hide Segments;
    Joined("", "a", "/b");
    Joined("/", "b", "");
    NoSegments();
    assert "a/b" == "" + "a" + "/b" && "/b" == "/" + "b" + "";
  }
}
