/** Relative paths: what they mean from a directory is what they mean behind its printed path. */
module VfsRelative {
  import opened VfsPath
  import opened VfsTree
  import opened Vfs

  // ----- joining paths

  /** A path is slashes, its first piece, and the rest. */
  lemma Split(p: string) returns (a: string, w: string, r: string)
    ensures p == a + w + r && (forall i :: 0 <= i < |a| ==> a[i] == '/') && '/' !in w
    ensures r != "" ==> w != "" && r[0] == '/'
  {
    hide Slashes, Word;
    var n := Slashes(p);
    var q := p[n..];
    Leading(p);
    a, w, r := p[..n], q[..Word(q)], q[Word(q)..];
    assert q == w + r && p == a + q;
  }

  lemma {:induction false} Leading(p: string)
    ensures forall i :: 0 <= i < Slashes(p) ==> p[i] == '/'
  {
    if p != "" && p[0] == '/' {
      Leading(p[1..]);
      forall i | 0 <= i < Slashes(p)
        ensures p[i] == '/'
      {
        assert i > 0 ==> p[i] == p[1..][i - 1];
      }
    }
  }

  lemma LeadingSlashes(s: string, p: string)
    requires forall i :: 0 <= i < |s| ==> s[i] == '/'
    ensures Segments(s + p) == Segments(p)
  {
    hide Segments;
    var a, w, r := Split(p);
    Joined(a, w, r);
    Joined(s + a, w, r);
    assert s + p == (s + a) + w + r;
  }

  /** The pieces of a path and of what follows it behind a slash. */
  lemma {:induction false} SegmentsJoin(p: string, q: string)
    requires q == "" || q[0] == '/'
    ensures Segments(p + q) == Segments(p) + Segments(q)
    decreases |p|
  {
    hide Segments;
    var a, w, r := Split(p);
    Joined(a, w, r);
    if w == "" {
      assert p == a && r == "";
      NoSegments();
      LeadingSlashes(p, q);
    } else {
      assert p + q == a + w + (r + q);
      Joined(a, w, r + q);
      SegmentsJoin(r, q);
    }
  }

  // ----- resolve_path

  lemma {:induction false} WalkJoin(nodes: seq<Node>, node: int, a: seq<string>, b: seq<string>)
    requires Shape(nodes) && -1 <= node < |nodes|
    ensures Walk(nodes, node, a + b) == Walk(nodes, Walk(nodes, node, a), b)
    decreases |a|
  {
    hide Child, Shape;
    if a == [] {
      assert a + b == b;
    } else if node != -1 {
      assert (a + b)[1..] == a[1..] + b && (a + b)[0] == a[0];
      WalkJoin(nodes, if a[0] == "." then node else if a[0] == ".." then ParentOf(nodes, node)
                      else Child(nodes, node, a[0]), a[1..], b);
    }
  }

  /** The printed path of a node leads to it from the root; that of the root is empty. */
  lemma PrintedWalk(nodes: seq<Node>, cwd: nat, d: nat, n: nat, p: string)
    requires Tree(nodes, cwd) && d < |nodes| && nodes[d].used && Printed(nodes, d, n, p)
    ensures Walk(nodes, 0, Segments(p)) == d && (p == "" || p[0] == '/') && (p == "" <==> d == 0)
  {
    hide Distinct, Grounded, Segments;
    if d == 0 {
      assert Up(nodes, d, 0) == 0;
      NoSegments();
    } else {
      NamesWalk(nodes, d, n);
    }
  }

  /** A relative path means from directory d what it means behind the printed path of d, wherever one stands. */
  lemma RelativeResolve(nodes: seq<Node>, cwd: nat, d: nat, n: nat, p: string, q: string, e: nat)
    requires Tree(nodes, cwd) && d < |nodes| && nodes[d].used && Printed(nodes, d, n, p)
    requires q != "" && q[0] != '/' && e < |nodes|
    ensures Resolve(nodes, d, q) == Resolve(nodes, e, p + "/" + q)
  {
    hide Distinct, Grounded, Walk, Segments, Printed;
    PrintedWalk(nodes, cwd, d, n, p);
    var path := p + "/" + q;
    assert path == p + ("/" + q) && path[0] == '/';
    SegmentsJoin(p, "/" + q);
    LeadingSlashes("/", q);
    WalkJoin(nodes, 0, Segments(p), Segments(q));
  }

  /** ".." behind a printed path is the parent, "." the node itself; the root is its own parent. */
  lemma DotsResolve(nodes: seq<Node>, cwd: nat, d: nat, n: nat, p: string, e: nat)
    requires Tree(nodes, cwd) && d < |nodes| && nodes[d].used && Printed(nodes, d, n, p) && e < |nodes|
    ensures Resolve(nodes, e, p + "/..") == nodes[d].parent && Resolve(nodes, d, "..") == nodes[d].parent
    ensures Resolve(nodes, e, p + "/.") == d && Resolve(nodes, d, ".") == d
  {
    hide Printed, Segments, Distinct, Grounded;
    OneSegment("..");
    OneSegment(".");
    assert [".."][1..] == [] && ["."][1..] == [];
    assert Walk(nodes, d, [".."]) == Walk(nodes, ParentOf(nodes, d), []);
    assert Walk(nodes, d, ["."]) == Walk(nodes, d, []);
    RelativeResolve(nodes, cwd, d, n, p, "..", e);
    RelativeResolve(nodes, cwd, d, n, p, ".", e);
    assert p + "/" + ".." == p + "/.." && p + "/" + "." == p + "/.";
  }

  lemma OneSegment(s: string)
    requires IsSegment(s)
    ensures Segments(s) == [s]
  {
    assert "" + s + "" == s;
    Joined("", s, "");
    NoSegments();
  }

  // ----- resolve_parent

  /** Nothing but skipped dots: the path has no leaf of its own. */
  predicate OnlyDots(segs: seq<string>, closed: bool) {
    (segs == [] || closed) && forall i :: 0 <= i < |segs| ==> segs[i] == "."
  }

  /** Having read the name of directory d is as good as standing in it, unless nothing more is read. */
  lemma {:induction false} BehindEnters(nodes: seq<Node>, d: nat, segs: seq<string>, closed: bool)
    requires Linked(nodes) && Distinct(nodes) && 0 < d < |nodes| && IsDir(nodes, d)
    ensures OnlyDots(segs, closed) ==>
              && Behind(nodes, nodes[d].parent, nodes[d].name, segs, closed) == Spot(nodes[d].parent, nodes[d].name)
              && Behind(nodes, d, "", segs, closed) == Nowhere
    ensures !OnlyDots(segs, closed) ==>
              Behind(nodes, nodes[d].parent, nodes[d].name, segs, closed) == Behind(nodes, d, "", segs, closed)
    decreases |segs|
  {
    hide Child, Distinct;
    ChildIs(nodes, d);
    if segs != [] && segs[0] == "." && (|segs| > 1 || closed) {
      BehindEnters(nodes, d, segs[1..], closed);
      DotsRest(segs, closed);
    }
  }

  lemma DotsRest(segs: seq<string>, closed: bool)
    requires segs != [] && segs[0] == "." && (|segs| > 1 || closed)
    ensures OnlyDots(segs, closed) <==> OnlyDots(segs[1..], closed)
  {
    if OnlyDots(segs[1..], closed) {
      assert forall i :: 0 < i < |segs| ==> segs[i] == segs[1..][i - 1];
    }
  }

  /** Reading the names on the way to directory d ends with its own name read and its parent entered. */
  lemma {:induction false} BehindNames(nodes: seq<Node>, d: nat, n: nat, segs: seq<string>, closed: bool)
    requires Linked(nodes) && Distinct(nodes) && 0 < d < |nodes| && IsDir(nodes, d)
    requires forall m: nat :: m <= n ==> Up(nodes, d, m) != 0
    ensures var c := Up(nodes, d, n);
            && IsDir(nodes, c)
            && Behind(nodes, nodes[c].parent, nodes[c].name, Segments(Names(nodes, d, n)) + segs, closed)
            == Behind(nodes, nodes[d].parent, nodes[d].name, segs, closed)
  {
    hide Child, Distinct, Names, Segments, IsSegment;
    NamesStep(nodes, d, n);
    if n == 0 {
      NoSegments();
      assert [] + segs == segs;
    } else {
      BehindNames(nodes, d, n - 1, segs, closed);
      NamesStep(nodes, d, n - 1);
      var c, below, rest := Up(nodes, d, n), Up(nodes, d, n - 1), Names(nodes, d, n - 1);
      NamesWalk(nodes, d, n - 1);
      Prefixed(nodes[below].name, rest);
      SegmentPiece(nodes[below].name);
      ChildIs(nodes, c);
      SegmentPiece(nodes[c].name);
      var all := Segments(Names(nodes, d, n)) + segs;
      assert all[0] == nodes[below].name && all[1..] == Segments(rest) + segs;
      assert Enter(nodes, nodes[c].parent, nodes[c].name) == c;
    }
  }

  lemma PrintedBehind(nodes: seq<Node>, d: nat, n: nat, p: string, segs: seq<string>, closed: bool)
    requires Linked(nodes) && Distinct(nodes) && 0 < d < |nodes| && IsDir(nodes, d) && Printed(nodes, d, n, p)
    ensures Behind(nodes, 0, "", Segments(p) + segs, closed)
         == Behind(nodes, nodes[d].parent, nodes[d].name, segs, closed)
  {
    hide Child, Distinct, Names, Segments, IsSegment;
    BehindNames(nodes, d, n - 1, segs, closed);
    NamesStep(nodes, d, n - 1);
    var c, rest := Up(nodes, d, n - 1), Names(nodes, d, n - 1);
    NamesWalk(nodes, d, n - 1);
    Prefixed(nodes[c].name, rest);
    SegmentPiece(nodes[c].name);
    var all := Segments(p) + segs;
    assert all[0] == nodes[c].name && all[1..] == Segments(rest) + segs;
    assert Enter(nodes, 0, "") == 0;
  }

  /**
   * The same for the parent walker, unless the path is nothing but dots behind a closing slash: then it has no leaf
   * from d, while behind the printed path the name of d itself is the leaf.
   */
  lemma RelativeAbove(nodes: seq<Node>, cwd: nat, d: nat, n: nat, p: string, q: string, e: nat)
    requires Tree(nodes, cwd) && IsDir(nodes, d) && Printed(nodes, d, n, p) && q != "" && q[0] != '/' && e < |nodes|
    ensures Above(nodes, d, q) == Above(nodes, e, p + "/" + q) <==>
            d == 0 || !(q[|q| - 1] == '/' && forall i :: 0 <= i < |Segments(q)| ==> Segments(q)[i] == ".")
    ensures Above(nodes, d, q) != Above(nodes, e, p + "/" + q) ==>
            Above(nodes, d, q) == Nowhere && Above(nodes, e, p + "/" + q) == Spot(nodes[d].parent, nodes[d].name)
  {
    hide Grounded, Distinct, Behind, Segments, Printed;
    PrintedWalk(nodes, cwd, d, n, p);
    var path, closed := p + "/" + q, q[|q| - 1] == '/';
    assert path == p + ("/" + q) && path[0] == '/' && path[|path| - 1] == q[|q| - 1];
    SegmentsJoin(p, "/" + q);
    LeadingSlashes("/", q);
    if d == 0 {
      NoSegments();
      assert [] + Segments(q) == Segments(q);
    } else {
      PrintedBehind(nodes, d, n, p, Segments(q), closed);
      BehindEnters(nodes, d, Segments(q), closed);
      SomeSegment(q);
    }
  }

  lemma SomeSegment(q: string)
    requires q != "" && q[0] != '/'
    ensures Segments(q) != []
  {
  }

  /** The exception: from d the path "./" has no leaf, behind the printed path of d it names d. */
  lemma DotSlash(nodes: seq<Node>, cwd: nat, d: nat, n: nat, p: string, e: nat)
    requires Tree(nodes, cwd) && IsDir(nodes, d) && d != 0 && Printed(nodes, d, n, p) && e < |nodes|
    ensures Above(nodes, d, "./") == Nowhere
    ensures Above(nodes, e, p + "/./") == Spot(nodes[d].parent, nodes[d].name)
  {
    hide Tree, Above, Printed, Segments;
    assert "" + "." + "/" == "./" && "/" + "" + "" == "/" && p + "/" + "./" == p + "/./";
    Joined("", ".", "/");
    Joined("/", "", "");
    NoSegments();
    RelativeAbove(nodes, cwd, d, n, p, "./", e);
  }
}
