/** Paths of kernel/vfs.c as strings: slashes, segments and the scanner that splits them. */
module VfsPath {
  const MAX_NAME := 31

  /** How many slashes lead the path. */
  function Slashes(p: string): (n: nat)
    ensures n <= |p| && (n < |p| ==> p[n] != '/')
  {
    if p != "" && p[0] == '/' then 1 + Slashes(p[1..]) else 0
  }

  /** How long the leading run without slashes is. */
  function Word(p: string): (n: nat)
    ensures n <= |p| && (n < |p| ==> p[n] == '/') && forall i :: 0 <= i < n ==> p[i] != '/'
  {
    if p != "" && p[0] != '/' then 1 + Word(p[1..]) else 0
  }

  /** The first maximal slash-free piece, "" if there is none. */
  function First(p: string): (w: string)
    ensures '/' !in w
  {
    var q := p[Slashes(p)..];
    q[..Word(q)]
  }

  /** What follows the first piece. */
  function After(p: string): (r: string)
    ensures |r| <= |p| && (First(p) != "" ==> |r| < |p|)
  {
    var q := p[Slashes(p)..];
    q[Word(q)..]
  }

  /** The maximal slash-free pieces, in order. */
  function Segments(p: string): seq<string>
    decreases |p|
  {
    if First(p) == "" then [] else [First(p)] + Segments(After(p))
  }

  lemma {:induction false} SegmentsOk(p: string)
    ensures forall i :: 0 <= i < |Segments(p)| ==> IsSegment(Segments(p)[i])
    decreases |p|
  {
    if First(p) != "" {
      SegmentsOk(After(p));
    }
  }

  predicate IsSegment(s: string) { s != "" && '/' !in s }

  predicate Dots(s: string) { s == "." || s == ".." }

  function Truncated(s: string): (r: string)
    ensures |r| <= MAX_NAME && r <= s && (|s| <= MAX_NAME ==> r == s)
  {
    if |s| <= MAX_NAME then s else s[..MAX_NAME]
  }

  predicate NameOk(s: string) { IsSegment(s) && |s| <= MAX_NAME && !Dots(s) }

  lemma TruncatedOk(s: string)
    requires IsSegment(s) && !Dots(s)
    ensures NameOk(Truncated(s))
  {
  }

  /** One piece, or none at the end of the path. */
  function Piece(s: string): seq<string> { if s == "" then [] else [s] }

  /** next_segment: skip slashes, then take the run up to the next slash or the end. */
  method NextSegment(path: string, at: nat) returns (start: nat, len: nat, next: nat)
    requires at <= |path|
    ensures at <= start <= next <= |path| && next == start + len
    ensures Segments(path[at..]) == Piece(path[start..next]) + Segments(path[next..])
    ensures path[start..next] == "" || IsSegment(path[start..next])
    ensures next < |path| ==> len > 0
    ensures next == |path| ==> (len == 0 <==> at == |path| || path[|path| - 1] == '/')
  {
    hide Segments, Slashes, Word;
    start := at;
    while start < |path| && path[start] == '/'
      invariant at <= start <= |path|
      invariant forall i :: at <= i < start ==> path[i] == '/'
    {
      start := start + 1;
    }
    next := start;
    while next < |path| && path[next] != '/'
      invariant start <= next <= |path|
      invariant forall i :: start <= i < next ==> path[i] != '/'
    {
      next := next + 1;
    }
    len := next - start;
    SplitFirst(path, at, start, next);
  }

  /** What the scanner finds is the first segment. */
  lemma SplitFirst(path: string, at: nat, start: nat, next: nat)
    requires at <= start <= next <= |path|
    requires forall i :: at <= i < start ==> path[i] == '/'
    requires forall i :: start <= i < next ==> path[i] != '/'
    requires start < |path| ==> path[start] != '/'
    requires next < |path| ==> path[next] == '/'
    ensures Segments(path[at..]) == Piece(path[start..next]) + Segments(path[next..])
  {
    var a, w, r := path[at..start], path[start..next], path[next..];
    assert path[at..] == a + w + r;
    Joined(a, w, r);
  }

  /** Slashes, a word and the rest of a path. */
  lemma Joined(a: string, w: string, r: string)
    requires (forall i :: 0 <= i < |a| ==> a[i] == '/') && '/' !in w
    requires r != "" ==> w != "" && r[0] == '/'
    ensures Segments(a + w + r) == Piece(w) + Segments(r)
  {
    var p := a + w + r;
    SlashesAre(p, |a|);
    assert p[|a|..] == w + r;
    WordIs(w, r);
    assert (w + r)[..|w|] == w && (w + r)[|w|..] == r;
    assert First(p) == w && After(p) == r;
  }

  lemma {:induction false} SlashesAre(p: string, n: nat)
    requires n <= |p| && (forall i :: 0 <= i < n ==> p[i] == '/') && (n < |p| ==> p[n] != '/')
    ensures Slashes(p) == n
  {
    if n > 0 {
      SlashesAre(p[1..], n - 1);
    }
  }

  /** Putting a name in front of a printed path puts it in front of the segments. */
  lemma Prefixed(name: string, rest: string)
    requires IsSegment(name) && (rest == "" || rest[0] == '/')
    ensures Segments("/" + name + rest) == [name] + Segments(rest)
  {
    Joined("/", name, rest);
  }

  lemma {:induction false} WordIs(name: string, rest: string)
    requires '/' !in name && (rest == "" || rest[0] == '/')
    ensures Word(name + rest) == |name|
  {
    if name == "" {
      assert name + rest == rest;
    } else {
      assert (name + rest)[1..] == name[1..] + rest;
      WordIs(name[1..], rest);
    }
  }
}
