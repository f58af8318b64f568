/** Filesystem paths as the Rust standard library's `Path` treats them, reduced
    to what the package manager relies on: a path is the sequence of its
    normal components below the root, `Path::join` appends the components of a
    relative path, and `to_str` renders `/a/b` for `["a", "b"]`. */
module Paths {
  import opened Text

  /** An absolute path: its components below the root, outermost first. */
  type Path = seq<string>

  /** A component that names one directory entry: non-empty, no separator,
      and neither `.` nor `..`. */
  predicate IsSegment(c: string)
  {
    c != "" && c != "." && c != ".." && '/' !in c
  }

  predicate AllSegments(p: Path)
  {
    forall i :: 0 <= i < |p| ==> IsSegment(p[i])
  }

  /** The pieces of a '/'-split that `Path::components` reports: empty pieces
      (doubled, leading or trailing separators) and `.` are dropped. */
  function Normal(pieces: seq<string>): (r: seq<string>)
    ensures |r| <= |pieces|
    ensures forall i :: 0 <= i < |r| ==> r[i] in pieces && r[i] != "" && r[i] != "."
  {
    if pieces == [] then []
    else if pieces[0] == "" || pieces[0] == "." then Normal(pieces[1..])
    else [pieces[0]] + Normal(pieces[1..])
  }

  /** `Path::new(s).components()`, without the root marker. */
  function Components(s: string): (r: seq<string>)
    ensures forall i :: 0 <= i < |r| ==> r[i] != "" && r[i] != "." && '/' !in r[i]
  {
    Normal(Split(s, '/'))
  }

  predicate IsAbsolute(s: string)
  {
    |s| > 0 && s[0] == '/'
  }

  /** `base.join(s)`: an absolute `s` replaces the base, a relative one is
      appended component by component. */
  function PathJoin(base: Path, s: string): Path
  {
    if IsAbsolute(s) then Components(s) else base + Components(s)
  }

  /** `/c1/c2/...`: each component preceded by a separator. */
  function RenderTail(p: Path): string
  {
    if p == [] then "" else "/" + p[0] + RenderTail(p[1..])
  }

  /** `path.to_str()` for an absolute path; the root alone is `/`. */
  function Render(p: Path): string
  {
    if p == [] then "/" else RenderTail(p)
  }

  /** Rust's `Path::starts_with`: a component-wise prefix. */
  predicate PathStartsWith(p: Path, base: Path)
  {
    |base| <= |p| && p[..|base|] == base
  }

  /** Rust's `Path::ends_with`: a component-wise suffix. */
  predicate PathEndsWith(p: Path, child: seq<string>)
  {
    |child| <= |p| && p[|p| - |child|..] == child
  }

  // ---------------------------------------------------------------------------

  lemma {:induction false} NormalOfSegments(p: Path)
    requires AllSegments(p)
    ensures Normal(p) == p
  {
    if p != [] {
      NormalOfSegments(p[1..]);
      assert [p[0]] + p[1..] == p;
    }
  }

  /** A segment is a path of one component. */
  lemma ComponentsOfSegment(c: string)
    requires IsSegment(c)
    ensures Components(c) == [c]
  {
    SplitNoSep(c, '/');
  }

  /** `a/b` has the two components `a` and `b`. */
  lemma ComponentsOfTwo(a: string, b: string)
    requires IsSegment(a) && IsSegment(b)
    ensures Components(a + "/" + b) == [a, b]
  {
    SplitAt(a, b, '/');
    SplitNoSep(b, '/');
    assert a + "/" + b == a + ['/'] + b;
    assert Split(a + "/" + b, '/') == [a, b];
    assert [a, b][1..] == [b];
    assert Normal([b]) == [b] + Normal([]);
  }

  /** Joining a segment adds exactly that one component. */
  lemma JoinSegment(base: Path, c: string)
    requires IsSegment(c)
    ensures PathJoin(base, c) == base + [c]
  {
    ComponentsOfSegment(c);
  }

  lemma {:induction false} SplitRenderTail(p: Path)
    requires p != [] && AllSegments(p)
    ensures Split(p[0] + RenderTail(p[1..]), '/') == p
  {
    if |p| == 1 {
      assert p[0] + RenderTail(p[1..]) == p[0];
      SplitNoSep(p[0], '/');
    } else {
      var rest := p[1..];
      SplitRenderTail(rest);
      assert p[0] + RenderTail(rest) == p[0] + ['/'] + (rest[0] + RenderTail(rest[1..]));
      SplitAt(p[0], rest[0] + RenderTail(rest[1..]), '/');
      assert [p[0]] + rest == p;
    }
  }

  /** Rendering a path and reading its components back gives the path. */
  lemma RenderComponents(p: Path)
    requires AllSegments(p)
    ensures Components(Render(p)) == p
  {
    if p == [] {
      assert Split("/", '/') == [[], []];
    } else {
      SplitRenderTail(p);
      assert Render(p) == [] + ['/'] + (p[0] + RenderTail(p[1..]));
      SplitAt([], p[0] + RenderTail(p[1..]), '/');
      assert Split(Render(p), '/') == [""] + p;
      NormalOfSegments(p);
    }
  }

  /** A rendered path is absolute, so joining it anywhere yields the path. */
  lemma JoinRendered(base: Path, p: Path)
    requires AllSegments(p)
    ensures PathJoin(base, Render(p)) == p
  {
    RenderComponents(p);
  }
  /** Rendering distributes over concatenation. */
  lemma {:induction false} RenderTailAppend(a: Path, b: Path)
    ensures RenderTail(a + b) == RenderTail(a) + RenderTail(b)
    decreases |a|
  {
    if a != [] {
      assert (a + b)[1..] == a[1..] + b;
      RenderTailAppend(a[1..], b);
    } else {
      assert a + b == b;
    }
  }

  /** A component that is followed by another one appears in the rendered
      path between two separators. */
  lemma RenderContainsComponent(p: Path, j: nat)
    requires j + 1 < |p|
    ensures Contains(Render(p), "/" + p[j] + "/")
  {
    assert p == p[..j] + p[j..];
    RenderTailAppend(p[..j], p[j..]);
    var post := p[j + 1] + RenderTail(p[j + 2..]);
    assert p[j..][1..] == p[j + 1..];
    assert p[j + 1..][1..] == p[j + 2..];
    var pre := RenderTail(p[..j]);
    var sub := "/" + p[j] + "/";
    assert RenderTail(p[j..]) == sub + post;
    assert Render(p) == pre + sub + post;
    ContainsWitness(pre, sub, post);
  }
}
