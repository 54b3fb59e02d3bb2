/**
 * Lexical path normalisation and the absolute-path wrapper (src/path.rs).
 *
 * A path is the sequence of its components, as `Path::components` yields
 * them. `NormalizePath` is the source's stack loop; `Resolve` is the same
 * loop as a function. The text form of a path (`Parse`, `Render`) and the
 * relative display that the `pathdiff` crate computes (`Relativize`) are
 * modelled here too, because the decision log stores paths as text
 * relative to its own directory.
 */
module Paths {
  import opened Chars

  datatype Component = RootDir | CurDir | ParentDir | Normal(name: string)

  type Path = seq<Component>

  predicate IsAbsolute(p: Path) {
    |p| > 0 && p[0] == RootDir
  }

  /** No `.` and no `..` component. */
  predicate NoDots(p: Path) {
    forall i :: 0 <= i < |p| ==> p[i] != CurDir && p[i] != ParentDir
  }

  /** The root can only open a path, as `Path::components` guarantees. */
  predicate RootFirst(p: Path) {
    forall i :: 0 < i < |p| ==> p[i] != RootDir
  }

  /** What `AbsPath` holds: an absolute path without `.` or `..`. */
  predicate IsNormalAbsolute(p: Path) {
    IsAbsolute(p) && NoDots(p) && RootFirst(p)
  }

  /** One iteration of the loop at src/path.rs:7-22. */
  function Push(stack: Path, c: Component): Path {
    match c
    case CurDir => stack
    case ParentDir =>
      if |stack| > 0 && stack[|stack| - 1].Normal? then stack[..|stack| - 1] else stack
    case _ => stack + [c]
  }

  /** The stack after the loop has consumed `p`, starting from `stack`. */
  function ResolveOnto(stack: Path, p: Path): Path {
    if p == [] then stack else Push(ResolveOnto(stack, p[..|p| - 1]), p[|p| - 1])
  }

  function Resolve(p: Path): Path {
    ResolveOnto([], p)
  }

  /** `idx` picks, in increasing order, the positions of `b` that spell `a`. */
  ghost predicate Embeds(idx: seq<nat>, a: Path, b: Path) {
    && |idx| == |a|
    && (forall k :: 0 <= k < |idx| ==> idx[k] < |b| && a[k] == b[idx[k]])
    && (forall k, l :: 0 <= k < l < |idx| ==> idx[k] < idx[l])
  }

  ghost predicate IsSubsequence(a: Path, b: Path) {
    exists idx :: Embeds(idx, a, b)
  }

  lemma EmbedsExtend(idx: seq<nat>, a: Path, b: Path, c: Component)
    requires Embeds(idx, a, b)
    ensures Embeds(idx, a, b + [c])
  {
  }

  lemma EmbedsInit(idx: seq<nat>, a: Path, b: Path)
    requires Embeds(idx, a, b) && |a| > 0
    ensures Embeds(idx[..|idx| - 1], a[..|a| - 1], b)
  {
  }

  lemma EmbedsSnoc(idx: seq<nat>, a: Path, b: Path, c: Component)
    requires Embeds(idx, a, b)
    ensures Embeds(idx + [|b|], a + [c], b + [c])
  {
  }

  /** The surviving components are input components, unchanged and in input order. */
  lemma {:induction false} ResolveEmbeds(p: Path) returns (idx: seq<nat>)
    ensures Embeds(idx, Resolve(p), p)
  {
    if p == [] {
      idx := [];
    } else {
      var q := p[..|p| - 1];
      var c := p[|p| - 1];
      assert p == q + [c];
      var inner := ResolveEmbeds(q);
      var r := Resolve(q);
      if c == CurDir || (c == ParentDir && !(|r| > 0 && r[|r| - 1].Normal?)) {
        EmbedsExtend(inner, r, q, c);
        idx := inner;
      } else if c == ParentDir {
        EmbedsExtend(inner, r, q, c);
        EmbedsInit(inner, r, p);
        idx := inner[..|inner| - 1];
      } else {
        EmbedsSnoc(inner, r, q, c);
        idx := inner + [|q|];
      }
    }
  }

  /** No `.` or `..` survives the loop. */
  lemma {:induction false} ResolveNoDots(p: Path)
    ensures NoDots(Resolve(p))
  {
    if p != [] {
      ResolveNoDots(p[..|p| - 1]);
    }
  }

  /** Without `.` and `..` every component is pushed. */
  lemma {:induction false} ResolveOntoNoDots(stack: Path, p: Path)
    requires NoDots(p)
    ensures ResolveOnto(stack, p) == stack + p
  {
    if p != [] {
      ResolveOntoNoDots(stack, p[..|p| - 1]);
      assert stack + p == stack + p[..|p| - 1] + [p[|p| - 1]];
    }
  }

  /** Running the loop over `a + b` is running it over `a`, then over `b`. */
  lemma {:induction false} ResolveOntoAppend(stack: Path, a: Path, b: Path)
    ensures ResolveOnto(stack, a + b) == ResolveOnto(ResolveOnto(stack, a), b)
  {
    if b == [] {
      assert a + b == a;
    } else {
      ResolveOntoAppend(stack, a, b[..|b| - 1]);
      assert (a + b)[..|a + b| - 1] == a + b[..|b| - 1];
    }
  }

  /** A component that is not a name (the root, say) is never popped. */
  lemma {:induction false} ResolveKeepsBase(stack: Path, p: Path)
    requires |stack| > 0 && !stack[0].Normal?
    ensures |ResolveOnto(stack, p)| > 0 && ResolveOnto(stack, p)[0] == stack[0]
  {
    if p != [] {
      ResolveKeepsBase(stack, p[..|p| - 1]);
    }
  }

  /** Normalising an absolute path gives an absolute path without `.` or `..`. */
  lemma ResolveAbsolute(p: Path)
    requires IsAbsolute(p)
    ensures IsAbsolute(Resolve(p))
    ensures RootFirst(p) ==> IsNormalAbsolute(Resolve(p))
  {
    assert p == [RootDir] + p[1..];
    ResolveOntoAppend([], [RootDir], p[1..]);
    assert ResolveOnto([], [RootDir]) == [RootDir];
    ResolveKeepsBase([RootDir], p[1..]);
    ResolveNoDots(p);
    if RootFirst(p) {
      var idx := ResolveEmbeds(p);
      var r := Resolve(p);
      forall i | 0 < i < |r| ensures r[i] != RootDir {
        assert idx[0] < idx[i];
      }
    }
  }

  /** Normalising a normalised path changes nothing. */
  lemma Idempotent(p: Path)
    ensures Resolve(Resolve(p)) == Resolve(p)
  {
    ResolveNoDots(p);
    ResolveOntoNoDots([], Resolve(p));
  }

  lemma PushLast(stack: Path, p: Path, c: Component)
    ensures ResolveOnto(stack, p + [c]) == Push(ResolveOnto(stack, p), c)
  {
    assert (p + [c])[..|p|] == p;
  }

  /** The unit tests of src/path.rs:95-104, as component lists. */
  lemma ExampleParentOfName()
    ensures Resolve([RootDir, Normal("non"), Normal("existing"), ParentDir, Normal("path.txt")])
            == [RootDir, Normal("non"), Normal("path.txt")]
  {
    var p1: Path := [RootDir];
    var p2 := p1 + [Normal("non")];
    var p3 := p2 + [Normal("existing")];
    var p4 := p3 + [ParentDir];
    var p5 := p4 + [Normal("path.txt")];
    PushLast([], [], RootDir);
    assert [] + [RootDir] == p1;
    PushLast([], p1, Normal("non"));
    PushLast([], p2, Normal("existing"));
    PushLast([], p3, ParentDir);
    PushLast([], p4, Normal("path.txt"));
    assert Resolve(p2) == p2;
    assert Resolve(p3) == p3;
    assert Resolve(p4) == p2;
    assert p5 == [RootDir, Normal("non"), Normal("existing"), ParentDir, Normal("path.txt")];
  }

  lemma ExampleRelative()
    ensures Resolve([Normal("test"), ParentDir, Normal("file.txt")]) == [Normal("file.txt")]
  {
    var p1: Path := [Normal("test")];
    var p2 := p1 + [ParentDir];
    var p3 := p2 + [Normal("file.txt")];
    PushLast([], [], Normal("test"));
    assert [] + [Normal("test")] == p1;
    PushLast([], p1, ParentDir);
    PushLast([], p2, Normal("file.txt"));
    assert Resolve(p2) == [];
    assert p3 == [Normal("test"), ParentDir, Normal("file.txt")];
  }

  /**
   * The test of src/path.rs:106-108: "a/b/" normalises to the path "a/b/",
   * which compares equal to "a/b" because the trailing separator yields no
   * component.
   */
  lemma ExampleTrailing()
    ensures Parse("a/b/") == [Normal("a"), Normal("b")] == Parse("a/b")
    ensures Resolve(Parse("a/b/")) == Parse("a/b/")
  {
    SplitWhole("a");
    SplitWhole("b");
    SplitWhole("");
    SplitAppend("b", "");
    assert "b" + [Separator] + "" == "b/";
    SplitAppend("a", "b/");
    assert "a" + [Separator] + "b/" == "a/b/";
    SplitAppend("a", "b");
    assert "a" + [Separator] + "b" == "a/b";
    assert Segments(["b", ""], false) == [Normal("b")];
    ResolveOntoNoDots([], [Normal("a"), Normal("b")]);
  }

  /**
   * The test of src/path.rs:101-104: "/a/b/../c/./d/../../e" normalises to
   * "/a/e". `components()` has already dropped the inner ".", so the loop
   * sees the nine components below.
   */
  lemma ExampleMixed()
    ensures Resolve([RootDir, Normal("a"), Normal("b"), ParentDir, Normal("c"), Normal("d"),
                     ParentDir, ParentDir, Normal("e")])
            == [RootDir, Normal("a"), Normal("e")]
  {
    var p1: Path := [RootDir];
    var p2 := p1 + [Normal("a")];
    var p3 := p2 + [Normal("b")];
    var p4 := p3 + [ParentDir];
    var p5 := p4 + [Normal("c")];
    var p6 := p5 + [Normal("d")];
    var p7 := p6 + [ParentDir];
    var p8 := p7 + [ParentDir];
    var p9 := p8 + [Normal("e")];
    PushLast([], [], RootDir);
    assert [] + [RootDir] == p1;
    PushLast([], p1, Normal("a"));
    PushLast([], p2, Normal("b"));
    PushLast([], p3, ParentDir);
    PushLast([], p4, Normal("c"));
    PushLast([], p5, Normal("d"));
    PushLast([], p6, ParentDir);
    PushLast([], p7, ParentDir);
    PushLast([], p8, Normal("e"));
    assert Resolve(p2) == p2;
    assert Resolve(p3) == p3;
    assert Resolve(p4) == p2;
    assert Resolve(p5) == p2 + [Normal("c")];
    assert Resolve(p6) == p2 + [Normal("c"), Normal("d")];
    assert Resolve(p7) == p2 + [Normal("c")];
    assert Resolve(p8) == p2;
    assert p9 == [RootDir, Normal("a"), Normal("b"), ParentDir, Normal("c"), Normal("d"),
                  ParentDir, ParentDir, Normal("e")];
  }

  /** A `..` right after the root, or opening a relative path, is dropped. */
  lemma ExampleNoEscape()
    ensures Resolve([RootDir, ParentDir]) == [RootDir]
    ensures Resolve([ParentDir, Normal("a")]) == [Normal("a")]
  {
    PushLast([], [], RootDir);
    PushLast([], [RootDir], ParentDir);
    PushLast([], [], ParentDir);
    PushLast([], [ParentDir], Normal("a"));
  }

  /** src/path.rs:5-23. */
  method NormalizePath(path: Path) returns (normalized: Path)
    ensures normalized == Resolve(path)
    ensures NoDots(normalized)
    ensures IsSubsequence(normalized, path)
  {
    var stack: Path := [];
    for i := 0 to |path|
      invariant stack == ResolveOnto([], path[..i])
    {
      match path[i] {
        case CurDir =>
        case ParentDir =>
          if |stack| > 0 && stack[|stack| - 1].Normal? {
            stack := stack[..|stack| - 1];
          }
        case _ =>
          stack := stack + [path[i]];
      }
      assert path[..i + 1][..i] == path[..i];
    }
    assert path[..|path|] == path;
    // Pushing the components one by one onto an empty `PathBuf` gives back
    // the same component list.
    normalized := stack;
    ResolveNoDots(path);
    var idx := ResolveEmbeds(path);
  }

  datatype AbsPath = AbsPath(path: Path)

  /** src/path.rs:30-33: the input must be absolute; the normalised form is kept. */
  function FromAbsPath(p: Path): (a: AbsPath)
    requires IsAbsolute(p)
    ensures IsAbsolute(a.path) && NoDots(a.path)
    ensures RootFirst(p) ==> IsNormalAbsolute(a.path)
    ensures RootFirst(p) && ProperNames(p) ==> Canonical(a.path)
    ensures a.path == Resolve(p)
  {
    ResolveAbsolute(p);
    ResolveNoDots(p);
    ResolveFrom(p);
    AbsPath(Resolve(p))
  }

  datatype DisplayContext = Absolute | RelativeTo(base: Path)

  /** src/path.rs:72-75: the base must be absolute; the normalised form is kept. */
  function BuildContext(playlistRoot: Path): (c: DisplayContext)
    requires IsAbsolute(playlistRoot)
    ensures c.RelativeTo? && IsAbsolute(c.base) && NoDots(c.base)
    ensures RootFirst(playlistRoot) ==> IsNormalAbsolute(c.base)
    ensures c.base == Resolve(playlistRoot)
  {
    ResolveAbsolute(playlistRoot);
    ResolveNoDots(playlistRoot);
    RelativeTo(Resolve(playlistRoot))
  }

  // ---------------------------------------------------------------------
  // Relative display (the `pathdiff::diff_paths` call at src/path.rs:39-40)

  function CommonPrefix(a: Path, b: Path): (k: nat)
    ensures k <= |a| && k <= |b| && a[..k] == b[..k]
    ensures k < |a| && k < |b| ==> a[k] != b[k]
  {
    if a == [] || b == [] || a[0] != b[0] then 0
    else
      var k := 1 + CommonPrefix(a[1..], b[1..]);
      assert a[..k] == [a[0]] + a[1..][..k - 1];
      assert b[..k] == [b[0]] + b[1..][..k - 1];
      k
  }

  function Ups(n: nat): (r: Path)
    ensures |r| == n && forall i :: 0 <= i < n ==> r[i] == ParentDir
  {
    if n == 0 then [] else [ParentDir] + Ups(n - 1)
  }

  /**
   * `diff_paths(path, base)` for two normalised absolute paths: one `..` for
   * every component of `base` past the common prefix, then the rest of `path`.
   */
  function Relativize(path: Path, base: Path): Path
    requires IsNormalAbsolute(path) && IsNormalAbsolute(base)
  {
    var k := CommonPrefix(path, base);
    Ups(|base| - k) + path[k..]
  }

  /** `PathBuf::join`: an absolute right side replaces the left one. */
  function Join(base: Path, rel: Path): Path {
    if IsAbsolute(rel) then rel else base + rel
  }

  lemma {:induction false} PopNames(s: Path, m: nat)
    requires m <= |s|
    requires forall i :: |s| - m <= i < |s| ==> s[i].Normal?
    ensures ResolveOnto(s, Ups(m)) == s[..|s| - m]
  {
    if m > 0 {
      assert Ups(m) == Ups(m - 1) + [ParentDir];
      PopNames(s, m - 1);
    }
  }

  /** Everything past the root of a normalised absolute path is a name. */
  lemma NamesAfterRoot(p: Path, i: int)
    requires IsNormalAbsolute(p)
    requires 0 < i < |p|
    ensures p[i].Normal?
  {
    assert p[i] != RootDir && p[i] != CurDir && p[i] != ParentDir;
  }

  lemma ResolveAfterNormal(base: Path, rel: Path)
    requires NoDots(base)
    ensures Resolve(base + rel) == ResolveOnto(base, rel)
  {
    ResolveOntoAppend([], base, rel);
    ResolveOntoNoDots([], base);
    assert [] + base == base;
  }

  lemma ClimbThenDescend(base: Path, k: nat, tail: Path)
    requires 1 <= k <= |base|
    requires IsNormalAbsolute(base)
    requires NoDots(tail)
    ensures ResolveOnto(base, Ups(|base| - k) + tail) == base[..k] + tail
  {
    var m := |base| - k;
    ResolveOntoAppend(base, Ups(m), tail);
    forall i | |base| - m <= i < |base| ensures base[i].Normal? {
      NamesAfterRoot(base, i);
    }
    PopNames(base, m);
    ResolveOntoNoDots(base[..k], tail);
  }

  /** Joining a base with the path's display relative to it and normalising gives the path back. */
  lemma RelativizeJoin(path: Path, base: Path)
    requires IsNormalAbsolute(path) && IsNormalAbsolute(base)
    ensures !IsAbsolute(Relativize(path, base))
    ensures Resolve(Join(base, Relativize(path, base))) == path
  {
    var k := CommonPrefix(path, base);
    assert k >= 1;
    var tail := path[k..];
    var rel := Ups(|base| - k) + tail;
    assert rel == Relativize(path, base);
    assert !IsAbsolute(rel) by {
      if |rel| > 0 && |base| - k == 0 {
        assert rel[0] == path[k];
      }
    }
    assert Join(base, rel) == base + rel;
    ResolveAfterNormal(base, rel);
    assert NoDots(tail) by {
      forall i | 0 <= i < |tail| ensures tail[i] != CurDir && tail[i] != ParentDir {
        assert tail[i] == path[k + i];
      }
    }
    ClimbThenDescend(base, k, tail);
    assert base[..k] + tail == path;
  }

  // ---------------------------------------------------------------------
  // Text form: `to_string_lossy` and `Path::components` on Unix

  /** The components' names joined with the separator. */
  function JoinNames(p: Path): string {
    if p == [] then ""
    else if |p| == 1 then Name(p[0])
    else Name(p[0]) + [Separator] + JoinNames(p[1..])
  }

  function Name(c: Component): string {
    match c
    case RootDir => [Separator]
    case CurDir => "."
    case ParentDir => ".."
    case Normal(n) => n
  }

  function Render(p: Path): string {
    if IsAbsolute(p) then [Separator] + JoinNames(p[1..]) else JoinNames(p)
  }

  /** `s` cut at every separator. */
  function Split(s: string): (r: seq<string>)
    ensures |r| > 0
  {
    if s == [] then [""]
    else if s[0] == Separator then [""] + Split(s[1..])
    else var t := Split(s[1..]); [[s[0]] + t[0]] + t[1..]
  }

  /**
   * Components of separator-free segments: empty segments and `.` vanish,
   * except a `.` that opens a relative path.
   */
  function Segments(segs: seq<string>, opening: bool): Path {
    if segs == [] then []
    else SegmentOf(segs[0], opening) + Segments(segs[1..], false)
  }

  /** The component, if any, of one separator-free segment. */
  function SegmentOf(s: string, opening: bool): Path {
    if s == "" then []
    else if s == "." then (if opening then [CurDir] else [])
    else if s == ".." then [ParentDir]
    else [Normal(s)]
  }

  function Parse(s: string): Path {
    if |s| > 0 && s[0] == Separator then [RootDir] + Segments(Split(s[1..]), false)
    else Segments(Split(s), true)
  }

  /** A name `Path::components` can yield. */
  predicate ValidName(n: string) {
    n != "" && n != "." && n != ".." && Separator !in n
  }

  /** A relative path made of `..` and proper names, as `Relativize` produces. */
  predicate PlainRelative(p: Path) {
    forall i :: 0 <= i < |p| ==> p[i] == ParentDir || (p[i].Normal? && ValidName(p[i].name))
  }

  lemma {:induction false} SplitPiece(x: string, y: string)
    requires Separator !in x
    ensures Split(x + [Separator] + y) == [x] + Split(y)
  {
    if x != [] {
      SplitPiece(x[1..], y);
      assert (x + [Separator] + y)[1..] == x[1..] + [Separator] + y;
      assert [x[0]] + x[1..] == x;
    }
  }

  lemma {:induction false} SplitWhole(x: string)
    requires Separator !in x
    ensures Split(x) == [x]
  {
    if x != [] {
      SplitWhole(x[1..]);
      assert [x[0]] + x[1..] == x;
    }
  }

  function Names(p: Path): seq<string> {
    if p == [] then [] else [Name(p[0])] + Names(p[1..])
  }

  lemma {:induction false} SplitJoin(p: Path)
    requires |p| > 0 && PlainRelative(p)
    ensures Split(JoinNames(p)) == Names(p)
  {
    if |p| == 1 {
      SplitWhole(Name(p[0]));
    } else {
      SplitJoin(p[1..]);
      SplitPiece(Name(p[0]), JoinNames(p[1..]));
    }
  }

  lemma {:induction false} SegmentsNames(p: Path, opening: bool)
    requires PlainRelative(p)
    ensures Segments(Names(p), opening) == p
  {
    if p != [] {
      SegmentsNames(p[1..], false);
    }
  }

  /** The text of a relative path made of `..` and proper names reads back as the same path. */
  lemma ParseRender(p: Path)
    requires PlainRelative(p)
    ensures Parse(Render(p)) == p
  {
    if p != [] {
      SplitJoin(p);
      SegmentsNames(p, true);
      assert JoinNames(p)[0] == Name(p[0])[0];
    }
  }

  /** `Relativize` produces such paths. */
  lemma RelativizePlain(path: Path, base: Path)
    requires IsNormalAbsolute(path) && IsNormalAbsolute(base)
    requires forall i :: 0 < i < |path| ==> ValidName(path[i].name)
    ensures PlainRelative(Relativize(path, base))
  {
    var k := CommonPrefix(path, base);
    assert k >= 1;
  }

  // ---------------------------------------------------------------------
  // What `Path::components` yields

  /** Every name is one `Path::components` can yield. */
  predicate ProperNames(p: Path) {
    forall c :: c in p && c.Normal? ==> ValidName(c.name)
  }

  /** A component list as `Path::components` yields it: the root and `.` only first, proper names. */
  predicate Components(p: Path) {
    RootFirst(p) && ProperNames(p) && forall i :: 0 < i < |p| ==> p[i] != CurDir
  }

  /** Normalising keeps only components of its input. */
  lemma ResolveFrom(p: Path)
    ensures forall c :: c in Resolve(p) ==> c in p
  {
    var idx := ResolveEmbeds(p);
    forall c | c in Resolve(p) ensures c in p {
      var k :| 0 <= k < |Resolve(p)| && Resolve(p)[k] == c;
      assert p[idx[k]] == c;
    }
  }

  lemma {:induction false} SplitNoSeparator(s: string)
    ensures forall piece :: piece in Split(s) ==> Separator !in piece
  {
    if s != [] {
      SplitNoSeparator(s[1..]);
      var t := Split(s[1..]);
      if s[0] != Separator {
        assert t[0] in t;
        assert forall piece :: piece in t[1..] ==> piece in t;
      }
    }
  }

  /** Where `Segments` puts `.`: only first, and only when it opens a relative path. */
  ghost predicate CurDirOpens(r: Path, opening: bool) {
    forall i :: 0 <= i < |r| && r[i] == CurDir ==> opening && i == 0
  }

  lemma {:induction false} SegmentsComponents(segs: seq<string>, opening: bool)
    requires forall s :: s in segs ==> Separator !in s
    ensures ProperNames(Segments(segs, opening)) && RootDir !in Segments(segs, opening)
    ensures CurDirOpens(Segments(segs, opening), opening)
  {
    if segs != [] {
      assert forall s :: s in segs[1..] ==> s in segs;
      SegmentsComponents(segs[1..], false);
      var rest := Segments(segs[1..], false);
      var r := Segments(segs, opening);
      assert r[|r| - |rest|..] == rest;
    }
  }

  /** Parsing text yields a component list, absolute exactly when the text starts with the separator. */
  lemma ParseComponents(s: string)
    ensures Components(Parse(s))
    ensures IsAbsolute(Parse(s)) <==> |s| > 0 && s[0] == Separator
  {
    if |s| > 0 && s[0] == Separator {
      SplitNoSeparator(s[1..]);
      SegmentsComponents(Split(s[1..]), false);
      var rest := Segments(Split(s[1..]), false);
      var r := Parse(s);
      assert forall i :: 0 < i < |r| ==> r[i] == rest[i - 1];
    } else {
      SplitNoSeparator(s);
      SegmentsComponents(Split(s), true);
    }
  }

  /** Text joined at a separator splits into the pieces of each side. */
  lemma {:induction false} SplitAppend(x: string, y: string)
    ensures Split(x + [Separator] + y) == Split(x) + Split(y)
  {
    if x == [] {
      assert x + [Separator] + y == [Separator] + y;
      assert ([Separator] + y)[1..] == y;
    } else {
      SplitAppend(x[1..], y);
      SplitAppendStep(x, y);
    }
  }

  /** `Split` of a text in terms of its first character and the split of the rest. */
  function Prepend(c: char, pieces: seq<string>): seq<string>
    requires |pieces| > 0
  {
    if c == Separator then [""] + pieces else [[c] + pieces[0]] + pieces[1..]
  }

  lemma PrependAppend(c: char, t: seq<string>, u: seq<string>)
    requires |t| > 0
    ensures Prepend(c, t + u) == Prepend(c, t) + u
  {
    if c != Separator {
      assert (t + u)[0] == t[0] && (t + u)[1..] == t[1..] + u;
    }
  }

  /** One character of `SplitAppend`'s induction. */
  lemma SplitAppendStep(x: string, y: string)
    requires x != []
    requires Split(x[1..] + [Separator] + y) == Split(x[1..]) + Split(y)
    ensures Split(x + [Separator] + y) == Split(x) + Split(y)
  {
    var xy := x + [Separator] + y;
    assert xy[0] == x[0] && xy[1..] == x[1..] + [Separator] + y;
    assert Split(xy) == Prepend(x[0], Split(xy[1..]));
    assert Split(x) == Prepend(x[0], Split(x[1..]));
    PrependAppend(x[0], Split(x[1..]), Split(y));
  }

  lemma {:induction false} SegmentsAppend(a: seq<string>, b: seq<string>, opening: bool)
    requires a != []
    ensures Segments(a + b, opening) == Segments(a, opening) + Segments(b, false)
  {
    var ab := a + b;
    assert ab[0] == a[0] && ab[1..] == a[1..] + b;
    if |a| > 1 {
      SegmentsAppend(a[1..], b, false);
    } else {
      assert ab[1..] == b;
    }
  }

  // ---------------------------------------------------------------------
  // Normalised absolute paths and their display (src/path.rs:30-44)

  /** What `AbsPath::from_abs_path` makes of a path `Path::components` yields. */
  predicate Canonical(p: Path) {
    IsNormalAbsolute(p) && ProperNames(p)
  }

  /** `PathBuf::join` of a normalised base and a parsed path keeps the root first and the names proper. */
  lemma JoinComponents(base: Path, q: Path)
    requires Canonical(base) && Components(q)
    ensures IsAbsolute(Join(base, q)) && RootFirst(Join(base, q)) && ProperNames(Join(base, q))
  {
    if !IsAbsolute(q) {
      var j := base + q;
      forall i | 0 < i < |j| ensures j[i] != RootDir {
        if i >= |base| {
          assert j[i] == q[i - |base|];
        }
      }
      assert forall c :: c in j ==> c in base || c in q;
    }
  }

  /** `AbsPath::to_string`: the path's text, absolute or relative to a normalised base. */
  function ToText(a: AbsPath, context: DisplayContext): string
    requires IsNormalAbsolute(a.path)
    requires context.RelativeTo? ==> IsNormalAbsolute(context.base)
  {
    match context
    case Absolute => Render(a.path)
    case RelativeTo(base) => Render(Relativize(a.path, base))
  }

  /** Either form of a path's text reads back as the same path. */
  lemma ToTextReadsBack(a: AbsPath, context: DisplayContext)
    requires Canonical(a.path)
    requires context.RelativeTo? ==> IsNormalAbsolute(context.base)
    ensures context.Absolute? ==> Parse(ToText(a, context)) == a.path
    ensures context.RelativeTo? ==> !IsAbsolute(Parse(ToText(a, context)))
    ensures context.RelativeTo? ==> Resolve(Join(context.base, Parse(ToText(a, context)))) == a.path
  {
    forall i | 0 < i < |a.path| ensures ValidName(a.path[i].name) {
      NamesAfterRoot(a.path, i);
      assert a.path[i] in a.path;
    }
    match context
    case Absolute =>
      ParseRenderAbsolute(a.path);
    case RelativeTo(base) =>
      var rel := Relativize(a.path, base);
      RelativizePlain(a.path, base);
      RelativizeJoin(a.path, base);
      ParseRender(rel);
  }

  /** The text of a normalised absolute path reads back as the same path. */
  lemma ParseRenderAbsolute(p: Path)
    requires IsNormalAbsolute(p)
    requires forall i :: 0 < i < |p| ==> ValidName(p[i].name)
    ensures Parse(Render(p)) == p
  {
    var rest := p[1..];
    forall i | 0 <= i < |rest| ensures rest[i].Normal? && ValidName(rest[i].name) {
      NamesAfterRoot(p, i + 1);
    }
    if rest == [] {
      assert p == [RootDir];
      assert Render(p) == [Separator];
      assert Split([Separator][1..]) == [""];
      assert Segments([""], false) == SegmentOf("", false) + Segments([], false) == [];
    } else {
      SplitJoin(rest);
      SegmentsNames(rest, false);
      assert Render(p)[1..] == JoinNames(rest);
    }
  }
}
