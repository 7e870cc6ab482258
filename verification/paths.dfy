/** Root-relative paths and the three operations of Node's POSIX `path`
    module that the engine uses to resolve imports: `normalize`, `join`
    and `extname`, plus the `dirname` of a file path and string
    concatenation of an extension. */
module Paths {
  import opened Strings

  /** A path as the list of its `/`-separated segments: `a/b` is
      `["a", "b"]`, a trailing `/` is a trailing empty segment, a leading
      `/` a leading empty segment, and the empty string is `[]`. */
  type Path = seq<string>

  /** The extensions, in preference order, that the walker keeps and the
      resolver probes. */
  const SourceExtensions: seq<string> := [".ts", ".tsx", ".js", ".jsx"]

  /** The path a string denotes. */
  function PathOf(s: string): (p: Path)
    ensures Text(p) == s
    ensures p == [] <==> s == []
  {
    if s == [] then [] else Split(s, '/')
  }

  /** The string a path denotes. */
  function Text(p: Path): string {
    Join(p, '/')
  }

  /** A path in the form `PathOf` produces: no segment holds a `/`, and the
      empty string is `[]` rather than `[""]`. */
  predicate WellFormed(p: Path) {
    p != [""] && forall k :: 0 <= k < |p| ==> '/' !in p[k]
  }

  /** Every segment is a real name: non-empty and without `/`. */
  predicate Segments(p: Path) {
    forall k :: 0 <= k < |p| ==> p[k] != [] && '/' !in p[k]
  }

  /** `PathOf` and `Text` are inverse on well-formed paths. */
  lemma PathOfText(p: Path)
    requires WellFormed(p)
    ensures PathOf(Text(p)) == p
  {
    if p != [] {
      SplitJoin(p, '/');
    }
  }

  /** One step of `normalize` over a stack of resolved segments: empty and
      `.` segments vanish, `..` cancels the last real segment, or is kept
      when nothing is left to cancel and the path may climb above its
      start. */
  function Push(stack: Path, seg: string, aboveRoot: bool): Path {
    if seg == "" || seg == "." then stack
    else if seg == ".." then
      if stack != [] && stack[|stack| - 1] != ".." then stack[..|stack| - 1]
      else if aboveRoot then stack + [".."]
      else stack
    else stack + [seg]
  }

  function ResolveFrom(stack: Path, segs: Path, aboveRoot: bool): Path
    decreases |segs|
  {
    if segs == [] then stack
    else ResolveFrom(Push(stack, segs[0], aboveRoot), segs[1..], aboveRoot)
  }

  /** A resolved segment list: no empty or `.` segment, and `..` only in a
      leading run, and only when the path may climb above its start. */
  predicate Clean(xs: Path, aboveRoot: bool) {
    forall k :: 0 <= k < |xs| ==>
      xs[k] != "" && xs[k] != "."
      && (xs[k] == ".." ==> aboveRoot && forall j :: 0 <= j < k ==> xs[j] == "..")
  }

  lemma PushClean(stack: Path, seg: string, aboveRoot: bool)
    requires Clean(stack, aboveRoot)
    ensures Clean(Push(stack, seg, aboveRoot), aboveRoot)
  {
    if seg == ".." && !(stack != [] && stack[|stack| - 1] != "..") && aboveRoot {
      var r := stack + [".."];
      if stack != [] {
        assert stack[|stack| - 1] == "..";
      }
      assert forall j :: 0 <= j < |stack| ==> stack[j] == "..";
      assert forall k :: 0 <= k < |r| ==> r[k] == "..";
    }
  }

  lemma {:induction false} ResolveFromClean(stack: Path, segs: Path, aboveRoot: bool)
    requires Clean(stack, aboveRoot)
    ensures Clean(ResolveFrom(stack, segs, aboveRoot), aboveRoot)
    decreases |segs|
  {
    if segs != [] {
      PushClean(stack, segs[0], aboveRoot);
      ResolveFromClean(Push(stack, segs[0], aboveRoot), segs[1..], aboveRoot);
    }
  }

  /** Resolving segments that are already clean pushes each of them
      unchanged. */
  lemma {:induction false} ResolveFromCleanIsIdentity(stack: Path, segs: Path, aboveRoot: bool)
    requires Clean(stack + segs, aboveRoot)
    ensures ResolveFrom(stack, segs, aboveRoot) == stack + segs
    decreases |segs|
  {
    if segs != [] {
      var s := segs[0];
      var all := stack + segs;
      assert all[|stack|] == s;
      if s == ".." {
        assert forall j :: 0 <= j < |stack| ==> all[j] == ".." && stack[j] == all[j];
      }
      assert Push(stack, s, aboveRoot) == stack + [s];
      assert (stack + [s]) + segs[1..] == all;
      ResolveFromCleanIsIdentity(stack + [s], segs[1..], aboveRoot);
    }
  }

  /** `path.normalize` on POSIX: resolve `.`, `..` and repeated separators,
      keep a leading `/` and a trailing `/`, and give `.` for a path that
      resolves to nothing. */
  function Normalize(p: Path): (r: Path)
    ensures r != []
    ensures NormalForm(r)
  {
    if p == [] || p == [""] then ["."]
    else
      var isAbsolute := p[0] == "";
      var trailing := p[|p| - 1] == "";
      var body := ResolveFrom([], p, !isAbsolute);
      ResolveFromClean([], p, !isAbsolute);
      if body == [] then
        if isAbsolute then ["", ""] else if trailing then [".", ""] else ["."]
      else
        (if isAbsolute then [""] else []) + body + (if trailing then [""] else [])
  }

  /** The shapes `Normalize` can produce. */
  ghost predicate NormalForm(r: Path) {
    || r == ["."] || r == [".", ""] || r == ["", ""]
    || (exists body :: body != [] && Clean(body, true) && (r == body || r == body + [""]))
    || (exists body :: body != [] && Clean(body, false) && (r == [""] + body || r == [""] + body + [""]))
  }

  /** Normalizing twice is normalizing once. */
  lemma NormalizeIdempotent(p: Path)
    ensures Normalize(Normalize(p)) == Normalize(p)
  {
    NormalFormIsFixed(Normalize(p));
  }

  /** Every shape `Normalize` produces is left alone by it. */
  lemma NormalFormIsFixed(r: Path)
    requires NormalForm(r)
    ensures Normalize(r) == r
  {
    if r == ["."] || r == [".", ""] || r == ["", ""] {
      SmallFormsAreFixed(r);
    } else if exists body :: body != [] && Clean(body, true) && (r == body || r == body + [""]) {
      var body :| body != [] && Clean(body, true) && (r == body || r == body + [""]);
      if r == body + [""] {
        RelativeFormIsFixed(body, true);
      } else {
        RelativeFormIsFixed(body, false);
        assert body + [] == r;
      }
    } else {
      var body :| body != [] && Clean(body, false) && (r == [""] + body || r == [""] + body + [""]);
      if r == [""] + body + [""] {
        AbsoluteFormIsFixed(body, true);
      } else {
        AbsoluteFormIsFixed(body, false);
        assert [""] + body + [] == r;
      }
    }
  }

  lemma SmallFormsAreFixed(r: Path)
    requires r == ["."] || r == [".", ""] || r == ["", ""]
    ensures Normalize(r) == r
  {
    assert ResolveFrom([], r, r[0] != "") == ResolveFrom([], r[1..], r[0] != "");
    assert r[1..] == [] || r[1..] == [""];
  }

  lemma RelativeFormIsFixed(body: Path, trailing: bool)
    requires body != [] && Clean(body, true)
    ensures var r := body + (if trailing then [""] else []); Normalize(r) == r
  {
    var r := body + (if trailing then [""] else []);
    assert r != [] && r != [""] && r[0] != "" by {
      assert r[0] == body[0];
    }
    assert (r[|r| - 1] == "") == trailing;
    assert ResolveFrom([], r, true) == body by {
      if trailing {
        ResolveFromAppendEmpty(body, true);
      } else {
        assert r == body;
        ResolveFromCleanIsIdentity([], body, true);
      }
    }
    assert [] + body + (if trailing then [""] else []) == r;
  }

  lemma AbsoluteFormIsFixed(body: Path, trailing: bool)
    requires body != [] && Clean(body, false)
    ensures var r := [""] + body + (if trailing then [""] else []); Normalize(r) == r
  {
    var tail := body + (if trailing then [""] else []);
    var r := [""] + tail;
    assert [""] + body + (if trailing then [""] else []) == r;
    assert r[1..] == tail;
    assert ResolveFrom([], r, false) == ResolveFrom([], tail, false);
    if trailing {
      ResolveFromAppendEmpty(body, false);
    } else {
      assert tail == body;
      assert r[|r| - 1] == body[|body| - 1] != "";
      ResolveFromCleanIsIdentity([], body, false);
    }
  }

  /** A trailing empty segment resolves to nothing. */
  lemma ResolveFromAppendEmpty(body: Path, aboveRoot: bool)
    requires Clean(body, aboveRoot)
    ensures ResolveFrom([], body + [""], aboveRoot) == body
  {
    ResolveFromSplit([], body, [""], aboveRoot);
    ResolveFromCleanIsIdentity([], body, aboveRoot);
  }

  /** Resolving a concatenation resolves the first part, then the second. */
  lemma {:induction false} ResolveFromSplit(stack: Path, a: Path, b: Path, aboveRoot: bool)
    ensures ResolveFrom(stack, a + b, aboveRoot) == ResolveFrom(ResolveFrom(stack, a, aboveRoot), b, aboveRoot)
    decreases |a|
  {
    if a == [] {
      assert a + b == b;
    } else {
      assert (a + b)[0] == a[0];
      assert (a + b)[1..] == a[1..] + b;
      ResolveFromSplit(Push(stack, a[0], aboveRoot), a[1..], b, aboveRoot);
    }
  }

  /** `path.join(a, b)`: empty arguments are skipped, the rest are joined
      with `/` and the result normalized (`.` when nothing is left). */
  function JoinPaths(a: Path, b: Path): (r: Path)
    ensures r != []
  {
    Normalize(if a == [] then b else if b == [] then a else a + b)
  }

  /** `path.dirname` of a root-relative file path: everything before the
      last segment, or `.` for a path of one segment. */
  function Dirname(p: Path): (r: Path)
    ensures r != []
    ensures |p| <= 1 ==> r == ["."]
    ensures |p| >= 2 ==> r + [p[|p| - 1]] == p
  {
    if |p| <= 1 then ["."] else p[..|p| - 1]
  }

  /** The last segment that `extname` inspects: trailing `/`s are skipped. */
  function LastName(p: Path): string
    decreases |p|
  {
    if p == [] then ""
    else if p[|p| - 1] == "" then LastName(p[..|p| - 1])
    else p[|p| - 1]
  }

  /** `path.extname(p) != ""`: the last name holds a `.` after its first
      character and is not `..`. */
  predicate HasExtension(p: Path) {
    var name := LastName(p);
    name != ".." && |name| >= 1 && '.' in name[1..]
  }
}
