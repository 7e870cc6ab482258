/** File discovery: the depth-first walk `findFiles` performs over the
    workspace before any file is parsed. The directory listing is an
    in-memory tree and the ignore rules are an abstract predicate on
    root-relative paths. */
module Walker {
  import opened Strings
  import opened Paths

  /** One entry of a directory listing, in listing order. Everything that
      is not a directory (regular files, links, sockets) is a `File`. */
  datatype Entry = File(name: string) | Directory(name: string, entries: seq<Entry>)

  /** The name ends in one of the walked extensions. */
  predicate IsSourceName(name: string) {
    exists k :: 0 <= k < |SourceExtensions| && EndsWith(name, SourceExtensions[k])
  }

  /** The root-relative paths of the files kept below the directory whose
      root-relative path is `dir` and whose listing is `entries`, entry by
      entry in listing order. */
  function Walk(entries: seq<Entry>, dir: Path, ignored: Path -> bool): (r: seq<Path>)
    ensures forall k :: 0 <= k < |r| ==> |r[k]| > |dir| && r[k][..|dir|] == dir
    decreases entries, 1
  {
    if entries == [] then []
    else Visit(entries[0], dir, ignored) + Walk(entries[1..], dir, ignored)
  }

  /** One listing entry: when its root-relative path is ignored it is
      skipped, so an ignored directory is never entered; a directory is
      walked in place; a file is kept when its name has a source extension. */
  function Visit(e: Entry, dir: Path, ignored: Path -> bool): (r: seq<Path>)
    ensures forall k :: 0 <= k < |r| ==> |r[k]| > |dir| && r[k][..|dir|] == dir
    decreases e, 0
  {
    var rel := dir + [e.name];
    var r :=
      if ignored(rel) then []
      else match e
        case Directory(_, children) => Walk(children, rel, ignored)
        case File(name) => if IsSourceName(name) then [rel] else [];
    assert forall k :: 0 <= k < |r| ==> r[k][..|dir|] == dir by {
      forall k | 0 <= k < |r| ensures r[k][..|dir|] == dir {
        assert r[k][..|rel|][..|dir|] == dir;
      }
    }
    r
  }

  /** `q` names a non-directory entry of the tree listed by `entries`,
      following one directory per segment. */
  ghost predicate IsFileIn(entries: seq<Entry>, q: Path)
    decreases entries
  {
    |q| >= 1 &&
    exists i :: 0 <= i < |entries| && entries[i].name == q[0] &&
      (if |q| == 1 then entries[i].File?
       else entries[i].Directory? && IsFileIn(entries[i].entries, q[1..]))
  }

  /** No path from `dir` (exclusive) down to `p` (inclusive) is ignored. */
  ghost predicate NoIgnoredAncestor(p: Path, dir: Path, ignored: Path -> bool)
    requires |dir| <= |p|
  {
    forall k :: |dir| < k <= |p| ==> !ignored(p[..k])
  }

  /** The walk keeps exactly the files of the tree whose name has a source
      extension and none of whose ancestors below `dir`, nor the file
      itself, is ignored: nothing excluded is kept, nothing else is lost. */
  lemma {:induction false} WalkExact(entries: seq<Entry>, dir: Path, ignored: Path -> bool, p: Path)
    ensures p in Walk(entries, dir, ignored) <==>
      && |dir| < |p| && p[..|dir|] == dir
      && IsFileIn(entries, p[|dir|..])
      && IsSourceName(p[|p| - 1])
      && NoIgnoredAncestor(p, dir, ignored)
    decreases entries, 1
  {
    if entries == [] {
    } else {
      VisitExact(entries[0], dir, ignored, p);
      WalkExact(entries[1..], dir, ignored, p);
      if |dir| < |p| && p[..|dir|] == dir {
        var q := p[|dir|..];
        IsFileInCons(entries, q);
      }
    }
  }

  /** `IsFileIn` over a non-empty listing: through its first entry or
      through the rest. */
  lemma IsFileInCons(entries: seq<Entry>, q: Path)
    requires entries != []
    ensures IsFileIn(entries, q) <==>
      (|q| >= 1 && EntryHolds(entries[0], q)) || IsFileIn(entries[1..], q)
  {
    if IsFileIn(entries, q) {
      var i :| 0 <= i < |entries| && entries[i].name == q[0] &&
        (if |q| == 1 then entries[i].File?
         else entries[i].Directory? && IsFileIn(entries[i].entries, q[1..]));
      if i > 0 {
        assert entries[1..][i - 1] == entries[i];
      }
    }
    if |q| >= 1 && IsFileIn(entries[1..], q) {
      var i :| 0 <= i < |entries[1..]| && entries[1..][i].name == q[0] &&
        (if |q| == 1 then entries[1..][i].File?
         else entries[1..][i].Directory? && IsFileIn(entries[1..][i].entries, q[1..]));
      assert entries[i + 1] == entries[1..][i];
    }
  }

  /** `q` names a non-directory entry reached through the entry `e`. */
  ghost predicate EntryHolds(e: Entry, q: Path)
    requires |q| >= 1
  {
    e.name == q[0] &&
    (if |q| == 1 then e.File? else e.Directory? && IsFileIn(e.entries, q[1..]))
  }

  lemma {:induction false} VisitExact(e: Entry, dir: Path, ignored: Path -> bool, p: Path)
    ensures p in Visit(e, dir, ignored) <==>
      && |dir| < |p| && p[..|dir|] == dir
      && EntryHolds(e, p[|dir|..])
      && IsSourceName(p[|p| - 1])
      && NoIgnoredAncestor(p, dir, ignored)
    decreases e, 0
  {
    var rel := dir + [e.name];
    if |dir| < |p| && p[..|dir|] == dir {
      var q := p[|dir|..];
      assert p[..|dir| + 1] == dir + [q[0]];
      if q[0] == e.name {
        assert p[..|rel|] == rel;
        assert NoIgnoredAncestor(p, dir, ignored) <==>
          !ignored(rel) && (|p| == |rel| || NoIgnoredAncestor(p, rel, ignored)) by {
          if !ignored(rel) && (|p| == |rel| || NoIgnoredAncestor(p, rel, ignored)) {
            forall k | |dir| < k <= |p| ensures !ignored(p[..k]) {
              if k == |rel| {
                assert p[..k] == rel;
              }
            }
          }
        }
      }
      if |q| == 1 {
        assert p == dir + [q[0]];
      } else {
        assert p[|rel|..] == q[1..];
      }
    }
    match e
    case File(name) =>
    case Directory(_, children) =>
      if !ignored(rel) {
        WalkExact(children, rel, ignored, p);
        if |rel| < |p| && p[..|rel|] == rel {
          assert p[..|dir|] == dir;
          assert p[|dir|..][0] == e.name;
          assert p[|dir|..][1..] == p[|rel|..];
        }
      }
  }

  /** A listing as a file system gives it: every name is non-empty and
      holds no `/`. */
  predicate ValidNames(entries: seq<Entry>)
    decreases entries
  {
    forall i :: 0 <= i < |entries| ==>
      entries[i].name != [] && '/' !in entries[i].name
      && (entries[i].Directory? ==> ValidNames(entries[i].entries))
  }

  /** Every path the walk keeps is made of real names. */
  lemma {:induction false} WalkSegments(entries: seq<Entry>, dir: Path, ignored: Path -> bool)
    requires ValidNames(entries) && Segments(dir)
    ensures forall k :: 0 <= k < |Walk(entries, dir, ignored)| ==> Segments(Walk(entries, dir, ignored)[k])
    decreases entries, 1
  {
    if entries != [] {
      var head := Visit(entries[0], dir, ignored);
      var rest := Walk(entries[1..], dir, ignored);
      VisitSegments(entries[0], dir, ignored);
      assert ValidNames(entries[1..]) by {
        assert forall i :: 0 <= i < |entries[1..]| ==> entries[1..][i] == entries[i + 1];
      }
      WalkSegments(entries[1..], dir, ignored);
      assert forall k :: |head| <= k < |head + rest| ==> (head + rest)[k] == rest[k - |head|];
    }
  }

  lemma {:induction false} VisitSegments(e: Entry, dir: Path, ignored: Path -> bool)
    requires e.name != [] && '/' !in e.name && (e.Directory? ==> ValidNames(e.entries)) && Segments(dir)
    ensures forall k :: 0 <= k < |Visit(e, dir, ignored)| ==> Segments(Visit(e, dir, ignored)[k])
    decreases e, 0
  {
    var rel := dir + [e.name];
    assert Segments(rel) by {
      assert forall k :: 0 <= k < |dir| ==> rel[k] == dir[k];
    }
    if !ignored(rel) && e.Directory? {
      WalkSegments(e.entries, rel, ignored);
    }
  }
}
