/** `analyzeCode` and the visualisation command built on it: the files the
    walk keeps are analysed, their records attached to the tree by their
    root-relative paths, the tree cleaned, and the graph drawn from it.
    The parser is the parameter `parse`, which gives the syntax summary of
    the file at a root-relative path. */
module Pipeline {
  import opened Seqs
  import opened Paths
  import opened Records
  import opened Syntax
  import Walker
  import opened Analyzer
  import opened Structure
  import opened Graph

  /** The record `analyzeFile` gives the file at `p`. */
  function Analyzed(parse: Path -> SourceSummary): Path -> FileInfo {
    (p: Path) => AnalyzeFile(p, parse(p))
  }

  /** `analyzeCode`: the walked files' records attached in walk order to
      the root, then the tree cleaned. The result is unnamed like the
      root and holds no empty list or map. */
  function AnalyzeCode(entries: seq<Walker.Entry>, ignored: Path -> bool, parse: Path -> SourceSummary): (r: Dir)
    ensures r.name == []
    ensures Pruned(r)
  {
    var infos := Map(Analyzed(parse), Walker.Walk(entries, [], ignored));
    CleanupPrunes(BuildFrom(Root, infos));
    Cleanup(BuildFrom(Root, infos))
  }

  /** Records of paths made of real names can be attached. */
  lemma AnalyzedAttachable(files: seq<Path>, parse: Path -> SourceSummary)
    requires forall k :: 0 <= k < |files| ==> files[k] != [] && Segments(files[k])
    ensures forall k :: 0 <= k < |files| ==> Attachable(Map(Analyzed(parse), files)[k])
  {
    forall k | 0 <= k < |files| ensures Attachable(AnalyzeFile(files[k], parse(files[k]))) {
      var p := files[k];
      AnalyzeFileNameAndFunctions(p, parse(p));
    }
  }

  /** The walk's paths are non-empty and made of real names. */
  lemma WalkedPaths(entries: seq<Walker.Entry>, ignored: Path -> bool)
    requires Walker.ValidNames(entries)
    ensures forall k :: 0 <= k < |Walker.Walk(entries, [], ignored)| ==>
              Walker.Walk(entries, [], ignored)[k] != [] && Segments(Walker.Walk(entries, [], ignored)[k])
  {
    Walker.WalkSegments(entries, [], ignored);
  }

  /** The file `p` sits in directory `q`. */
  function InFolder(q: Path): Path -> bool {
    (p: Path) => p != [] && ParentParts(p) == q
  }

  /** Every directory of the result lists the records of exactly the
      walked files directly inside it, in walk order. */
  lemma AnalyzeCodeFiles(entries: seq<Walker.Entry>, ignored: Path -> bool, parse: Path -> SourceSummary, q: Path)
    requires Walker.ValidNames(entries)
    ensures FilesAt(AnalyzeCode(entries, ignored, parse), q)
            == Map(Analyzed(parse), Filter(InFolder(q), Walker.Walk(entries, [], ignored)))
  {
    var files := Walker.Walk(entries, [], ignored);
    var infos := Map(Analyzed(parse), files);
    WalkedPaths(entries, ignored);
    AnalyzedAttachable(files, parse);
    forall k | 0 <= k < |infos| ensures FilePath(infos[k].path) {
      assert infos[k].path[0] != [];
    }
    CleanupKeepsContents(BuildFrom(Root, infos), q);
    BuildFiles(Root, infos, q);
    assert FilesAt(Root, q) == [];
    FilterMap(InDir(q), Analyzed(parse), InFolder(q), files);
  }

  /** A file of the workspace is listed in its directory of the result
      exactly when it has a source extension and neither it nor any
      directory above it is ignored. */
  lemma AnalyzeCodeListsFile(entries: seq<Walker.Entry>, ignored: Path -> bool, parse: Path -> SourceSummary, p: Path)
    requires Walker.ValidNames(entries) && p != []
    ensures AnalyzeFile(p, parse(p)) in FilesAt(AnalyzeCode(entries, ignored, parse), ParentParts(p)) <==>
            Walker.IsFileIn(entries, p) && Walker.IsSourceName(p[|p| - 1]) && Walker.NoIgnoredAncestor(p, [], ignored)
  {
    var files := Walker.Walk(entries, [], ignored);
    var kept := Filter(InFolder(ParentParts(p)), files);
    AnalyzeCodeFiles(entries, ignored, parse, ParentParts(p));
    MapMembers(Analyzed(parse), kept, AnalyzeFile(p, parse(p)));
    FilterMembers(InFolder(ParentParts(p)), files);
    Walker.WalkExact(entries, [], ignored, p);
    assert p[0..] == p;
  }

  /** The result is named throughout when the listing is. */
  lemma AnalyzeCodeNamed(entries: seq<Walker.Entry>, ignored: Path -> bool, parse: Path -> SourceSummary)
    requires Walker.ValidNames(entries)
    ensures NamedBelow(AnalyzeCode(entries, ignored, parse))
  {
    var files := Walker.Walk(entries, [], ignored);
    WalkedPaths(entries, ignored);
    AnalyzedAttachable(files, parse);
    CleanTreeNamed(Map(Analyzed(parse), files));
  }

  lemma CleanTreeNamed(infos: seq<FileInfo>)
    requires forall k :: 0 <= k < |infos| ==> Attachable(infos[k])
    ensures NamedBelow(Cleanup(BuildFrom(Root, infos)))
  {
    assert NamedBelow(Root);
    BuildNamed(Root, infos);
    CleanupNamed(BuildFrom(Root, infos));
  }

  /** Every directory of the result holds a record in or below it: the
      cleanup's lack of cascading leaves no empty directory behind. */
  lemma AnalyzeCodePopulated(entries: seq<Walker.Entry>, ignored: Path -> bool, parse: Path -> SourceSummary)
    requires Walker.ValidNames(entries)
    ensures Populated(AnalyzeCode(entries, ignored, parse))
  {
    var files := Walker.Walk(entries, [], ignored);
    var infos := Map(Analyzed(parse), files);
    WalkedPaths(entries, ignored);
    AnalyzedAttachable(files, parse);
    forall k | 0 <= k < |infos| ensures FilePath(infos[k].path) {
      assert infos[k].path[0] != [];
    }
    BuildPopulated(Root, infos);
    CleanupPopulated(BuildFrom(Root, infos));
  }

  /** The graph the visualisation command draws for a workspace: its nodes
      are the named entries of the analysed tree in pre-order, node `k`
      has id `k`, and every link joins two nodes, a hierarchy link one
      level down (top-level entries from node 0), a dependency from a
      file. */
  lemma ShowGraph(entries: seq<Walker.Entry>, ignored: Path -> bool, parse: Path -> SourceSummary, onDisk: string -> bool)
    requires Walker.ValidNames(entries)
    ensures var tree := AnalyzeCode(entries, ignored, parse);
            var g := GenerateGraph(tree, onDisk);
            && Map(NodeName, g.nodes) == Listing(tree)
            && (forall k :: 0 <= k < |g.nodes| ==> g.nodes[k].id == k)
            && forall k :: 0 <= k < |g.links| ==>
                 var l := g.links[k];
                 l.source < |g.nodes| && l.target.Index? && l.target.index < |g.nodes|
                 && (l.kind == Hierarchy ==> DepthStep(g.nodes, l.source, l.target.index))
                 && (l.kind == Dependency ==> !g.nodes[l.source].isDirectory)
  {
    var tree := AnalyzeCode(entries, ignored, parse);
    AnalyzeCodeNamed(entries, ignored, parse);
    GraphNames(tree, onDisk);
    GraphSound(tree, onDisk);
  }

  /** A directory that holds only files loses its map to the cleanup, so
      the graph draws it with `isDirectory` false: `src/a.ts` alone gives
      the node `src`, not marked as a directory, then the file below it. */
  lemma FilesOnlyDirectoryIsNotMarked(info: FileInfo, onDisk: string -> bool)
    requires info.name != []
    ensures var tree := Cleanup(AddFile(Root, ["src", "a.ts"], info));
            var g := GenerateGraph(tree, onDisk);
            |g.nodes| == 2
            && g.nodes[0] == GraphNode(0, "src", false, 1, None, None)
            && g.nodes[1].name == info.name && !g.nodes[1].isDirectory && g.nodes[1].depth == 2
  {
    var src := Dir("src", Some([info]), Directories([]));
    assert FilesOf(EmptyDir("src")) + [info] == [info];
    assert AddFile(EmptyDir("src"), ["a.ts"], info) == src;
    var leaf := Dir("src", Some([info]), NoDirectories);
    var tree := Dir("", None, Directories([leaf]));
    assert Cleanup(src) == leaf;
    assert Cleanup(AddFile(Root, ["src", "a.ts"], info)) == tree;
    var g := GenerateGraph(tree, onDisk);
    GraphNames(tree, onDisk);
    assert FileNames([info]) == [info.name];
    assert Listing(leaf) == ["src", info.name];
    assert ListingAll([leaf]) == Listing(leaf);
    assert Listing(tree) == ["src", info.name];
    var st0 := GState([], [], map[]);
    var s1 := EnterDir(leaf, Some(0), "src", 1, st0);
    assert s1.nodes == [GraphNode(0, "src", false, 1, None, None)];
    assert VisitSubdirs(leaf, 0, "src", 2, s1, onDisk) == s1;
    var s2 := VisitFile(info, 0, 2, s1, onDisk);
    assert VisitFiles([info], 0, 2, s1, onDisk) == VisitFiles([], 0, 2, s2, onDisk) == s2;
    assert VisitDir(leaf, Some(0), "src", 1, st0, onDisk) == s2;
    assert ChildPath("", "src") == "src";
    assert VisitDirs([leaf], 0, "", 1, st0, onDisk) == s2;
    assert VisitDir(tree, None, "", 0, st0, onDisk) == s2;
  }
}
