/** `generateD3Data`: the node-link graph drawn from the directory tree.
    A pre-order walk numbers every named directory and file, links each to
    the index its parent was visited at, and records each internal import
    of a file as a dependency on a resolved path; a final pass keeps the
    dependencies whose path names a visited node. The file-system check of
    the resolver is the parameter `onDisk`. */
module Graph {
  import opened Strings
  import opened Seqs
  import opened Paths
  import opened Records
  import opened Structure

  datatype GraphNode = GraphNode(
    id: nat,
    name: string,
    isDirectory: bool,
    depth: nat,
    description: Option<string>,
    functions: Option<nat>)

  /** A link end: a node index, or a path still to be resolved. */
  datatype Target = Index(index: nat) | Unresolved(path: string)

  datatype LinkKind = Hierarchy | Dependency

  datatype Link = Link(source: nat, target: Target, kind: LinkKind, isResolved: bool)

  /** The walk's state: the nodes and links so far, and the map from a
      node's path to the index it was visited at. */
  datatype GState = GState(nodes: seq<GraphNode>, links: seq<Link>, ids: map<string, nat>)

  datatype D3Graph = D3Graph(nodes: seq<GraphNode>, links: seq<Link>)

  /** `path.join(parentPath, name)`, or the name itself at the top. */
  function ChildPath(parentPath: string, name: string): string {
    if parentPath != [] then Text(JoinPaths(PathOf(parentPath), PathOf(name))) else name
  }

  /** The first candidate `base + ext`, in extension order, that is a
      visited path or exists on disk; `base` when there is none. */
  function ProbeFrom(base: string, k: nat, ids: map<string, nat>, onDisk: string -> bool): string
    decreases |SourceExtensions| - k
  {
    if k >= |SourceExtensions| then base
    else
      var candidate := base + SourceExtensions[k];
      if candidate in ids || onDisk(candidate) then candidate else ProbeFrom(base, k + 1, ids, onDisk)
  }

  /** Extensions are probed only for a path without one. */
  function Probe(base: string, ids: map<string, nat>, onDisk: string -> bool): string {
    if HasExtension(PathOf(base)) then base else ProbeFrom(base, 0, ids, onDisk)
  }

  /** The path an internal import of the file at `nodePath` is resolved
      to: a relative import against the file's directory, the `@/` alias
      to `src/`, anything else as written. */
  function Resolve(specifier: string, nodePath: string, ids: map<string, nat>, onDisk: string -> bool): string {
    if StartsWith(specifier, ".") then
      Probe(Text(Normalize(JoinPaths(Dirname(PathOf(nodePath)), PathOf(specifier)))), ids, onDisk)
    else if StartsWith(specifier, "@/") then
      Probe("src/" + specifier[2..], ids, onDisk)
    else specifier
  }

  /** An `@/` import resolves below `src/`: to `src/` and the rest, or to
      that with the first extension that matches when it has none. */
  lemma ResolveAlias(specifier: string, nodePath: string, ids: map<string, nat>, onDisk: string -> bool)
    requires StartsWith(specifier, "@/")
    ensures var base := "src/" + specifier[2..];
            var r := Resolve(specifier, nodePath, ids, onDisk);
            || (r == base && (HasExtension(PathOf(base)) || forall j :: 0 <= j < |SourceExtensions| ==> !Matches(base, j, ids, onDisk)))
            || (!HasExtension(PathOf(base)) &&
                exists j :: 0 <= j < |SourceExtensions| && r == base + SourceExtensions[j]
                  && Matches(base, j, ids, onDisk)
                  && forall i :: 0 <= i < j ==> !Matches(base, i, ids, onDisk))
  {
    assert specifier[0] == '@';
    ProbeFromFirst("src/" + specifier[2..], 0, ids, onDisk);
  }

  predicate Matches(base: string, k: nat, ids: map<string, nat>, onDisk: string -> bool)
    requires k < |SourceExtensions|
  {
    base + SourceExtensions[k] in ids || onDisk(base + SourceExtensions[k])
  }

  /** Probing picks the first extension that matches, or none. */
  lemma {:induction false} ProbeFromFirst(base: string, k: nat, ids: map<string, nat>, onDisk: string -> bool)
    requires k <= |SourceExtensions|
    ensures var r := ProbeFrom(base, k, ids, onDisk);
            || (r == base && forall j :: k <= j < |SourceExtensions| ==> !Matches(base, j, ids, onDisk))
            || (exists j :: k <= j < |SourceExtensions| && r == base + SourceExtensions[j]
                  && Matches(base, j, ids, onDisk)
                  && forall i :: k <= i < j ==> !Matches(base, i, ids, onDisk))
    decreases |SourceExtensions| - k
  {
    if k < |SourceExtensions| && !Matches(base, k, ids, onDisk) {
      ProbeFromFirst(base, k + 1, ids, onDisk);
    }
  }

  /** A relative import resolves against the importing file's directory:
      to the normalized join, or to it with the first extension that
      matches when it has none. */
  lemma ResolveRelative(specifier: string, nodePath: string, ids: map<string, nat>, onDisk: string -> bool)
    requires StartsWith(specifier, ".")
    ensures var base := Text(JoinPaths(Dirname(PathOf(nodePath)), PathOf(specifier)));
            var r := Resolve(specifier, nodePath, ids, onDisk);
            || (r == base && (HasExtension(PathOf(base)) || forall j :: 0 <= j < |SourceExtensions| ==> !Matches(base, j, ids, onDisk)))
            || (!HasExtension(PathOf(base)) &&
                exists j :: 0 <= j < |SourceExtensions| && r == base + SourceExtensions[j]
                  && Matches(base, j, ids, onDisk)
                  && forall i :: 0 <= i < j ==> !Matches(base, i, ids, onDisk))
  {
    var p := Dirname(PathOf(nodePath));
    NormalizeIdempotent(if p == [] then PathOf(specifier) else if PathOf(specifier) == [] then p else p + PathOf(specifier));
    ProbeFromFirst(Text(JoinPaths(p, PathOf(specifier))), 0, ids, onDisk);
  }

  /** A sibling import of a visited file resolves to it. */
  lemma SiblingImport(ids: map<string, nat>, onDisk: string -> bool)
    requires "src/b.ts" in ids
    ensures Resolve("./b", "src/a.ts", ids, onDisk) == "src/b.ts"
  {
    SiblingBase(ids, onDisk);
    SiblingProbe(ids, onDisk);
  }

  lemma SiblingBase(ids: map<string, nat>, onDisk: string -> bool)
    ensures Resolve("./b", "src/a.ts", ids, onDisk) == Probe("src/b", ids, onDisk)
  {
    TwoSegments("src", "a.ts");
    assert "src" + "/" + "a.ts" == "src/a.ts";
    TwoSegments(".", "b");
    assert "." + "/" + "b" == "./b";
    SiblingNormalize();
    assert StartsWith("./b", ".");
  }

  lemma SiblingProbe(ids: map<string, nat>, onDisk: string -> bool)
    requires "src/b.ts" in ids
    ensures Probe("src/b", ids, onDisk) == "src/b.ts"
  {
    TwoSegments("src", "b");
    assert "src" + "/" + "b" == "src/b";
    assert LastName(["src", "b"]) == "b";
    assert !HasExtension(PathOf("src/b"));
    assert "src/b" + SourceExtensions[0] == "src/b.ts";
  }

  /** The path of `a/b` for two plain names. */
  lemma TwoSegments(a: string, b: string)
    requires a != [] && b != [] && '/' !in a && '/' !in b
    ensures PathOf(a + "/" + b) == [a, b]
  {
    assert [a, b][1..] == [b];
    assert Join([b], '/') == b;
    assert Join([a, b], '/') == a + ['/'] + b;
    PathOfText([a, b]);
  }

  lemma SiblingNormalize()
    ensures Text(Normalize(JoinPaths(Dirname(["src", "a.ts"]), [".", "b"]))) == "src/b"
  {
    assert Dirname(["src", "a.ts"]) == ["src"];
    assert ["src"] + [".", "b"] == ["src", ".", "b"];
    assert ResolveFrom([], ["src", ".", "b"], true) == ["src", "b"];
    assert JoinPaths(["src"], [".", "b"]) == ["src", "b"];
    assert ResolveFrom([], ["src", "b"], true) == ["src", "b"];
    assert Normalize(["src", "b"]) == ["src", "b"];
    assert Text(["src", "b"]) == "src/b";
  }

  /** The node and links a visited entry with this name contributes. */
  function Emit(st: GState, parent: Option<nat>, node: GraphNode, deps: seq<string>): (r: GState)
    ensures |r.nodes| == |st.nodes| + 1 && r.nodes[..|st.nodes|] == st.nodes
    ensures st.links <= r.links && r.ids == st.ids
  {
    var cur := |st.nodes|;
    var hierarchy := if parent.Some? then [Link(parent.value, Index(cur), Hierarchy, false)] else [];
    var dependencies := Map((d: string) => Link(cur, Unresolved(d), Dependency, false), deps);
    GState(st.nodes + [node], st.links + hierarchy + dependencies, st.ids)
  }

  /** `nodeMap.set(nodePath, currentIndex)` when the path is not empty. */
  function Register(st: GState, nodePath: string): (r: GState)
    ensures r.nodes == st.nodes && r.links == st.links
  {
    if nodePath != [] then st.(ids := st.ids[nodePath := |st.nodes|]) else st
  }

  /** `processNode` on a directory: registered, emitted when named, then
      its subdirectories and its files one level deeper, with the index it
      was visited at as their parent. (An absent or empty file list is
      skipped by the source and visits nothing here.) */
  function VisitDir(d: Dir, parent: Option<nat>, nodePath: string, depth: nat, st: GState, onDisk: string -> bool): (r: GState)
    ensures st.nodes <= r.nodes && st.links <= r.links
    decreases d, 2
  {
    var cur := |st.nodes|;
    var st1 := EnterDir(d, parent, nodePath, depth, st);
    var st2 := VisitSubdirs(d, cur, nodePath, depth + 1, st1, onDisk);
    VisitFiles(FilesOf(d), cur, depth + 1, st2, onDisk)
  }

  /** The node a named directory contributes. */
  function EnterDir(d: Dir, parent: Option<nat>, nodePath: string, depth: nat, st: GState): (r: GState)
    ensures st.nodes <= r.nodes && st.links <= r.links
  {
    var st1 := Register(st, nodePath);
    if d.name != [] then Emit(st1, parent, GraphNode(|st.nodes|, d.name, d.directories.Directories?, depth, None, None), [])
    else st1
  }

  function VisitSubdirs(d: Dir, cur: nat, nodePath: string, depth: nat, st: GState, onDisk: string -> bool): (r: GState)
    ensures st.nodes <= r.nodes && st.links <= r.links
    decreases d, 1
  {
    match d.directories
    case Directories(es) => VisitDirs(es, cur, nodePath, depth, st, onDisk)
    case NoDirectories => st
  }

  function VisitDirs(es: seq<Dir>, parent: nat, parentPath: string, depth: nat, st: GState, onDisk: string -> bool): (r: GState)
    ensures st.nodes <= r.nodes && st.links <= r.links
    decreases es, 0
  {
    if es == [] then st
    else
      var st1 := VisitDir(es[0], Some(parent), ChildPath(parentPath, es[0].name), depth, st, onDisk);
      VisitDirs(es[1..], parent, parentPath, depth, st1, onDisk)
  }

  /** The description and function count a file node carries. */
  function Description(f: FileInfo): Option<string> {
    if f.fileDescription.Some? && f.fileDescription.value != [] then f.fileDescription else None
  }

  function FunctionCount(f: FileInfo): Option<nat> {
    if f.functions.Some? && |f.functions.value| > 0 then Some(|f.functions.value|) else None
  }

  /** `processNode` on a file: registered under its path, emitted when
      named with one dependency per internal import, resolved against the
      paths registered so far. */
  function VisitFile(f: FileInfo, parent: nat, depth: nat, st: GState, onDisk: string -> bool): (r: GState)
    ensures st.nodes <= r.nodes && st.links <= r.links
  {
    var cur := |st.nodes|;
    var nodePath := Text(f.path);
    var st1 := Register(st, nodePath);
    if f.name == [] then st1
    else
      var imports := if f.internalImports.Some? then f.internalImports.value else [];
      var deps := Map((spec: string) => Resolve(spec, nodePath, st1.ids, onDisk), imports);
      var r := Emit(st1, Some(parent), GraphNode(cur, f.name, false, depth, Description(f), FunctionCount(f)), deps);
      assert r.nodes[..|st.nodes|] == st.nodes;
      r
  }

  function VisitFiles(fs: seq<FileInfo>, parent: nat, depth: nat, st: GState, onDisk: string -> bool): (r: GState)
    ensures st.nodes <= r.nodes && st.links <= r.links
    decreases |fs|
  {
    if fs == [] then st else VisitFiles(fs[1..], parent, depth, VisitFile(fs[0], parent, depth, st, onDisk), onDisk)
  }

  /** The link the final pass keeps, if any: hierarchy links as they are,
      a dependency with its path replaced by the node index the path maps
      to. */
  function Keep(l: Link, ids: map<string, nat>): seq<Link> {
    if l.kind == Hierarchy || l.isResolved then [l]
    else if l.target.Unresolved? && l.target.path in ids then
      [l.(target := Index(ids[l.target.path]), isResolved := true)]
    else []
  }

  function Finalize(links: seq<Link>, ids: map<string, nat>): seq<Link> {
    FlatMap((l: Link) => Keep(l, ids), links)
  }

  /** `generateD3Data` as written: the final pass binds each dependency
      path as the walk left it, so a relative import of a file visited
      after the importer keeps its extension-less path and is dropped. */
  function GenerateGraphAsWritten(root: Dir, onDisk: string -> bool): D3Graph {
    var st := VisitDir(root, None, "", 0, GState([], [], map[]), onDisk);
    D3Graph(st.nodes, Finalize(st.links, st.ids))
  }

  /** No path exists on disk: the re-probe consults visited paths only. */
  function NoDisk(p: string): bool {
    false
  }

  /** An unbound dependency with its path probed for extensions again, now
      against every visited path; any other link as it is. */
  function Retarget(l: Link, ids: map<string, nat>): Link {
    if l.kind == Dependency && !l.isResolved && l.target.Unresolved? then
      l.(target := Unresolved(Probe(l.target.path, ids, NoDisk)))
    else l
  }

  function Reprobe(links: seq<Link>, ids: map<string, nat>): seq<Link> {
    Map((l: Link) => Retarget(l, ids), links)
  }

  /** `generateD3Data` on the structure whose root is `root`, with the
      extension probe of every unbound dependency repeated against the
      complete path map before the final pass binds it, so that the order
      of the walk does not decide which imports are drawn. */
  function GenerateGraph(root: Dir, onDisk: string -> bool): D3Graph {
    var st := VisitDir(root, None, "", 0, GState([], [], map[]), onDisk);
    D3Graph(st.nodes, Finalize(Reprobe(st.links, st.ids), st.ids))
  }

  function NodeName(n: GraphNode): string {
    n.name
  }

  /** The names of the named entries of the tree, in pre-order with a
      directory's subdirectories before its files: the reference listing
      of what the walk emits. */
  function Listing(d: Dir): seq<string>
    decreases d, 1
  {
    (if d.name != [] then [d.name] else [])
    + (match d.directories case Directories(es) => ListingAll(es) case NoDirectories => [])
    + FileNames(FilesOf(d))
  }

  function ListingAll(es: seq<Dir>): seq<string>
    decreases es, 0
  {
    if es == [] then [] else Listing(es[0]) + ListingAll(es[1..])
  }

  function FileNames(fs: seq<FileInfo>): seq<string> {
    if fs == [] then [] else (if fs[0].name != [] then [fs[0].name] else []) + FileNames(fs[1..])
  }

  /** The new nodes a visit appends, by name. */
  function NewNames(st: GState, r: GState): seq<string>
    requires st.nodes <= r.nodes
  {
    Map(NodeName, r.nodes[|st.nodes|..])
  }

  lemma NewNamesChain(a: GState, b: GState, c: GState)
    requires a.nodes <= b.nodes <= c.nodes
    ensures NewNames(a, c) == NewNames(a, b) + NewNames(b, c)
  {
    assert c.nodes[|a.nodes|..] == b.nodes[|a.nodes|..] + c.nodes[|b.nodes|..];
    MapAppend(NodeName, b.nodes[|a.nodes|..], c.nodes[|b.nodes|..]);
  }

  /** The walk emits exactly the named entries, in pre-order. */
  lemma {:induction false} VisitDirNames(d: Dir, parent: Option<nat>, nodePath: string, depth: nat, st: GState, onDisk: string -> bool)
    ensures NewNames(st, VisitDir(d, parent, nodePath, depth, st, onDisk)) == Listing(d)
    decreases d, 2
  {
    var cur := |st.nodes|;
    var st1 := EnterDir(d, parent, nodePath, depth, st);
    var st2 := VisitSubdirs(d, cur, nodePath, depth + 1, st1, onDisk);
    var r := VisitFiles(FilesOf(d), cur, depth + 1, st2, onDisk);
    assert NewNames(st, st1) == if d.name != [] then [d.name] else [];
    VisitSubdirsNames(d, cur, nodePath, depth + 1, st1, onDisk);
    VisitFilesNames(FilesOf(d), cur, depth + 1, st2, onDisk);
    NewNamesChain(st, st1, st2);
    NewNamesChain(st, st2, r);
  }

  lemma {:induction false} VisitSubdirsNames(d: Dir, cur: nat, nodePath: string, depth: nat, st: GState, onDisk: string -> bool)
    ensures NewNames(st, VisitSubdirs(d, cur, nodePath, depth, st, onDisk))
            == match d.directories case Directories(es) => ListingAll(es) case NoDirectories => []
    decreases d, 1
  {
    match d.directories
    case Directories(es) => VisitDirsNames(es, cur, nodePath, depth, st, onDisk);
    case NoDirectories =>
  }

  lemma {:induction false} VisitDirsNames(es: seq<Dir>, parent: nat, parentPath: string, depth: nat, st: GState, onDisk: string -> bool)
    ensures NewNames(st, VisitDirs(es, parent, parentPath, depth, st, onDisk)) == ListingAll(es)
    decreases es, 0
  {
    if es != [] {
      var st1 := VisitDir(es[0], Some(parent), ChildPath(parentPath, es[0].name), depth, st, onDisk);
      VisitDirNames(es[0], Some(parent), ChildPath(parentPath, es[0].name), depth, st, onDisk);
      VisitDirsNames(es[1..], parent, parentPath, depth, st1, onDisk);
      NewNamesChain(st, st1, VisitDirs(es, parent, parentPath, depth, st, onDisk));
    }
  }

  lemma {:induction false} VisitFilesNames(fs: seq<FileInfo>, parent: nat, depth: nat, st: GState, onDisk: string -> bool)
    ensures NewNames(st, VisitFiles(fs, parent, depth, st, onDisk)) == FileNames(fs)
    decreases |fs|
  {
    if fs != [] {
      var st1 := VisitFile(fs[0], parent, depth, st, onDisk);
      assert NewNames(st, st1) == if fs[0].name != [] then [fs[0].name] else [];
      VisitFilesNames(fs[1..], parent, depth, st1, onDisk);
      NewNamesChain(st, st1, VisitFiles(fs, parent, depth, st, onDisk));
    }
  }

  /** The graph's nodes are the named entries of the tree, in pre-order. */
  lemma GraphNames(root: Dir, onDisk: string -> bool)
    ensures Map(NodeName, GenerateGraph(root, onDisk).nodes) == Listing(root)
  {
    var st0 := GState([], [], map[]);
    VisitDirNames(root, None, "", 0, st0, onDisk);
    var r := VisitDir(root, None, "", 0, st0, onDisk);
    assert r.nodes[0..] == r.nodes;
  }

  /** A hierarchy link goes one level down, except that every top-level
      entry is linked from index 0: the unnamed root hands its own index,
      0, to its children, and 0 is the first named entry's index. */
  predicate DepthStep(nodes: seq<GraphNode>, source: nat, target: nat)
    requires source < |nodes| && target < |nodes|
  {
    nodes[target].depth == nodes[source].depth + 1 || (nodes[target].depth == 1 && source == 0)
  }

  /** A link as the walk leaves it: its source is a node; a hierarchy link
      ends at a node one level down; a dependency starts at a file and
      still names a path. */
  predicate LinkSound(nodes: seq<GraphNode>, l: Link) {
    && l.source < |nodes|
    && (l.kind == Hierarchy ==>
          l.target.Index? && l.target.index < |nodes| && DepthStep(nodes, l.source, l.target.index) && !l.isResolved)
    && (l.kind == Dependency ==> l.target.Unresolved? && !l.isResolved && !nodes[l.source].isDirectory)
  }

  /** The walk's invariant: node `k` has id `k`, every registered path maps
      to a node, every link is sound. */
  predicate Sound(st: GState) {
    && (forall k :: 0 <= k < |st.nodes| ==> st.nodes[k].id == k)
    && (forall p :: p in st.ids ==> st.ids[p] < |st.nodes|)
    && (forall k :: 0 <= k < |st.links| ==> LinkSound(st.nodes, st.links[k]))
  }

  /** Sound, except that a path may be registered for the node about to
      be emitted. */
  predicate Pending(st: GState) {
    && (forall k :: 0 <= k < |st.nodes| ==> st.nodes[k].id == k)
    && (forall p :: p in st.ids ==> st.ids[p] <= |st.nodes|)
    && (forall k :: 0 <= k < |st.links| ==> LinkSound(st.nodes, st.links[k]))
  }

  lemma RegisterPending(st: GState, nodePath: string)
    requires Sound(st)
    ensures Pending(Register(st, nodePath))
  {
  }

  /** The index handed to the children visited at `depth` is a node one
      level up, or the root's 0 at the top level. */
  predicate ParentOk(st: GState, parent: nat, depth: nat) {
    (depth == 1 && parent == 0) || (parent < |st.nodes| && st.nodes[parent].depth + 1 == depth)
  }

  lemma SoundExtends(st: GState, r: GState)
    requires Pending(st) && st.nodes <= r.nodes
    ensures forall k :: 0 <= k < |st.links| ==> LinkSound(r.nodes, st.links[k])
  {
    forall k | 0 <= k < |st.links| ensures LinkSound(r.nodes, st.links[k]) {
      var l := st.links[k];
      assert LinkSound(st.nodes, l);
      assert r.nodes[l.source] == st.nodes[l.source];
      if l.kind == Hierarchy {
        assert r.nodes[l.target.index] == st.nodes[l.target.index];
      }
    }
  }

  lemma ParentOkExtends(st: GState, r: GState, parent: nat, depth: nat)
    requires ParentOk(st, parent, depth) && st.nodes <= r.nodes
    ensures ParentOk(r, parent, depth)
  {
    if parent < |st.nodes| {
      assert r.nodes[parent] == st.nodes[parent];
    }
  }

  /** Emitting a node at the next index, linked from a parent that is
      `ParentOk`, keeps the walk sound. */
  lemma EmitSound(st: GState, parent: Option<nat>, node: GraphNode, deps: seq<string>)
    requires Pending(st) && node.id == |st.nodes|
    requires deps != [] ==> !node.isDirectory
    requires parent.Some? ==> ParentOk(st, parent.value, node.depth)
    ensures Sound(Emit(st, parent, node, deps))
  {
    var r := Emit(st, parent, node, deps);
    var cur := |st.nodes|;
    SoundExtends(st, r);
    assert r.nodes == st.nodes + [node];
    var hierarchy := if parent.Some? then [Link(parent.value, Index(cur), Hierarchy, false)] else [];
    var dependencies := Map((d: string) => Link(cur, Unresolved(d), Dependency, false), deps);
    assert r.links == st.links + hierarchy + dependencies;
    if parent.Some? && parent.value < |st.nodes| {
      assert r.nodes[parent.value] == st.nodes[parent.value];
    }
    forall k | |st.links| <= k < |r.links| ensures LinkSound(r.nodes, r.links[k]) {
      if k < |st.links| + |hierarchy| {
        assert r.links[k] == hierarchy[0];
      } else {
        assert r.links[k] == dependencies[k - |st.links| - |hierarchy|];
      }
    }
  }

  lemma {:induction false} VisitDirSound(d: Dir, parent: Option<nat>, nodePath: string, depth: nat, st: GState, onDisk: string -> bool)
    requires Sound(st) && NamedBelow(d)
    requires d.name != [] ==> parent.Some? ==> ParentOk(st, parent.value, depth)
    requires d.name == [] ==> depth == 0 && st.nodes == [] && nodePath == []
    ensures Sound(VisitDir(d, parent, nodePath, depth, st, onDisk))
    decreases d, 3
  {
    EnterDirSound(d, parent, nodePath, depth, st);
    VisitContentsSound(d, |st.nodes|, nodePath, depth + 1, EnterDir(d, parent, nodePath, depth, st), onDisk);
  }

  /** The subdirectories, then the files, of a directory entered at
      index `cur`. */
  lemma {:induction false} VisitContentsSound(d: Dir, cur: nat, nodePath: string, depth: nat, st: GState, onDisk: string -> bool)
    requires Sound(st) && NamedBelow(d) && ParentOk(st, cur, depth)
    ensures Sound(VisitFiles(FilesOf(d), cur, depth, VisitSubdirs(d, cur, nodePath, depth, st, onDisk), onDisk))
    decreases d, 2
  {
    var st2 := VisitSubdirs(d, cur, nodePath, depth, st, onDisk);
    VisitSubdirsSound(d, cur, nodePath, depth, st, onDisk);
    ParentOkExtends(st, st2, cur, depth);
    VisitFilesSound(FilesOf(d), cur, depth, st2, onDisk);
  }

  /** Entering a directory keeps the walk sound and makes its index a
      proper parent for the level below. */
  lemma EnterDirSound(d: Dir, parent: Option<nat>, nodePath: string, depth: nat, st: GState)
    requires Sound(st)
    requires d.name != [] ==> parent.Some? ==> ParentOk(st, parent.value, depth)
    requires d.name == [] ==> depth == 0 && st.nodes == [] && nodePath == []
    ensures Sound(EnterDir(d, parent, nodePath, depth, st))
    ensures ParentOk(EnterDir(d, parent, nodePath, depth, st), |st.nodes|, depth + 1)
  {
    var cur := |st.nodes|;
    var st1 := EnterDir(d, parent, nodePath, depth, st);
    var st0 := Register(st, nodePath);
    RegisterPending(st, nodePath);
    if d.name != [] {
      EmitSound(st0, parent, GraphNode(cur, d.name, d.directories.Directories?, depth, None, None), []);
      assert st1.nodes[cur].depth == depth;
    } else {
      assert st1 == st0;
    }
  }

  lemma {:induction false} VisitSubdirsSound(d: Dir, cur: nat, nodePath: string, depth: nat, st: GState, onDisk: string -> bool)
    requires Sound(st) && NamedBelow(d) && ParentOk(st, cur, depth)
    ensures Sound(VisitSubdirs(d, cur, nodePath, depth, st, onDisk))
    decreases d, 1
  {
    if d.directories.Directories? {
      VisitDirsSound(d.directories.entries, cur, nodePath, depth, st, onDisk);
    }
  }

  lemma {:induction false} VisitDirsSound(es: seq<Dir>, parent: nat, parentPath: string, depth: nat, st: GState, onDisk: string -> bool)
    requires Sound(st) && AllNamed(es) && ParentOk(st, parent, depth)
    ensures Sound(VisitDirs(es, parent, parentPath, depth, st, onDisk))
    decreases es, 0
  {
    if es != [] {
      var st1 := VisitDir(es[0], Some(parent), ChildPath(parentPath, es[0].name), depth, st, onDisk);
      VisitDirSound(es[0], Some(parent), ChildPath(parentPath, es[0].name), depth, st, onDisk);
      ParentOkExtends(st, st1, parent, depth);
      VisitDirsSound(es[1..], parent, parentPath, depth, st1, onDisk);
    }
  }

  lemma {:induction false} VisitFilesSound(fs: seq<FileInfo>, parent: nat, depth: nat, st: GState, onDisk: string -> bool)
    requires Sound(st) && FilesNamed(fs) && ParentOk(st, parent, depth)
    ensures Sound(VisitFiles(fs, parent, depth, st, onDisk))
    decreases |fs|
  {
    if fs != [] {
      var f := fs[0];
      var st0 := Register(st, Text(f.path));
      RegisterPending(st, Text(f.path));
      var imports := if f.internalImports.Some? then f.internalImports.value else [];
      var deps := Map((spec: string) => Resolve(spec, Text(f.path), st0.ids, onDisk), imports);
      EmitSound(st0, Some(parent), GraphNode(|st.nodes|, f.name, false, depth, Description(f), FunctionCount(f)), deps);
      var st1 := VisitFile(f, parent, depth, st, onDisk);
      ParentOkExtends(st, st1, parent, depth);
      assert FilesNamed(fs[1..]) by {
        assert forall k :: 0 <= k < |fs[1..]| ==> fs[1..][k] == fs[k + 1];
      }
      VisitFilesSound(fs[1..], parent, depth, st1, onDisk);
    }
  }

  /** The final pass: every link it keeps is resolved to node indices. */
  lemma {:induction false} FinalizeSound(nodes: seq<GraphNode>, links: seq<Link>, ids: map<string, nat>)
    requires forall p :: p in ids ==> ids[p] < |nodes|
    requires forall k :: 0 <= k < |links| ==> LinkSound(nodes, links[k])
    ensures forall k :: 0 <= k < |Finalize(links, ids)| ==>
              var l := Finalize(links, ids)[k];
              l.source < |nodes| && l.target.Index? && l.target.index < |nodes|
              && (l.kind == Hierarchy ==> DepthStep(nodes, l.source, l.target.index))
              && (l.kind == Dependency ==> !nodes[l.source].isDirectory)
    decreases |links|
  {
    if links != [] {
      var head := Keep(links[0], ids);
      var rest := Finalize(links[1..], ids);
      assert LinkSound(nodes, links[0]);
      FinalizeSound(nodes, links[1..], ids);
      assert Finalize(links, ids) == head + rest;
      forall k | |head| <= k < |head + rest| ensures (head + rest)[k] == rest[k - |head|] {
      }
    }
  }

  /** The graph's shape: node `k` has id `k`, and every link of the result
      joins two nodes, a hierarchy link one level down (top-level entries
      from node 0), a dependency from a file, when every entry below the
      unnamed root is named. */
  lemma GraphSound(root: Dir, onDisk: string -> bool)
    requires root.name == [] && NamedBelow(root)
    ensures var g := GenerateGraph(root, onDisk);
            && (forall k :: 0 <= k < |g.nodes| ==> g.nodes[k].id == k)
            && forall k :: 0 <= k < |g.links| ==>
                 var l := g.links[k];
                 l.source < |g.nodes| && l.target.Index? && l.target.index < |g.nodes|
                 && (l.kind == Hierarchy ==> DepthStep(g.nodes, l.source, l.target.index))
                 && (l.kind == Dependency ==> !g.nodes[l.source].isDirectory)
  {
    var st0 := GState([], [], map[]);
    VisitDirSound(root, None, "", 0, st0, onDisk);
    var st := VisitDir(root, None, "", 0, st0, onDisk);
    ReprobeSound(st.nodes, st.links, st.ids);
    FinalizeSound(st.nodes, Reprobe(st.links, st.ids), st.ids);
  }

  /** The same shape for the graph as the code draws it, without the
      second probe. */
  lemma GraphSoundAsWritten(root: Dir, onDisk: string -> bool)
    requires root.name == [] && NamedBelow(root)
    ensures var g := GenerateGraphAsWritten(root, onDisk);
            && (forall k :: 0 <= k < |g.nodes| ==> g.nodes[k].id == k)
            && forall k :: 0 <= k < |g.links| ==>
                 var l := g.links[k];
                 l.source < |g.nodes| && l.target.Index? && l.target.index < |g.nodes|
                 && (l.kind == Hierarchy ==> DepthStep(g.nodes, l.source, l.target.index))
                 && (l.kind == Dependency ==> !g.nodes[l.source].isDirectory)
  {
    var st0 := GState([], [], map[]);
    VisitDirSound(root, None, "", 0, st0, onDisk);
    var st := VisitDir(root, None, "", 0, st0, onDisk);
    FinalizeSound(st.nodes, st.links, st.ids);
  }

  /** Re-probing keeps every link as the walk leaves it sound. */
  lemma ReprobeSound(nodes: seq<GraphNode>, links: seq<Link>, ids: map<string, nat>)
    requires forall k :: 0 <= k < |links| ==> LinkSound(nodes, links[k])
    ensures forall k :: 0 <= k < |Reprobe(links, ids)| ==> LinkSound(nodes, Reprobe(links, ids)[k])
  {
    assert forall k :: 0 <= k < |links| ==> Reprobe(links, ids)[k] == Retarget(links[k], ids);
  }

  predicate IsHierarchy(l: Link) {
    l.kind == Hierarchy
  }

  /** The final pass drops no hierarchy link and reorders none. */
  lemma {:induction false} FinalizeKeepsHierarchy(links: seq<Link>, ids: map<string, nat>)
    ensures Filter(IsHierarchy, Finalize(links, ids)) == Filter(IsHierarchy, links)
    decreases |links|
  {
    if links != [] {
      var head := Keep(links[0], ids);
      FinalizeKeepsHierarchy(links[1..], ids);
      assert Finalize(links, ids) == head + Finalize(links[1..], ids);
      FilterAppend(IsHierarchy, head, Finalize(links[1..], ids));
      FilterCons(IsHierarchy, links);
      if !IsHierarchy(links[0]) && head != [] {
        assert head == [head[0]] && !IsHierarchy(head[0]);
        FilterCons(IsHierarchy, head);
      }
    }
  }

  /** Re-probing touches no hierarchy link and reorders none. */
  lemma ReprobeKeepsHierarchy(links: seq<Link>, ids: map<string, nat>)
    ensures Filter(IsHierarchy, Reprobe(links, ids)) == Filter(IsHierarchy, links)
  {
    var f := (l: Link) => Retarget(l, ids);
    FilterMap(IsHierarchy, f, IsHierarchy, links);
    var h := Filter(IsHierarchy, links);
    assert forall k :: 0 <= k < |h| ==> Map(f, h)[k] == h[k];
  }

  /** No dependency link is resolved yet, as the walk leaves them. */
  predicate Unbound(links: seq<Link>) {
    forall k :: 0 <= k < |links| ==> links[k].kind == Dependency ==> links[k].target.Unresolved? && !links[k].isResolved
  }

  /** A dependency survives the final pass exactly when its path names a
      visited node, and then it points at that node's index. */
  lemma FinalizeBindsDependencies(links: seq<Link>, ids: map<string, nat>, source: nat, index: nat)
    requires Unbound(links)
    ensures Link(source, Index(index), Dependency, true) in Finalize(links, ids) <==>
            exists p :: Link(source, Unresolved(p), Dependency, false) in links && p in ids && ids[p] == index
  {
    var bound := Link(source, Index(index), Dependency, true);
    var keep := (l: Link) => Keep(l, ids);
    FlatMapMembers(keep, links, bound);
    if bound in Finalize(links, ids) {
      var l :| l in links && bound in keep(l);
      var k :| 0 <= k < |links| && links[k] == l;
      assert l.kind == Dependency && l.target.Unresolved? && !l.isResolved;
      assert l == Link(source, Unresolved(l.target.path), Dependency, false);
    }
    if exists p :: Link(source, Unresolved(p), Dependency, false) in links && p in ids && ids[p] == index {
      var p :| Link(source, Unresolved(p), Dependency, false) in links && p in ids && ids[p] == index;
      assert bound in keep(Link(source, Unresolved(p), Dependency, false));
    }
  }

  /** The walk links dependencies unresolved. */
  lemma SoundIsUnbound(st: GState)
    requires Sound(st)
    ensures Unbound(st.links)
  {
    assert forall k :: 0 <= k < |st.links| ==> LinkSound(st.nodes, st.links[k]);
  }

  /** Re-probing leaves the walk's dependencies unbound. */
  lemma ReprobeKeepsUnbound(links: seq<Link>, ids: map<string, nat>)
    requires Unbound(links)
    ensures Unbound(Reprobe(links, ids))
  {
    assert forall k :: 0 <= k < |links| ==> Reprobe(links, ids)[k] == Retarget(links[k], ids);
  }

  /** The unbound dependencies after re-probing are the walk's ones, each
      with its path probed again. */
  lemma ReprobeUnbound(links: seq<Link>, ids: map<string, nat>, source: nat, q: string)
    requires Unbound(links)
    ensures Link(source, Unresolved(q), Dependency, false) in Reprobe(links, ids) <==>
            exists p :: Link(source, Unresolved(p), Dependency, false) in links && q == Probe(p, ids, NoDisk)
  {
    var f := (l: Link) => Retarget(l, ids);
    var l' := Link(source, Unresolved(q), Dependency, false);
    MapMembers(f, links, l');
    if l' in Reprobe(links, ids) {
      var l :| l in links && l' == f(l);
      assert l.kind == Dependency;
      var k :| 0 <= k < |links| && links[k] == l;
      assert l == Link(source, Unresolved(l.target.path), Dependency, false);
    }
    if exists p :: Link(source, Unresolved(p), Dependency, false) in links && q == Probe(p, ids, NoDisk) {
      var p :| Link(source, Unresolved(p), Dependency, false) in links && q == Probe(p, ids, NoDisk);
      assert l' == f(Link(source, Unresolved(p), Dependency, false));
    }
  }

  /** The corrected final pass: a dependency survives exactly when its path,
      probed again against every visited path, names a visited node, and
      then it points at that node's index. */
  lemma ReprobeBindsDependencies(links: seq<Link>, ids: map<string, nat>, source: nat, index: nat)
    requires Unbound(links)
    ensures Link(source, Index(index), Dependency, true) in Finalize(Reprobe(links, ids), ids) <==>
            exists p :: Link(source, Unresolved(p), Dependency, false) in links
                        && Probe(p, ids, NoDisk) in ids && ids[Probe(p, ids, NoDisk)] == index
  {
    ReprobeKeepsUnbound(links, ids);
    FinalizeBindsDependencies(Reprobe(links, ids), ids, source, index);
    if exists q :: Link(source, Unresolved(q), Dependency, false) in Reprobe(links, ids) && q in ids && ids[q] == index {
      var q :| Link(source, Unresolved(q), Dependency, false) in Reprobe(links, ids) && q in ids && ids[q] == index;
      ReprobeUnbound(links, ids, source, q);
    }
    if exists p :: Link(source, Unresolved(p), Dependency, false) in links
                   && Probe(p, ids, NoDisk) in ids && ids[Probe(p, ids, NoDisk)] == index {
      var p :| Link(source, Unresolved(p), Dependency, false) in links
               && Probe(p, ids, NoDisk) in ids && ids[Probe(p, ids, NoDisk)] == index;
      ReprobeUnbound(links, ids, source, Probe(p, ids, NoDisk));
    }
  }

  /** The graph's dependencies as written: one per import of a file whose
      path, as resolved during the walk, was visited, pointing at the index
      it was visited at. */
  lemma GraphDependenciesAsWritten(root: Dir, onDisk: string -> bool, source: nat, index: nat)
    requires root.name == [] && NamedBelow(root)
    ensures var st := VisitDir(root, None, "", 0, GState([], [], map[]), onDisk);
            Link(source, Index(index), Dependency, true) in GenerateGraphAsWritten(root, onDisk).links <==>
            exists p :: Link(source, Unresolved(p), Dependency, false) in st.links && p in st.ids && st.ids[p] == index
  {
    var st0 := GState([], [], map[]);
    VisitDirSound(root, None, "", 0, st0, onDisk);
    var st := VisitDir(root, None, "", 0, st0, onDisk);
    SoundIsUnbound(st);
    FinalizeBindsDependencies(st.links, st.ids, source, index);
  }

  /** The graph's dependencies: one per import of a file whose path, as
      resolved during the walk and probed again against every visited
      path, was visited, pointing at the index it was visited at. */
  lemma GraphDependencies(root: Dir, onDisk: string -> bool, source: nat, index: nat)
    requires root.name == [] && NamedBelow(root)
    ensures var st := VisitDir(root, None, "", 0, GState([], [], map[]), onDisk);
            Link(source, Index(index), Dependency, true) in GenerateGraph(root, onDisk).links <==>
            exists p :: Link(source, Unresolved(p), Dependency, false) in st.links
                        && Probe(p, st.ids, NoDisk) in st.ids && st.ids[Probe(p, st.ids, NoDisk)] == index
  {
    var st0 := GState([], [], map[]);
    VisitDirSound(root, None, "", 0, st0, onDisk);
    var st := VisitDir(root, None, "", 0, st0, onDisk);
    SoundIsUnbound(st);
    ReprobeBindsDependencies(st.links, st.ids, source, index);
  }

  /** The unnamed root hands its own index, 0, to the top-level entries,
      and the first of them is emitted at index 0: the graph's first link
      is a hierarchy link from node 0 to itself. */
  lemma FirstLinkIsSelfLoop(root: Dir, onDisk: string -> bool)
    requires root.name == [] && NamedBelow(root)
    requires (root.directories.Directories? && root.directories.entries != []) || FilesOf(root) != []
    ensures var g := GenerateGraph(root, onDisk);
            g.links != [] && g.links[0] == Link(0, Index(0), Hierarchy, false)
            && g.nodes != [] && g.nodes[0].depth == 1
  {
    var st := VisitDir(root, None, "", 0, GState([], [], map[]), onDisk);
    WalkStartsWithSelfLoop(root, onDisk);
    var links := Reprobe(st.links, st.ids);
    assert links[0] == st.links[0];
    assert Finalize(links, st.ids) == Keep(links[0], st.ids) + Finalize(links[1..], st.ids);
  }

  lemma WalkStartsWithSelfLoop(root: Dir, onDisk: string -> bool)
    requires root.name == [] && NamedBelow(root)
    requires (root.directories.Directories? && root.directories.entries != []) || FilesOf(root) != []
    ensures var st := VisitDir(root, None, "", 0, GState([], [], map[]), onDisk);
            st.links != [] && st.links[0] == Link(0, Index(0), Hierarchy, false)
            && st.nodes != [] && st.nodes[0].depth == 1
  {
    var st0 := GState([], [], map[]);
    assert EnterDir(root, None, "", 0, st0) == st0;
    var st2 := VisitSubdirs(root, 0, "", 1, st0, onDisk);
    var st := VisitDir(root, None, "", 0, st0, onDisk);
    assert st == VisitFiles(FilesOf(root), 0, 1, st2, onDisk);
    assert st2.links <= st.links && st2.nodes <= st.nodes;
    if root.directories.Directories? && root.directories.entries != [] {
      FirstDirStartsWithSelfLoop(root.directories.entries, onDisk);
    } else {
      assert st2 == st0;
      FirstFileStartsWithSelfLoop(FilesOf(root), onDisk);
    }
  }

  lemma FirstDirStartsWithSelfLoop(es: seq<Dir>, onDisk: string -> bool)
    requires es != [] && es[0].name != []
    ensures var st := VisitDirs(es, 0, "", 1, GState([], [], map[]), onDisk);
            st.links != [] && st.links[0] == Link(0, Index(0), Hierarchy, false)
            && st.nodes != [] && st.nodes[0].depth == 1
  {
    var st0 := GState([], [], map[]);
    var e := es[0];
    var path := ChildPath("", e.name);
    var e1 := EnterDir(e, Some(0), path, 1, st0);
    assert e1.links[0] == Link(0, Index(0), Hierarchy, false) && e1.nodes[0].depth == 1;
    var v := VisitDir(e, Some(0), path, 1, st0, onDisk);
    assert e1.links <= v.links && e1.nodes <= v.nodes;
    var st := VisitDirs(es[1..], 0, "", 1, v, onDisk);
    assert v.links <= st.links && v.nodes <= st.nodes;
  }

  lemma FirstFileStartsWithSelfLoop(fs: seq<FileInfo>, onDisk: string -> bool)
    requires fs != [] && fs[0].name != []
    ensures var st := VisitFiles(fs, 0, 1, GState([], [], map[]), onDisk);
            st.links != [] && st.links[0] == Link(0, Index(0), Hierarchy, false)
            && st.nodes != [] && st.nodes[0].depth == 1
  {
    var st0 := GState([], [], map[]);
    var f1 := VisitFile(fs[0], 0, 1, st0, onDisk);
    assert f1.links[0] == Link(0, Index(0), Hierarchy, false) && f1.nodes[0].depth == 1;
    var st := VisitFiles(fs[1..], 0, 1, f1, onDisk);
    assert f1.links <= st.links && f1.nodes <= st.nodes;
  }

  /** The hierarchy targets among the links a visit appends. */
  function NewTargets(st: GState, r: GState): seq<Target>
    requires st.links <= r.links
  {
    Map(TargetOf, Filter(IsHierarchy, r.links[|st.links|..]))
  }

  function TargetOf(l: Link): Target {
    l.target
  }

  /** The indices `lo` up to `hi`, as link targets. */
  function Indices(lo: nat, hi: nat): (r: seq<Target>)
    requires lo <= hi
    ensures |r| == hi - lo
    ensures forall k :: 0 <= k < |r| ==> r[k] == Index(lo + k)
    decreases hi - lo
  {
    if lo == hi then [] else [Index(lo)] + Indices(lo + 1, hi)
  }

  lemma IndicesAppend(a: nat, b: nat, c: nat)
    requires a <= b <= c
    ensures Indices(a, b) + Indices(b, c) == Indices(a, c)
  {
  }

  lemma NewTargetsChain(a: GState, b: GState, c: GState)
    requires a.links <= b.links <= c.links
    ensures NewTargets(a, c) == NewTargets(a, b) + NewTargets(b, c)
  {
    assert c.links[|a.links|..] == b.links[|a.links|..] + c.links[|b.links|..];
    FilterAppend(IsHierarchy, b.links[|a.links|..], c.links[|b.links|..]);
    MapAppend(TargetOf, Filter(IsHierarchy, b.links[|a.links|..]), Filter(IsHierarchy, c.links[|b.links|..]));
  }

  /** A node emitted with a parent adds one hierarchy link, to itself. */
  lemma EmitTargets(st: GState, parent: nat, node: GraphNode, deps: seq<string>)
    ensures NewTargets(st, Emit(st, Some(parent), node, deps)) == [Index(|st.nodes|)]
  {
    var r := Emit(st, Some(parent), node, deps);
    var cur := |st.nodes|;
    var dependencies := Map((d: string) => Link(cur, Unresolved(d), Dependency, false), deps);
    assert r.links[|st.links|..] == [Link(parent, Index(cur), Hierarchy, false)] + dependencies;
    FilterNone(IsHierarchy, dependencies);
    FilterCons(IsHierarchy, r.links[|st.links|..]);
    assert r.links[|st.links|..][1..] == dependencies;
  }

  /** Below a parent, the walk gives every node it emits exactly one
      hierarchy link, in the order the nodes are emitted. */
  lemma {:induction false} VisitDirTargets(d: Dir, parent: Option<nat>, nodePath: string, depth: nat, st: GState, onDisk: string -> bool)
    requires parent.Some? || d.name == []
    ensures var r := VisitDir(d, parent, nodePath, depth, st, onDisk);
            NewTargets(st, r) == Indices(|st.nodes|, |r.nodes|)
    decreases d, 2
  {
    var cur := |st.nodes|;
    var st1 := EnterDir(d, parent, nodePath, depth, st);
    var st2 := VisitSubdirs(d, cur, nodePath, depth + 1, st1, onDisk);
    var r := VisitFiles(FilesOf(d), cur, depth + 1, st2, onDisk);
    if d.name != [] {
      EmitTargets(Register(st, nodePath), parent.value, GraphNode(cur, d.name, d.directories.Directories?, depth, None, None), []);
    } else {
      assert st1.links[|st.links|..] == [];
    }
    assert NewTargets(st, st1) == Indices(|st.nodes|, |st1.nodes|);
    if d.directories.Directories? {
      VisitDirsTargets(d.directories.entries, cur, nodePath, depth + 1, st1, onDisk);
    } else {
      assert st2.links[|st1.links|..] == [];
    }
    VisitFilesTargets(FilesOf(d), cur, depth + 1, st2, onDisk);
    NewTargetsChain(st, st1, st2);
    NewTargetsChain(st, st2, r);
    IndicesAppend(|st.nodes|, |st1.nodes|, |st2.nodes|);
    IndicesAppend(|st.nodes|, |st2.nodes|, |r.nodes|);
  }

  lemma {:induction false} VisitDirsTargets(es: seq<Dir>, parent: nat, parentPath: string, depth: nat, st: GState, onDisk: string -> bool)
    ensures var r := VisitDirs(es, parent, parentPath, depth, st, onDisk);
            NewTargets(st, r) == Indices(|st.nodes|, |r.nodes|)
    decreases es, 0
  {
    var r := VisitDirs(es, parent, parentPath, depth, st, onDisk);
    if es == [] {
      assert r.links[|st.links|..] == [];
    } else {
      var st1 := VisitDir(es[0], Some(parent), ChildPath(parentPath, es[0].name), depth, st, onDisk);
      VisitDirTargets(es[0], Some(parent), ChildPath(parentPath, es[0].name), depth, st, onDisk);
      VisitDirsTargets(es[1..], parent, parentPath, depth, st1, onDisk);
      NewTargetsChain(st, st1, r);
      IndicesAppend(|st.nodes|, |st1.nodes|, |r.nodes|);
    }
  }

  lemma {:induction false} VisitFilesTargets(fs: seq<FileInfo>, parent: nat, depth: nat, st: GState, onDisk: string -> bool)
    ensures var r := VisitFiles(fs, parent, depth, st, onDisk);
            NewTargets(st, r) == Indices(|st.nodes|, |r.nodes|)
    decreases |fs|
  {
    var r := VisitFiles(fs, parent, depth, st, onDisk);
    if fs == [] {
      assert r.links[|st.links|..] == [];
    } else {
      var f := fs[0];
      var st1 := VisitFile(f, parent, depth, st, onDisk);
      var st0 := Register(st, Text(f.path));
      if f.name != [] {
        var imports := if f.internalImports.Some? then f.internalImports.value else [];
        var deps := Map((spec: string) => Resolve(spec, Text(f.path), st0.ids, onDisk), imports);
        EmitTargets(st0, parent, GraphNode(|st.nodes|, f.name, false, depth, Description(f), FunctionCount(f)), deps);
      } else {
        assert st1.links[|st.links|..] == [];
      }
      VisitFilesTargets(fs[1..], parent, depth, st1, onDisk);
      NewTargetsChain(st, st1, r);
      IndicesAppend(|st.nodes|, |st1.nodes|, |r.nodes|);
    }
  }

  /** With the root unnamed, every node of the graph is the target of
      exactly one hierarchy link, and they come in node order. */
  lemma GraphHierarchy(root: Dir, onDisk: string -> bool)
    requires root.name == []
    ensures var g := GenerateGraph(root, onDisk);
            Map(TargetOf, Filter(IsHierarchy, g.links)) == Indices(0, |g.nodes|)
  {
    var st0 := GState([], [], map[]);
    var st := VisitDir(root, None, "", 0, st0, onDisk);
    VisitDirTargets(root, None, "", 0, st0, onDisk);
    ReprobeKeepsHierarchy(st.links, st.ids);
    FinalizeKeepsHierarchy(Reprobe(st.links, st.ids), st.ids);
    assert st.links[0..] == st.links;
  }

  /** `src/a.ts` imports `./b`; `src/b.ts` is listed after it. */
  const ForwardTree: Dir := Dir("", None, Directories([ForwardSrc]))

  const ForwardSrc: Dir := Dir("src", Some([ImportingFile, ImportedFile]), NoDirectories)

  const ImportingFile: FileInfo := FileInfo("a.ts", ["src", "a.ts"], None, None, Some(["./b"]), None)

  const ImportedFile: FileInfo := FileInfo("b.ts", ["src", "b.ts"], None, None, None, None)

  /** What the walk reads of `a.ts` and of `b.ts`. */
  predicate ImportingShape(f: FileInfo) {
    f.name == "a.ts" && f.path == ["src", "a.ts"] && f.internalImports == Some(["./b"])
  }

  predicate ImportedShape(f: FileInfo) {
    f.name == "b.ts" && f.path == ["src", "b.ts"] && f.internalImports.None?
  }

  /** The text of the path `a/b` for two plain names. */
  lemma TwoSegmentsText(a: string, b: string)
    ensures Text([a, b]) == a + "/" + b
  {
    assert [a, b][1..] == [b];
    assert Join([b], '/') == b;
  }

  /** Before `b.ts` is visited, `./b` from `src/a.ts` resolves to `src/b`. */
  lemma ForwardImportPath()
    ensures Resolve("./b", "src/a.ts", map["src" := 0, "src/a.ts" := 1], NoDisk) == "src/b"
  {
    var ids := map["src" := 0, "src/a.ts" := 1];
    assert forall j :: 0 <= j < |SourceExtensions| ==> "src/b" + SourceExtensions[j] !in ids by {
      assert forall j :: 0 <= j < |SourceExtensions| ==> ("src/b" + SourceExtensions[j])[4] == 'b';
      assert "src/a.ts"[4] == 'a';
    }
    SiblingBase(ids, NoDisk);
    UnvisitedSibling(ids);
  }

  /** A named file with one internal import: one node, its hierarchy
      link, and one dependency on the import resolved against the paths
      registered so far, its own included. */
  lemma VisitFileOneImport(f: FileInfo, parent: nat, depth: nat, st: GState, onDisk: string -> bool, spec: string)
    requires f.name != [] && f.internalImports == Some([spec])
    ensures var r := VisitFile(f, parent, depth, st, onDisk);
            var ids := Register(st, Text(f.path)).ids;
            && |r.nodes| == |st.nodes| + 1
            && r.links == st.links + [Link(parent, Index(|st.nodes|), Hierarchy, false),
                                      Link(|st.nodes|, Unresolved(Resolve(spec, Text(f.path), ids, onDisk)), Dependency, false)]
            && r.ids == ids
  {
    var ids := Register(st, Text(f.path)).ids;
    var deps := Map((s: string) => Resolve(s, Text(f.path), ids, onDisk), [spec]);
    assert deps == [Resolve(spec, Text(f.path), ids, onDisk)];
  }

  /** `a.ts`, visited after `src`, is node 1; its import of `./b` finds no
      `src/b.*` yet and keeps the path `src/b`. */
  lemma ForwardFirstFile(f: FileInfo, st: GState)
    requires ImportingShape(f)
    requires st == GState([GraphNode(0, "src", false, 1, None, None)], [Link(0, Index(0), Hierarchy, false)], map["src" := 0])
    ensures var r := VisitFile(f, 0, 2, st, NoDisk);
            && |r.nodes| == 2
            && r.links == st.links + [Link(0, Index(1), Hierarchy, false), Link(1, Unresolved("src/b"), Dependency, false)]
            && r.ids == map["src" := 0, "src/a.ts" := 1]
  {
    assert Text(f.path) == "src/a.ts" by {
      TwoSegmentsText("src", "a.ts");
    }
    assert Register(st, "src/a.ts").ids == map["src" := 0, "src/a.ts" := 1];
    ForwardImportPath();
    VisitFileOneImport(f, 0, 2, st, NoDisk, "./b");
  }

  /** `b.ts` is node 2, with no imports. */
  lemma ForwardSecondFile(f: FileInfo, st: GState)
    requires ImportedShape(f) && |st.nodes| == 2
    ensures var r := VisitFile(f, 0, 2, st, NoDisk);
            r.links == st.links + [Link(0, Index(2), Hierarchy, false)] && r.ids == st.ids["src/b.ts" := 2]
  {
    assert Text(f.path) == "src/b.ts" by {
      TwoSegmentsText("src", "b.ts");
    }
  }

  /** The walk over `src`: `src` at 0, `a.ts` at 1 with its import still
      `src/b`, since `src/b.ts` is not yet visited, `b.ts` at 2. */
  lemma ForwardSrcWalk(d: Dir, st0: GState)
    requires d == ForwardSrc && st0 == GState([], [], map[])
    ensures var st := VisitDir(d, Some(0), "src", 1, st0, NoDisk);
            && st.ids == map["src" := 0, "src/a.ts" := 1, "src/b.ts" := 2]
            && st.links == [Link(0, Index(0), Hierarchy, false), Link(0, Index(1), Hierarchy, false),
                            Link(1, Unresolved("src/b"), Dependency, false), Link(0, Index(2), Hierarchy, false)]
  {
    var s1 := EnterDir(d, Some(0), "src", 1, st0);
    assert s1 == GState([GraphNode(0, "src", false, 1, None, None)], [Link(0, Index(0), Hierarchy, false)], map["src" := 0]);
    VisitLeafDir(d, Some(0), "src", 1, st0, NoDisk);
    VisitTwoFiles(d.files.value[0], d.files.value[1], 0, 2, s1, NoDisk);
    ForwardFiles(d.files.value[0], d.files.value[1], s1);
  }

  /** The two files of `src`, visited after its node. */
  lemma ForwardFiles(fa: FileInfo, fb: FileInfo, s1: GState)
    requires ImportingShape(fa) && ImportedShape(fb)
    requires s1 == GState([GraphNode(0, "src", false, 1, None, None)], [Link(0, Index(0), Hierarchy, false)], map["src" := 0])
    ensures var st := VisitFile(fb, 0, 2, VisitFile(fa, 0, 2, s1, NoDisk), NoDisk);
            && st.ids == map["src" := 0, "src/a.ts" := 1, "src/b.ts" := 2]
            && st.links == [Link(0, Index(0), Hierarchy, false), Link(0, Index(1), Hierarchy, false),
                            Link(1, Unresolved("src/b"), Dependency, false), Link(0, Index(2), Hierarchy, false)]
  {
    var s2 := VisitFile(fa, 0, 2, s1, NoDisk);
    ForwardFirstFile(fa, s1);
    ForwardSecondFile(fb, s2);
  }

  /** A directory without subdirectories: its node, then its files. */
  lemma VisitLeafDir(d: Dir, parent: Option<nat>, nodePath: string, depth: nat, st: GState, onDisk: string -> bool)
    requires d.directories.NoDirectories?
    ensures VisitDir(d, parent, nodePath, depth, st, onDisk)
            == VisitFiles(FilesOf(d), |st.nodes|, depth + 1, EnterDir(d, parent, nodePath, depth, st), onDisk)
  {
  }

  lemma VisitTwoFiles(a: FileInfo, b: FileInfo, parent: nat, depth: nat, st: GState, onDisk: string -> bool)
    ensures VisitFiles([a, b], parent, depth, st, onDisk)
            == VisitFile(b, parent, depth, VisitFile(a, parent, depth, st, onDisk), onDisk)
  {
    var s1 := VisitFile(a, parent, depth, st, onDisk);
    assert [a, b][1..] == [b] && [b][1..] == [];
    assert VisitFiles([b], parent, depth, s1, onDisk) == VisitFiles([], parent, depth, VisitFile(b, parent, depth, s1, onDisk), onDisk);
  }

  /** The whole walk: the unnamed root hands index 0 to `src`. */
  lemma ForwardWalk(t: Dir, st0: GState)
    requires t == ForwardTree && st0 == GState([], [], map[])
    ensures VisitDir(t, None, "", 0, st0, NoDisk) == VisitDir(ForwardSrc, Some(0), "src", 1, st0, NoDisk)
  {
    var d := t.directories.entries[0];
    assert ChildPath("", "src") == "src";
    var s := VisitDir(d, Some(0), "src", 1, st0, NoDisk);
    assert VisitDirs([d], 0, "", 1, st0, NoDisk) == VisitDirs([], 0, "", 1, s, NoDisk);
  }

  /** With no `src/b.*` visited and nothing on disk, `src/b` keeps no
      extension. */
  lemma UnvisitedSibling(ids: map<string, nat>)
    requires forall j :: 0 <= j < |SourceExtensions| ==> "src/b" + SourceExtensions[j] !in ids
    ensures Probe("src/b", ids, NoDisk) == "src/b"
  {
    assert !HasExtension(PathOf("src/b")) by {
      TwoSegments("src", "b");
      assert LastName(["src", "b"]) == "b";
    }
    ProbeFromNone("src/b", 0, ids);
  }

  /** With no candidate visited and nothing on disk, probing adds nothing. */
  lemma {:induction false} ProbeFromNone(base: string, k: nat, ids: map<string, nat>)
    requires forall j :: k <= j < |SourceExtensions| ==> base + SourceExtensions[j] !in ids
    ensures ProbeFrom(base, k, ids, NoDisk) == base
    decreases |SourceExtensions| - k
  {
    if k < |SourceExtensions| {
      ProbeFromNone(base, k + 1, ids);
    }
  }

  /** The walk's state after `ForwardTree`. */
  predicate ForwardState(st: GState) {
    && st.ids == map["src" := 0, "src/a.ts" := 1, "src/b.ts" := 2]
    && st.links == [Link(0, Index(0), Hierarchy, false), Link(0, Index(1), Hierarchy, false),
                    Link(1, Unresolved("src/b"), Dependency, false), Link(0, Index(2), Hierarchy, false)]
  }

  lemma ForwardTreeState(t: Dir, st0: GState)
    requires t == ForwardTree && st0 == GState([], [], map[])
    ensures ForwardState(VisitDir(t, None, "", 0, st0, NoDisk))
  {
    ForwardWalk(t, st0);
    ForwardSrcWalk(ForwardSrc, st0);
  }

  /** As written, the import of `src/b.ts` from `src/a.ts` is lost: the
      graph of `ForwardTree` has no dependency at all. */
  lemma ForwardImportLost(t: Dir)
    requires t == ForwardTree
    ensures GenerateGraphAsWritten(t, NoDisk).links
            == [Link(0, Index(0), Hierarchy, false), Link(0, Index(1), Hierarchy, false), Link(0, Index(2), Hierarchy, false)]
  {
    ForwardTreeState(t, GState([], [], map[]));
    ForwardDropped(VisitDir(t, None, "", 0, GState([], [], map[]), NoDisk));
  }

  lemma ForwardDropped(st: GState)
    requires ForwardState(st)
    ensures Finalize(st.links, st.ids)
            == [Link(0, Index(0), Hierarchy, false), Link(0, Index(1), Hierarchy, false), Link(0, Index(2), Hierarchy, false)]
  {
    var ls := st.links;
    assert Keep(ls[2], st.ids) == [];
    FinalizeCons(ls, st.ids);
    FinalizeCons(ls[1..], st.ids);
    FinalizeCons(ls[2..], st.ids);
    FinalizeCons(ls[3..], st.ids);
    assert ls[1..][1..] == ls[2..] && ls[2..][1..] == ls[3..] && ls[3..][1..] == [];
  }

  lemma FinalizeCons(links: seq<Link>, ids: map<string, nat>)
    requires links != []
    ensures Finalize(links, ids) == Keep(links[0], ids) + Finalize(links[1..], ids)
  {
  }

  /** Re-probing against every visited path binds the import of `src/b.ts`
      from `src/a.ts` to node 2. */
  lemma ForwardImportBound(t: Dir)
    requires t == ForwardTree
    ensures Link(1, Index(2), Dependency, true) in GenerateGraph(t, NoDisk).links
  {
    ForwardTreeState(t, GState([], [], map[]));
    ForwardBound(VisitDir(t, None, "", 0, GState([], [], map[]), NoDisk));
  }

  lemma ForwardBound(st: GState)
    requires ForwardState(st)
    ensures Link(1, Index(2), Dependency, true) in Finalize(Reprobe(st.links, st.ids), st.ids)
  {
    SiblingBound(st.links, st.ids);
  }

  /** An unbound `src/b` is bound to the index of `src/b.ts` once that is
      visited. */
  lemma SiblingBound(links: seq<Link>, ids: map<string, nat>)
    requires |links| > 2 && links[2] == Link(1, Unresolved("src/b"), Dependency, false) && Unbound(links)
    requires "src/b.ts" in ids && ids["src/b.ts"] == 2
    ensures Link(1, Index(2), Dependency, true) in Finalize(Reprobe(links, ids), ids)
  {
    var rl := Reprobe(links, ids);
    var bound := Link(1, Unresolved("src/b.ts"), Dependency, false);
    assert rl[2] == bound by {
      SiblingProbe(ids, NoDisk);
      assert rl[2] == Retarget(links[2], ids);
    }
    ReprobeKeepsUnbound(links, ids);
    assert bound in rl;
    FinalizeBindsDependencies(rl, ids, 1, 2);
  }
}
