/** The directory tree the analysis result holds: `addFileToStructure`
    files each record under its directory, and `cleanupEmptyCollections`
    drops the empty lists and maps afterwards. A `directories` map is
    looked up by key; since a directory is always stored under its own
    name, the key of an entry is its `name`. */
module Structure {
  import opened Strings
  import opened Seqs
  import opened Paths
  import opened Records

  /** The root as the analysis creates it: an empty file list and an empty
      directory map. */
  const Root: Dir := Dir("", Some([]), Directories([]))

  /** A directory as `addFileToStructure` creates it. */
  function EmptyDir(name: string): Dir {
    Dir(name, Some([]), Directories([]))
  }

  /** The files a directory lists; an absent list lists none. */
  function FilesOf(d: Dir): seq<FileInfo> {
    if d.files.Some? then d.files.value else []
  }

  /** The entries of a directory map; an absent map has none. */
  function EntriesOf(d: Dir): seq<Dir> {
    if d.directories.Directories? then d.directories.entries else []
  }

  /** The position of the entry stored under key `name`. */
  function Find(entries: seq<Dir>, name: string): (r: Option<nat>)
    ensures r.Some? ==> r.value < |entries| && entries[r.value].name == name
                        && forall j :: 0 <= j < r.value ==> entries[j].name != name
    ensures r.None? ==> forall j :: 0 <= j < |entries| ==> entries[j].name != name
  {
    if entries == [] then None
    else if entries[0].name == name then Some(0)
    else match Find(entries[1..], name)
      case Some(i) => Some(i + 1)
      case None => None
  }

  /** The subdirectory stored under key `name`. */
  function Child(d: Dir, name: string): Option<Dir> {
    var es := EntriesOf(d);
    match Find(es, name)
    case Some(i) => Some(es[i])
    case None => None
  }

  /** The directory reached from `d` by following `q` one key per segment. */
  function At(d: Dir, q: Path): Option<Dir>
    decreases |q|
  {
    if q == [] then Some(d)
    else match Child(d, q[0])
      case Some(c) => At(c, q[1..])
      case None => None
  }

  /** The files listed at path `q` below `d`; none when nothing is there. */
  function FilesAt(d: Dir, q: Path): seq<FileInfo> {
    match At(d, q)
    case Some(c) => FilesOf(c)
    case None => []
  }

  /** The directory a file with these path parts goes to. */
  function ParentParts(parts: Path): Path
    requires |parts| >= 1
  {
    parts[..|parts| - 1]
  }

  /** `addFileToStructure(d, parts, info)`: the last part names the file,
      which is appended to the file list of the directory the other parts
      lead to; missing directories on the way are created, each appended
      to its parent's map. */
  function AddFile(d: Dir, parts: Path, info: FileInfo): (r: Dir)
    requires |parts| >= 1
    ensures r.name == d.name
    decreases |parts|
  {
    if |parts| == 1 then d.(files := Some(FilesOf(d) + [info]))
    else
      var es := EntriesOf(d);
      match Find(es, parts[0])
      case Some(i) => d.(directories := Directories(es[i := AddFile(es[i], parts[1..], info)]))
      case None => d.(directories := Directories(es + [AddFile(EmptyDir(parts[0]), parts[1..], info)]))
  }

  lemma FindUpdate(es: seq<Dir>, i: nat, x: Dir, name: string)
    requires i < |es| && x.name == es[i].name
    ensures Find(es[i := x], name) == Find(es, name)
  {
    var es' := es[i := x];
    assert forall j :: 0 <= j < |es| ==> es'[j].name == es[j].name;
    FindSameNames(es, es', name);
  }

  /** `Find` only looks at the names. */
  lemma {:induction false} FindSameNames(es: seq<Dir>, es': seq<Dir>, name: string)
    requires |es| == |es'| && forall j :: 0 <= j < |es| ==> es'[j].name == es[j].name
    ensures Find(es', name) == Find(es, name)
    decreases |es|
  {
    if es != [] {
      FindSameNames(es[1..], es'[1..], name);
    }
  }

  lemma FindAppend(es: seq<Dir>, x: Dir, name: string)
    requires Find(es, x.name).None?
    ensures Find(es + [x], name) == if name == x.name then Some(|es|) else Find(es, name)
  {
    var es' := es + [x];
    if Find(es, name).Some? {
      FindPrefix(es, es', name);
    } else if name == x.name {
      assert es'[|es|] == x;
      FindFirst(es', |es|, name);
    } else {
      assert forall j :: 0 <= j < |es'| ==> es'[j].name != name;
    }
  }

  lemma FindPrefix(es: seq<Dir>, es': seq<Dir>, name: string)
    requires Find(es, name).Some? && es <= es'
    ensures Find(es', name) == Find(es, name)
  {
    var i := Find(es, name).value;
    assert es'[i] == es[i];
    FindFirst(es', i, name);
  }

  lemma FindFirst(es: seq<Dir>, i: nat, name: string)
    requires i < |es| && es[i].name == name && forall j :: 0 <= j < i ==> es[j].name != name
    ensures Find(es, name) == Some(i)
  {
  }

  /** `AddFile` appends the record to the files at its directory and
      changes no other file list. */
  lemma {:induction false} AddFileFiles(d: Dir, parts: Path, info: FileInfo, q: Path)
    requires |parts| >= 1
    ensures FilesAt(AddFile(d, parts, info), q)
            == FilesAt(d, q) + (if q == ParentParts(parts) then [info] else [])
    decreases |parts|
  {
    var r := AddFile(d, parts, info);
    if |parts| == 1 {
      if q != [] {
        assert Child(r, q[0]) == Child(d, q[0]);
      }
    } else if q == [] {
    } else {
      var es := EntriesOf(d);
      var name := parts[0];
      assert ParentParts(parts) == [name] + ParentParts(parts[1..]);
      match Find(es, name)
      case Some(i) => {
        var x := AddFile(es[i], parts[1..], info);
        FindUpdate(es, i, x, q[0]);
        if q[0] == name {
          AddFileFiles(es[i], parts[1..], info, q[1..]);
        } else {
          assert Child(r, q[0]) == Child(d, q[0]);
        }
      }
      case None => {
        var x := AddFile(EmptyDir(name), parts[1..], info);
        FindAppend(es, x, q[0]);
        if q[0] == name {
          AddFileFiles(EmptyDir(name), parts[1..], info, q[1..]);
          EmptyDirFiles(name, q[1..]);
        } else {
          assert Child(r, q[0]) == Child(d, q[0]);
        }
      }
    }
  }

  lemma EmptyDirFiles(name: string, q: Path)
    ensures FilesAt(EmptyDir(name), q) == []
  {
  }

  /** After `AddFile` the directories are the old ones and those on the
      way to the file. */
  lemma {:induction false} AddFileDirectories(d: Dir, parts: Path, info: FileInfo, q: Path)
    requires |parts| >= 1
    ensures At(AddFile(d, parts, info), q).Some? <==> At(d, q).Some? || q <= ParentParts(parts)
    decreases |parts|
  {
    var r := AddFile(d, parts, info);
    if |parts| == 1 {
      if q != [] {
        assert Child(r, q[0]) == Child(d, q[0]);
      }
    } else if q == [] {
    } else {
      var es := EntriesOf(d);
      var name := parts[0];
      assert ParentParts(parts) == [name] + ParentParts(parts[1..]);
      assert q <= ParentParts(parts) <==> q[0] == name && q[1..] <= ParentParts(parts[1..]);
      match Find(es, name)
      case Some(i) => {
        var x := AddFile(es[i], parts[1..], info);
        FindUpdate(es, i, x, q[0]);
        if q[0] == name {
          AddFileDirectories(es[i], parts[1..], info, q[1..]);
        } else {
          assert Child(r, q[0]) == Child(d, q[0]);
        }
      }
      case None => {
        var x := AddFile(EmptyDir(name), parts[1..], info);
        FindAppend(es, x, q[0]);
        if q[0] == name {
          AddFileDirectories(EmptyDir(name), parts[1..], info, q[1..]);
          assert At(EmptyDir(name), q[1..]).Some? <==> q[1..] == [];
        } else {
          assert Child(r, q[0]) == Child(d, q[0]);
        }
      }
    }
  }

  /** The records in the tree, counted over every directory. */
  function FileCount(d: Dir): nat
    decreases d, 1
  {
    |FilesOf(d)| + match d.directories
                   case Directories(es) => CountAll(es)
                   case NoDirectories => 0
  }

  function CountAll(es: seq<Dir>): nat
    decreases es, 0
  {
    if es == [] then 0 else FileCount(es[0]) + CountAll(es[1..])
  }

  lemma {:induction false} CountAllUpdate(es: seq<Dir>, i: nat, x: Dir)
    requires i < |es|
    ensures CountAll(es[i := x]) + FileCount(es[i]) == CountAll(es) + FileCount(x)
    decreases |es|
  {
    if i > 0 {
      CountAllUpdate(es[1..], i - 1, x);
      assert es[i := x][1..] == es[1..][i - 1 := x];
    } else {
      assert es[i := x][1..] == es[1..];
    }
  }

  lemma {:induction false} CountAllAppend(es: seq<Dir>, x: Dir)
    ensures CountAll(es + [x]) == CountAll(es) + FileCount(x)
    decreases |es|
  {
    if es == [] {
      assert [x][1..] == [];
    } else {
      CountAllAppend(es[1..], x);
      assert (es + [x])[1..] == es[1..] + [x];
    }
  }

  /** `AddFile` adds exactly one record to the tree. */
  lemma {:induction false} AddFileCount(d: Dir, parts: Path, info: FileInfo)
    requires |parts| >= 1
    ensures FileCount(AddFile(d, parts, info)) == FileCount(d) + 1
    decreases |parts|
  {
    if |parts| > 1 {
      var es := EntriesOf(d);
      match Find(es, parts[0])
      case Some(i) => {
        AddFileCount(es[i], parts[1..], info);
        CountAllUpdate(es, i, AddFile(es[i], parts[1..], info));
      }
      case None => {
        AddFileCount(EmptyDir(parts[0]), parts[1..], info);
        CountAllAppend(es, AddFile(EmptyDir(parts[0]), parts[1..], info));
      }
    }
  }

  /** Every directory map has distinct keys, as a JavaScript object does. */
  predicate KeysUnique(d: Dir)
    decreases d, 1
  {
    && d.directories.Directories? ==> (DistinctNames(d.directories.entries) && AllKeysUnique(d.directories.entries))
  }

  predicate AllKeysUnique(es: seq<Dir>)
    decreases es, 0
  {
    es == [] || (KeysUnique(es[0]) && AllKeysUnique(es[1..]))
  }

  predicate DistinctNames(es: seq<Dir>) {
    forall i, j :: 0 <= i < j < |es| ==> es[i].name != es[j].name
  }

  lemma {:induction false} AllKeysUniqueAt(es: seq<Dir>, i: nat)
    requires i < |es| && AllKeysUnique(es)
    ensures KeysUnique(es[i])
    decreases |es|
  {
    if i > 0 {
      AllKeysUniqueAt(es[1..], i - 1);
    }
  }

  lemma {:induction false} AllKeysUniqueUpdate(es: seq<Dir>, i: nat, x: Dir)
    requires i < |es| && AllKeysUnique(es) && KeysUnique(x)
    ensures AllKeysUnique(es[i := x])
    decreases |es|
  {
    if i > 0 {
      AllKeysUniqueUpdate(es[1..], i - 1, x);
      assert es[i := x][1..] == es[1..][i - 1 := x];
    } else {
      assert es[i := x][1..] == es[1..];
    }
  }

  lemma {:induction false} AllKeysUniqueAppend(es: seq<Dir>, x: Dir)
    requires AllKeysUnique(es) && KeysUnique(x)
    ensures AllKeysUnique(es + [x])
    decreases |es|
  {
    if es == [] {
      assert [x][1..] == [];
    } else {
      AllKeysUniqueAppend(es[1..], x);
      assert (es + [x])[1..] == es[1..] + [x];
    }
  }

  /** `AddFile` never stores two directories under one key. */
  lemma {:induction false} AddFileKeysUnique(d: Dir, parts: Path, info: FileInfo)
    requires |parts| >= 1 && KeysUnique(d)
    ensures KeysUnique(AddFile(d, parts, info))
    decreases |parts|
  {
    if |parts| > 1 {
      var es := EntriesOf(d);
      assert AllKeysUnique(es) && DistinctNames(es);
      match Find(es, parts[0])
      case Some(i) => {
        var x := AddFile(es[i], parts[1..], info);
        AllKeysUniqueAt(es, i);
        AddFileKeysUnique(es[i], parts[1..], info);
        AllKeysUniqueUpdate(es, i, x);
        assert forall j :: 0 <= j < |es| ==> es[i := x][j].name == es[j].name;
      }
      case None => {
        var x := AddFile(EmptyDir(parts[0]), parts[1..], info);
        AddFileKeysUnique(EmptyDir(parts[0]), parts[1..], info);
        AllKeysUniqueAppend(es, x);
        assert forall j :: 0 <= j < |es| ==> (es + [x])[j] == es[j];
      }
    }
  }

  /** `cleanupEmptyCollections`: an empty file list is dropped, an empty
      directory map is dropped, and a non-empty map is cleaned entry by
      entry. A directory emptied this way is not dropped in turn. */
  function Cleanup(d: Dir): (r: Dir)
    ensures r.name == d.name
    ensures r.files.Some? <==> FilesOf(d) != []
    ensures r.directories.Directories? <==> EntriesOf(d) != []
    decreases d, 1
  {
    Dir(
      d.name,
      if d.files == Some([]) then None else d.files,
      match d.directories
      case NoDirectories => NoDirectories
      case Directories(es) => if es == [] then NoDirectories else Directories(CleanupAll(es)))
  }

  function CleanupAll(es: seq<Dir>): (r: seq<Dir>)
    ensures |r| == |es|
    ensures forall i :: 0 <= i < |es| ==> r[i] == Cleanup(es[i])
    decreases es, 0
  {
    if es == [] then [] else [Cleanup(es[0])] + CleanupAll(es[1..])
  }

  /** No empty file list and no empty directory map anywhere in the tree. */
  predicate Pruned(d: Dir)
    decreases d, 1
  {
    && d.files != Some([])
    && d.directories != Directories([])
    && (d.directories.Directories? ==> AllPruned(d.directories.entries))
  }

  predicate AllPruned(es: seq<Dir>)
    decreases es, 0
  {
    es == [] || (Pruned(es[0]) && AllPruned(es[1..]))
  }

  /** The cleaned tree is pruned, and cleaning a pruned tree changes
      nothing: cleaning twice is cleaning once. */
  lemma {:induction false} CleanupPrunes(d: Dir)
    ensures Pruned(Cleanup(d))
    decreases d, 1
  {
    if d.directories.Directories? && d.directories.entries != [] {
      CleanupAllPrunes(d.directories.entries);
    }
  }

  lemma {:induction false} CleanupAllPrunes(es: seq<Dir>)
    ensures AllPruned(CleanupAll(es))
    decreases es, 0
  {
    if es != [] {
      CleanupPrunes(es[0]);
      CleanupAllPrunes(es[1..]);
      assert CleanupAll(es)[1..] == CleanupAll(es[1..]);
    }
  }

  lemma {:induction false} PrunedIsFixed(d: Dir)
    requires Pruned(d)
    ensures Cleanup(d) == d
    decreases d, 1
  {
    if d.directories.Directories? {
      AllPrunedIsFixed(d.directories.entries);
    }
  }

  lemma {:induction false} AllPrunedIsFixed(es: seq<Dir>)
    requires AllPruned(es)
    ensures CleanupAll(es) == es
    decreases es, 0
  {
    if es != [] {
      PrunedIsFixed(es[0]);
      AllPrunedIsFixed(es[1..]);
      assert CleanupAll(es) == [es[0]] + es[1..];
    }
  }

  lemma CleanupIdempotent(d: Dir)
    ensures Cleanup(Cleanup(d)) == Cleanup(d)
  {
    CleanupPrunes(d);
    PrunedIsFixed(Cleanup(d));
  }

  /** Cleaning keeps every directory and every file list's contents. */
  lemma {:induction false} CleanupKeepsContents(d: Dir, q: Path)
    ensures At(Cleanup(d), q).Some? <==> At(d, q).Some?
    ensures FilesAt(Cleanup(d), q) == FilesAt(d, q)
    decreases |q|
  {
    if q != [] {
      var es := EntriesOf(d);
      assert EntriesOf(Cleanup(d)) == CleanupAll(es);
      FindSameNames(es, CleanupAll(es), q[0]);
      match Find(es, q[0])
      case Some(i) => {
        CleanupKeepsContents(es[i], q[1..]);
      }
      case None =>
    }
  }

  /** Every directory below `d` holds a record somewhere in or below it. */
  predicate Populated(d: Dir)
    decreases d, 1
  {
    d.directories.Directories? ==> AllPopulated(d.directories.entries)
  }

  predicate AllPopulated(es: seq<Dir>)
    decreases es, 0
  {
    forall i :: 0 <= i < |es| ==> FileCount(es[i]) > 0 && Populated(es[i])
  }

  /** Directories are created only on the way to a record, so attaching
      one keeps every directory populated. */
  lemma {:induction false} AddFilePopulated(d: Dir, parts: Path, info: FileInfo)
    requires |parts| >= 1 && Populated(d)
    ensures Populated(AddFile(d, parts, info))
    decreases |parts|
  {
    if |parts| > 1 {
      var es := EntriesOf(d);
      match Find(es, parts[0])
      case Some(i) => {
        AddFilePopulated(es[i], parts[1..], info);
        AddFileCount(es[i], parts[1..], info);
      }
      case None => {
        AddFilePopulated(EmptyDir(parts[0]), parts[1..], info);
        AddFileCount(EmptyDir(parts[0]), parts[1..], info);
        var x := AddFile(EmptyDir(parts[0]), parts[1..], info);
        assert forall j :: 0 <= j < |es| ==> (es + [x])[j] == es[j];
      }
    }
  }

  /** Cleaning moves no record. */
  lemma {:induction false} CleanupCount(d: Dir)
    ensures FileCount(Cleanup(d)) == FileCount(d)
    decreases d, 1
  {
    if d.directories.Directories? {
      CleanupAllCount(d.directories.entries);
    }
  }

  lemma {:induction false} CleanupAllCount(es: seq<Dir>)
    ensures CountAll(CleanupAll(es)) == CountAll(es)
    decreases es, 0
  {
    if es != [] {
      CleanupCount(es[0]);
      CleanupAllCount(es[1..]);
      assert CleanupAll(es)[1..] == CleanupAll(es[1..]);
    }
  }

  /** Cleaning keeps every directory populated: though it does not drop a
      directory it empties, no directory of a populated tree is empty. */
  lemma {:induction false} CleanupPopulated(d: Dir)
    requires Populated(d)
    ensures Populated(Cleanup(d))
    decreases d, 1
  {
    if d.directories.Directories? {
      CleanupAllPopulated(d.directories.entries);
    }
  }

  lemma {:induction false} CleanupAllPopulated(es: seq<Dir>)
    requires AllPopulated(es)
    ensures AllPopulated(CleanupAll(es))
    decreases es, 0
  {
    forall i | 0 <= i < |es| ensures FileCount(Cleanup(es[i])) > 0 && Populated(Cleanup(es[i])) {
      CleanupCount(es[i]);
      CleanupPopulated(es[i]);
    }
  }

  /** Every directory below `d` and every file in or below it is named. */
  predicate NamedBelow(d: Dir)
    decreases d, 1
  {
    && FilesNamed(FilesOf(d))
    && (d.directories.Directories? ==> AllNamed(d.directories.entries))
  }

  predicate AllNamed(es: seq<Dir>)
    decreases es, 0
  {
    forall i :: 0 <= i < |es| ==> es[i].name != [] && NamedBelow(es[i])
  }

  predicate FilesNamed(fs: seq<FileInfo>) {
    forall k :: 0 <= k < |fs| ==> fs[k].name != []
  }

  /** Attaching a named record under named directories keeps the tree
      named. */
  lemma {:induction false} AddFileNamed(d: Dir, parts: Path, info: FileInfo)
    requires |parts| >= 1 && NamedBelow(d) && info.name != []
    requires forall k :: 0 <= k < |parts| ==> parts[k] != []
    ensures NamedBelow(AddFile(d, parts, info))
    decreases |parts|
  {
    if |parts| > 1 {
      var es := EntriesOf(d);
      assert forall k :: 0 <= k < |parts[1..]| ==> parts[1..][k] == parts[k + 1];
      match Find(es, parts[0])
      case Some(i) => {
        AddFileNamed(es[i], parts[1..], info);
      }
      case None => {
        AddFileNamed(EmptyDir(parts[0]), parts[1..], info);
        var x := AddFile(EmptyDir(parts[0]), parts[1..], info);
        assert forall j :: 0 <= j < |es| ==> (es + [x])[j] == es[j];
      }
    }
  }

  /** Cleaning keeps the tree named. */
  lemma {:induction false} CleanupNamed(d: Dir)
    requires NamedBelow(d)
    ensures NamedBelow(Cleanup(d))
    decreases d, 1
  {
    if d.directories.Directories? {
      CleanupAllNamed(d.directories.entries);
    }
  }

  lemma {:induction false} CleanupAllNamed(es: seq<Dir>)
    requires AllNamed(es)
    ensures AllNamed(CleanupAll(es))
    decreases es, 0
  {
    forall i | 0 <= i < |es| ensures NamedBelow(Cleanup(es[i])) {
      CleanupNamed(es[i]);
    }
  }

  /** The records of a file list, attached in order from the root. */
  function BuildFrom(d: Dir, infos: seq<FileInfo>): (r: Dir)
    ensures r.name == d.name
    decreases |infos|
  {
    if infos == [] then d
    else BuildFrom(AddFile(d, Split(Text(infos[0].path), '/'), infos[0]), infos[1..])
  }

  /** A record lives in the directory its path leads to. */
  function InDir(q: Path): FileInfo -> bool {
    (info: FileInfo) => info.path != [] && ParentParts(info.path) == q
  }

  /** The paths the analysis gives its files: non-empty, no empty segment
      a split could produce, no `/` inside a segment. */
  predicate FilePath(p: Path) {
    p != [] && WellFormed(p)
  }

  /** After the records are attached, every directory lists exactly the
      records whose path leads to it, in the order they were attached. */
  lemma {:induction false} BuildFiles(d: Dir, infos: seq<FileInfo>, q: Path)
    requires forall k :: 0 <= k < |infos| ==> FilePath(infos[k].path)
    ensures FilesAt(BuildFrom(d, infos), q) == FilesAt(d, q) + Filter(InDir(q), infos)
    decreases |infos|
  {
    if infos != [] {
      var info := infos[0];
      var rest := infos[1..];
      var here := if InDir(q)(info) then [info] else [];
      FilePathParts(info.path);
      var d' := AddFile(d, info.path, info);
      calc {
        FilesAt(BuildFrom(d, infos), q);
        FilesAt(BuildFrom(d', rest), q);
        { BuildFiles(d', rest, q); }
        FilesAt(d', q) + Filter(InDir(q), rest);
        { AddFileFiles(d, info.path, info, q); }
        FilesAt(d, q) + here + Filter(InDir(q), rest);
        { FilterCons(InDir(q), infos); }
        FilesAt(d, q) + Filter(InDir(q), infos);
      }
    }
  }

  /** Attaching records to a populated tree keeps it populated. */
  lemma {:induction false} BuildPopulated(d: Dir, infos: seq<FileInfo>)
    requires Populated(d)
    requires forall k :: 0 <= k < |infos| ==> FilePath(infos[k].path)
    ensures Populated(BuildFrom(d, infos))
    decreases |infos|
  {
    if infos != [] {
      FilePathParts(infos[0].path);
      AddFilePopulated(d, infos[0].path, infos[0]);
      assert forall k :: 0 <= k < |infos[1..]| ==> infos[1..][k] == infos[k + 1];
      BuildPopulated(AddFile(d, infos[0].path, infos[0]), infos[1..]);
    }
  }

  /** A record the tree can hold by name: a non-empty path of real
      names, and a non-empty name. */
  predicate Attachable(info: FileInfo) {
    info.path != [] && Segments(info.path) && info.name != []
  }

  /** Attaching named records to a named tree keeps it named. */
  lemma {:induction false} BuildNamed(d: Dir, infos: seq<FileInfo>)
    requires NamedBelow(d)
    requires forall k :: 0 <= k < |infos| ==> Attachable(infos[k])
    ensures NamedBelow(BuildFrom(d, infos))
    decreases |infos|
  {
    if infos != [] {
      var info := infos[0];
      assert info.path[0] != [];
      FilePathParts(info.path);
      AddFileNamed(d, info.path, info);
      assert forall k :: 0 <= k < |infos[1..]| ==> infos[1..][k] == infos[k + 1];
      BuildNamed(AddFile(d, info.path, info), infos[1..]);
    }
  }

  /** Splitting the text of a file path gives the path back. */
  lemma FilePathParts(p: Path)
    requires FilePath(p)
    ensures Split(Text(p), '/') == p
  {
    PathOfText(p);
  }

  /** The keys every plain JavaScript object answers with an inherited,
      truthy value: the members of `Object.prototype`, and `__proto__`,
      which reads `Object.prototype` itself. */
  const InheritedNames: set<string> := {
    "__proto__", "constructor", "toString", "toLocaleString", "valueOf", "hasOwnProperty",
    "isPrototypeOf", "propertyIsEnumerable", "__defineGetter__", "__defineSetter__",
    "__lookupGetter__", "__lookupSetter__"}

  /** `addFileToStructure` as written: `!current.directories[dirName]`
      reads inherited properties too, so for an inherited name no
      directory is created and the rest of the walk happens on the
      inherited built-in, outside the tree. The map is still made present. */
  function AddFileAsWritten(d: Dir, parts: Path, info: FileInfo): (r: Dir)
    requires |parts| >= 1
    ensures r.name == d.name
    decreases |parts|
  {
    if |parts| == 1 then d.(files := Some(FilesOf(d) + [info]))
    else
      var es := EntriesOf(d);
      match Find(es, parts[0])
      case Some(i) => d.(directories := Directories(es[i := AddFileAsWritten(es[i], parts[1..], info)]))
      case None =>
        if parts[0] in InheritedNames then d.(directories := Directories(es))
        else d.(directories := Directories(es + [AddFileAsWritten(EmptyDir(parts[0]), parts[1..], info)]))
  }

  /** A file below a directory with an inherited name, `constructor` or
      `__proto__` say, is lost from the tree as written; the corrected
      `AddFile` files it under that directory. */
  lemma InheritedNameLosesFile(name: string, info: FileInfo)
    requires name in InheritedNames
    ensures FileCount(AddFileAsWritten(Root, [name, "a.ts"], info)) == 0
    ensures FileCount(AddFile(Root, [name, "a.ts"], info)) == 1
    ensures FilesAt(AddFile(Root, [name, "a.ts"], info), [name]) == [info]
  {
    AddFileCount(Root, [name, "a.ts"], info);
    AddFileFiles(Root, [name, "a.ts"], info, [name]);
    assert ParentParts([name, "a.ts"]) == [name];
  }

  /** Away from inherited names the code as written and the corrected
      definition agree. */
  lemma {:induction false} AsWrittenAgrees(d: Dir, parts: Path, info: FileInfo)
    requires |parts| >= 1 && forall k :: 0 <= k < |parts| - 1 ==> parts[k] !in InheritedNames
    ensures AddFileAsWritten(d, parts, info) == AddFile(d, parts, info)
    decreases |parts|
  {
    if |parts| > 1 {
      var es := EntriesOf(d);
      assert forall k :: 0 <= k < |parts[1..]| - 1 ==> parts[1..][k] == parts[k + 1];
      match Find(es, parts[0])
      case Some(i) => AsWrittenAgrees(es[i], parts[1..], info);
      case None => AsWrittenAgrees(EmptyDir(parts[0]), parts[1..], info);
    }
  }
}
