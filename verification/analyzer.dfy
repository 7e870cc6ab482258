/** `analyzeFile`: the record of one source file, built from what the
    parser reports about it. */
module Analyzer {
  import opened Strings
  import opened Seqs
  import opened Paths
  import opened Records
  import opened Syntax
  import opened Comments
  import opened Functions

  /** An import the project resolves itself: a relative or absolute path,
      or the `@/` alias of the source folder. */
  predicate IsInternal(specifier: string) {
    StartsWith(specifier, ".") || StartsWith(specifier, "/") || StartsWith(specifier, "@/")
  }

  predicate IsExternal(specifier: string) {
    !IsInternal(specifier)
  }

  /** The two import lists, external first. */
  datatype Imports = Imports(external: seq<string>, internal: seq<string>)

  /** One import declaration: its specifier goes on the list its prefix
      selects. */
  function Push(acc: Imports, s: string): Imports {
    if IsInternal(s) then Imports(acc.external, acc.internal + [s])
    else Imports(acc.external + [s], acc.internal)
  }

  /** The import declarations visited in order, each specifier pushed on
      the list its prefix selects. */
  function Classify(specifiers: seq<string>, acc: Imports): (r: Imports)
    ensures |r.external| + |r.internal| == |acc.external| + |acc.internal| + |specifiers|
    ensures acc.external <= r.external && acc.internal <= r.internal
    ensures forall k :: |acc.external| <= k < |r.external| ==> IsExternal(r.external[k]) && r.external[k] in specifiers
    ensures forall k :: |acc.internal| <= k < |r.internal| ==> IsInternal(r.internal[k]) && r.internal[k] in specifiers
    decreases |specifiers|
  {
    if specifiers == [] then acc
    else Classify(specifiers[1..], Push(acc, specifiers[0]))
  }

  /** Pushing the first specifier and filtering the rest is filtering
      them all. */
  lemma PushFilter(specifiers: seq<string>, acc: Imports)
    requires specifiers != []
    ensures Push(acc, specifiers[0]).external + Filter(IsExternal, specifiers[1..]) == acc.external + Filter(IsExternal, specifiers)
    ensures Push(acc, specifiers[0]).internal + Filter(IsInternal, specifiers[1..]) == acc.internal + Filter(IsInternal, specifiers)
  {
    if IsInternal(specifiers[0]) {
      PushedOn(IsInternal, IsExternal, specifiers, acc.internal, acc.external);
    } else {
      PushedOn(IsExternal, IsInternal, specifiers, acc.external, acc.internal);
    }
  }

  /** The first element goes on the list whose filter keeps it, and the
      other list is left alone. */
  lemma PushedOn(keep: string -> bool, drop: string -> bool, xs: seq<string>, onto: seq<string>, other: seq<string>)
    requires xs != [] && keep(xs[0]) && !drop(xs[0])
    ensures (onto + [xs[0]]) + Filter(keep, xs[1..]) == onto + Filter(keep, xs)
    ensures other + Filter(drop, xs[1..]) == other + Filter(drop, xs)
  {
    assert Filter(keep, xs) == [xs[0]] + Filter(keep, xs[1..]) by {
      FilterCons(keep, xs);
    }
    assert Filter(drop, xs) == Filter(drop, xs[1..]) by {
      FilterCons(drop, xs);
    }
  }

  /** Classifying appends to each list exactly the specifiers of its kind,
      in source order. */
  lemma {:induction false} ClassifyIsFilter(specifiers: seq<string>, acc: Imports)
    ensures Classify(specifiers, acc)
            == Imports(acc.external + Filter(IsExternal, specifiers), acc.internal + Filter(IsInternal, specifiers))
    decreases |specifiers|
  {
    if specifiers != [] {
      ClassifyIsFilter(specifiers[1..], Push(acc, specifiers[0]));
      PushFilter(specifiers, acc);
    }
  }

  /** The two lists split the specifiers: together they hold each one as
      often as the file imports it. */
  lemma {:induction false} ImportsPartition(specifiers: seq<string>)
    ensures multiset(Filter(IsExternal, specifiers)) + multiset(Filter(IsInternal, specifiers)) == multiset(specifiers)
    decreases |specifiers|
  {
    if specifiers != [] {
      ImportsPartition(specifiers[1..]);
      assert specifiers == [specifiers[0]] + specifiers[1..];
    }
  }

  /** Starting from empty lists, each list holds only specifiers of its
      kind. */
  lemma ClassifySides(specifiers: seq<string>)
    ensures forall k :: 0 <= k < |Classify(specifiers, Imports([], [])).external| ==>
              !IsInternal(Classify(specifiers, Imports([], [])).external[k])
    ensures forall k :: 0 <= k < |Classify(specifiers, Imports([], [])).internal| ==>
              IsInternal(Classify(specifiers, Imports([], [])).internal[k])
  {
    var r := Classify(specifiers, Imports([], []));
    ClassifyIsFilter(specifiers, Imports([], []));
    assert r.external == Filter(IsExternal, specifiers);
    assert r.internal == Filter(IsInternal, specifiers);
  }

  /** A list the source attaches only when it is not empty. */
  function NonEmptyList<T>(xs: seq<T>): (r: Option<seq<T>>)
    ensures r.Some? ==> r.value != []
    ensures r.None? <==> xs == []
  {
    if xs == [] then None else Some(xs)
  }

  /** The list an optional field stands for. */
  function Listed<T>(field: Option<seq<T>>): seq<T> {
    if field.Some? then field.value else []
  }

  /** `analyzeFile` for the file at root-relative path `rel`. */
  function AnalyzeFile(rel: Path, s: SourceSummary): (r: FileInfo)
    ensures r.path == rel
    ensures r.fileDescription.Some? ==> r.fileDescription.value != []
    ensures r.externalImports.Some? ==> r.externalImports.value != []
                                        && forall k :: 0 <= k < |r.externalImports.value| ==> !IsInternal(r.externalImports.value[k])
    ensures r.internalImports.Some? ==> r.internalImports.value != []
                                        && forall k :: 0 <= k < |r.internalImports.value| ==> IsInternal(r.internalImports.value[k])
    ensures r.functions.Some? ==> r.functions.value != []
                                  && forall k :: 0 <= k < |r.functions.value| ==> r.functions.value[k].name != []
  {
    FileInfo(
      LastName(rel),
      rel,
      FileDescription(s.leadingComments),
      ExternalImports(s.importSpecifiers),
      InternalImports(s.importSpecifiers),
      NonEmptyList(CollectFunctions(s)))
  }

  /** The `externalImports` field: the package imports, when there are any. */
  function ExternalImports(specifiers: seq<string>): (r: Option<seq<string>>)
    ensures r.Some? ==> r.value != [] && forall k :: 0 <= k < |r.value| ==> !IsInternal(r.value[k])
  {
    ClassifySides(specifiers);
    NonEmptyList(Classify(specifiers, Imports([], [])).external)
  }

  /** The `internalImports` field: the project imports, when there are any. */
  function InternalImports(specifiers: seq<string>): (r: Option<seq<string>>)
    ensures r.Some? ==> r.value != [] && forall k :: 0 <= k < |r.value| ==> IsInternal(r.value[k])
  {
    ClassifySides(specifiers);
    NonEmptyList(Classify(specifiers, Imports([], [])).internal)
  }

  /** The recorded imports are exactly the file's import specifiers, each
      on the list its prefix selects, in source order. */
  lemma AnalyzeFileImports(rel: Path, s: SourceSummary)
    ensures var r := AnalyzeFile(rel, s);
            && Listed(r.externalImports) == Filter(IsExternal, s.importSpecifiers)
            && Listed(r.internalImports) == Filter(IsInternal, s.importSpecifiers)
            && multiset(Listed(r.externalImports)) + multiset(Listed(r.internalImports)) == multiset(s.importSpecifiers)
  {
    ClassifyIsFilter(s.importSpecifiers, Imports([], []));
    ImportsPartition(s.importSpecifiers);
  }

  /** The recorded file name is the last segment of its path, and the
      recorded functions are the collected ones. */
  lemma AnalyzeFileNameAndFunctions(rel: Path, s: SourceSummary)
    requires rel != [] && rel[|rel| - 1] != []
    ensures AnalyzeFile(rel, s).name == rel[|rel| - 1]
    ensures Listed(AnalyzeFile(rel, s).functions) == CollectFunctions(s)
  {
  }
}
