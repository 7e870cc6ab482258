# code-is-document: the analysis engine, in Dafny

code-is-document is a VS Code extension. It walks a TypeScript/JavaScript workspace and records, for every source file, the file's name and path. It also records the leading comment as a description, the imports (split into external and internal), and the functions with their JSDoc description, `@param` tags and `@return(s)` tag. These records are arranged in a directory tree, and the tree is turned into a node-link graph for a D3 view. This project models that engine as pure functions over immutable datatypes and proves its contracts.

| module | file | models |
|---|---|---|
| `Strings`, `Seqs` | strings.dfy, seqs.dfy | `startsWith`, `includes`, `endsWith`, `trim`, `split`, `join` and global `replace` on strings; filter, map and flat-map on sequences |
| `Paths` | paths.dfy | paths as segment lists; Node's POSIX `normalize`, `join`, `dirname`, `extname` |
| `Walker` | walker.dfy | `findFiles`: the depth-first, ignore-aware walk |
| `Records`, `Syntax` | records.dfy, syntax.dfy | FileInfo / FunctionInfo / directory records; what the parser reports about a file |
| `Tags` | tags.dfy | the `@param` and `@return(s)` regular expressions, as deterministic matchers |
| `Comments` | comments.dfy | `getFileDescription` |
| `Functions` | functions.dfy | `collectFunctions`, `processFunction` |
| `Analyzer` | analyzer.dfy | `analyzeFile` |
| `Structure` | structure.dfy | `addFileToStructure`, `cleanupEmptyCollections` |
| `Graph` | graph.dfy | `generateD3Data` |
| `Pipeline` | pipeline.dfy | `analyzeCode`, and the graph the visualisation command draws from it |

These parts of the system are parameters of the model:
- the file-system listing is an in-memory tree (`Walker.Entry`)
- the ignore rules are a predicate on root-relative paths
- the parser is a function from a path to a `Syntax.SourceSummary`
- `fs.existsSync` is a predicate `onDisk`

## Model

| member | source | states |
|---|---|---|
| Walker.Walk | src/extension.ts:106-128 | every kept path lies strictly below the directory being walked |
| Walker.WalkExact | src/extension.ts:106-128 | a path is kept iff it names a non-directory entry of the tree, its name ends in `.ts`, `.tsx`, `.js` or `.jsx`, and neither it nor any directory above it is ignored; so an ignored directory is never entered |
| Walker.VisitExact | src/extension.ts:113-126 | the same characterisation for one listing entry: ignored entries are skipped, directories are walked, and files are kept by extension |
| Walker.WalkSegments | src/extension.ts:113-115 | when every listed name is non-empty and has no `/`, so is every segment of every kept path |
| Paths.PathOf | src/extension.ts:162 | splitting a path string on `/` and joining it back gives the string; only the empty string gives no segments |
| Paths.PathOfText | src/extension.ts:162 | on well-formed segment lists, splitting the joined text gives the segments back |
| Paths.Normalize | src/extension.ts:515 | `path.normalize` never yields the empty path, and its result is in one of the normal shapes (no `.` or empty segment, `..` only leading and only for relative paths) |
| Paths.NormalizeIdempotent | src/extension.ts:515 | normalizing twice equals normalizing once |
| Paths.ResolveFromSplit | src/extension.ts:515 | resolving `a + b` resolves `a` and then `b` |
| Paths.JoinPaths | src/extension.ts:515 | `path.join` never yields the empty path |
| Paths.Dirname | src/extension.ts:514 | `dirname` is the path without its last segment, or `.` for a single segment |
| Tags.MatchParam | src/extension.ts:407-409 | a match has a non-empty word as name, a non-empty braced type without `}`, a non-empty one-line description, and the text contains `@param` |
| Tags.ParamAt | src/extension.ts:408 | a match anchored at `i` has `@param` at `i` and sound captures |
| Tags.BracedAt | src/extension.ts:408 | `{([^}]+)}` matches at `k` iff there is a `{` at `k` followed by a non-empty run without `}` and a closing `}`; the capture is that run |
| Tags.RestStart | src/extension.ts:408 | backtracking `\s*(.+)`: the description starts at the last non-line-terminator the whitespace can give back, or nowhere |
| Tags.ParamTagRoundTrip | src/extension.ts:405-409 | `@param {T} name - text`, written the documented way, yields exactly `T`, `name` and `text` |
| Tags.MatchReturn | src/extension.ts:428-430 | a match has a non-empty type without `}` and a one-line description, and the text contains `@return` |
| Tags.ReturnFrom | src/extension.ts:429 | after a keyword ending at `k`, nothing matches without white space there; with it, the captures are taken after that white space |
| Tags.ReturnAt | src/extension.ts:429 | a match has `@return` at `i` and sound captures; `@returns` followed by white space is matched after the `s`; otherwise the pattern continues right after `@return` |
| Tags.ReturnTagRoundTrip | src/extension.ts:426-430 | `@return {T} text` and `@returns {T} text` yield exactly `T` and `text` |
| Comments.Strip | src/extension.ts:306-309 | after the four global replacements no `*` is left |
| Comments.CleanLines | src/extension.ts:305-312 | every remaining line is non-empty, has no line break and no `*`, and is trimmed |
| Comments.CleanComment | src/extension.ts:305-313 | the cleaned comment has no `*`, is trimmed, and is empty iff no line survives |
| Comments.FileDescription | src/extension.ts:285-322 | a description, when there is one, is non-empty, has no `*` and is trimmed |
| Comments.DescriptionLines | src/extension.ts:298-321 | there is a description iff some kept comment has a clean line, and its lines are exactly the clean lines of the kept comments in order (no empty line) |
| Comments.DirectiveSkipped | src/extension.ts:300-304 | a comment containing `use client` or `use server` contributes nothing, wherever it stands |
| Comments.ContributionLines | src/extension.ts:305-317 | a comment contributes its clean lines joined by line breaks, or nothing when it has none |
| Functions.OrComment | src/extension.ts:416 | `captured \|\| comment \|\| undefined` is absent iff both are empty, and never an empty string |
| Functions.ParamOf | src/extension.ts:400-418 | a tag yields a parameter record iff it is a `param` tag whose text matches the pattern; the record carries the matched name and type, and the captured description or else the tag's comment; it is sound |
| Functions.Params | src/extension.ts:399-418 | every collected parameter record is sound, and there are no more records than tags |
| Functions.ParamsConcat | src/extension.ts:399-418 | the collected records are what the tags add, concatenated in tag order, each tag adding at most one |
| Functions.ParamsAreMatchingTags | src/extension.ts:399-418 | the collected records are exactly the records of the tags that yield one, one each, in tag order |
| Functions.ReturnOf | src/extension.ts:419-443 | a tag sets `returns` iff it is a `return`/`returns` tag that matches, or that does not match but has a comment; a match gives the matched type and the matched text, or else the tag's comment; a non-matching tag gives the comment alone with no type; the record is sound |
| Functions.ReturnsValid | src/extension.ts:419-443 | visiting the tags never makes a sound `returns` unsound |
| Functions.ReturnsIsLastApplicable | src/extension.ts:400-444 | the last tag that produces a return record decides `returns`; with none, it stays unset |
| Functions.ProcessFunction | src/extension.ts:364-454 | nothing is recorded iff neither the own name nor the fallback is non-empty; otherwise the name is the own non-empty name, else the fallback; without JSDoc, description, params and returns are all absent; with JSDoc, the description is the first block's trimmed description when that is non-empty, the params are the first block's parameter records when there are any, and the return record is the one the first block's tags leave; present fields are non-empty and sound |
| Functions.ProcessFunctionFirstBlock | src/extension.ts:388-392 | JSDoc blocks after the first never change the record |
| Functions.MethodCandidates | src/extension.ts:352-359 | every method is offered, in order, under `Class.method` (an absent name renders as `undefined`) |
| Functions.CollectFunctions | src/extension.ts:325-361 | every recorded function has a non-empty name |
| Functions.RecordedNames | src/extension.ts:325-381 | the recorded names are the candidates' chosen names with the empty ones left out, in order: declarations, then arrow functions and function expressions bound to variables, then class methods |
| Functions.AllMethodsRecorded | src/extension.ts:351-360 | every class method is recorded, since its fallback name always holds a `.` |
| Functions.ParamTagRecorded | src/extension.ts:400-418 | a documented `param` tag records its name, type and dash text |
| Functions.ReturnTagRecorded | src/extension.ts:419-437 | a documented return tag records its type, and its text, or else the tag comment |
| Analyzer.Classify | src/extension.ts:212-225 | the list sizes grow by exactly the number of specifiers; both lists keep what they held, and every appended entry is a specifier of the list's own kind (the exact lists are `Analyzer.ClassifyIsFilter`) |
| Analyzer.ClassifyIsFilter | src/extension.ts:212-225 | the internal list is exactly the specifiers starting with `.`, `/` or `@/`, and the external list is the rest, both in source order with duplicates kept |
| Analyzer.ImportsPartition | src/extension.ts:212-225 | the two lists together are a permutation of the specifiers |
| Analyzer.NonEmptyList | src/extension.ts:227-243 | a list is attached iff it is non-empty |
| Analyzer.ExternalImports | src/extension.ts:227-230 | the external list is attached only when non-empty, and holds no specifier starting with `.`, `/` or `@/` |
| Analyzer.InternalImports | src/extension.ts:232-234 | the internal list is attached only when non-empty, and every specifier on it starts with `.`, `/` or `@/` |
| Analyzer.AnalyzeFile | src/extension.ts:192-246 | the path is the root-relative path; every attached field is non-empty; internal and external imports are classified correctly; recorded functions have names |
| Analyzer.AnalyzeFileImports | src/extension.ts:208-234 | the attached import lists are the two filters of the specifiers, and together a permutation of them |
| Analyzer.AnalyzeFileNameAndFunctions | src/extension.ts:197-199 | the name is the last path segment, and the attached functions are the collected ones |
| Structure.Find | src/extension.ts:268 | the lookup finds the first entry stored under the key, or reports that none is |
| Structure.AddFile | src/extension.ts:249-282 | the directory keeps its name (where the record goes is the contract of the lemmas below) |
| Structure.AddFileFiles | src/extension.ts:249-282 | the record is appended to the file list of the directory its other segments lead to, and every other file list is unchanged |
| Structure.AddFileDirectories | src/extension.ts:263-274 | a directory exists afterwards iff it existed before or lies on the record's way; missing ones are created and named by their segment, and existing ones are reused |
| Structure.AddFileCount | src/extension.ts:249-282 | the tree holds exactly one record more |
| Structure.AddFileKeysUnique | src/extension.ts:268-274 | no directory map gains a duplicate key |
| Structure.AddFileNamed | src/extension.ts:263-274 | attaching a named record under non-empty segments keeps every directory and record named |
| Structure.AddFilePopulated | src/extension.ts:263-281 | directories are only created on the way to a record, so every directory keeps a record in or below it |
| Structure.Cleanup | src/extension.ts:174-189 | the name is kept; the file list survives iff it is non-empty; the map survives iff it is non-empty |
| Structure.CleanupPrunes | src/extension.ts:174-189 | afterwards no directory, root included, has an empty file list or an empty map |
| Structure.PrunedIsFixed | src/extension.ts:174-189 | cleanup leaves a pruned tree unchanged |
| Structure.CleanupIdempotent | src/extension.ts:174-189 | cleaning twice equals cleaning once |
| Structure.CleanupKeepsContents | src/extension.ts:174-189 | every directory survives and every file list keeps its contents and order |
| Structure.CleanupCount | src/extension.ts:174-189 | no record is lost or added |
| Structure.CleanupPopulated | src/extension.ts:174-189 | a populated tree stays populated, so the missing cascade leaves no empty directory |
| Structure.CleanupNamed | src/extension.ts:174-189 | cleanup keeps a named tree named |
| Structure.BuildFrom | src/extension.ts:152-165 | attaching the records keeps the root's name |
| Structure.BuildFiles | src/extension.ts:152-165 | after attaching, every directory lists exactly the records whose path leads to it, in the order they were attached |
| Structure.BuildNamed | src/extension.ts:152-165 | attaching named records keeps the tree named |
| Structure.BuildPopulated | src/extension.ts:152-165 | attaching records keeps the tree populated |
| Structure.AddFileAsWritten | src/extension.ts:249-282 | the lookup as written, where an inherited `Object.prototype` name counts as present |
| Structure.InheritedNameLosesFile | src/extension.ts:268-281 | as written, a file under a directory with an inherited name, such as `constructor` or `__proto__`, vanishes from the tree; the corrected insertion lists it there |
| Structure.AsWrittenAgrees | src/extension.ts:268-281 | the two insertions agree whenever no directory segment is an inherited name |
| Graph.ProbeFromFirst | src/extension.ts:516-525 | probing picks the first of `.ts`, `.tsx`, `.js`, `.jsx` whose path is visited or on disk, or keeps the path when none is |
| Graph.ResolveRelative | src/extension.ts:513-525 | a relative import resolves to the normalized join of the importer's directory and the specifier when that has an extension or no extension matches, and otherwise to the join plus the first matching extension |
| Graph.ResolveAlias | src/extension.ts:526-537 | an `@/` import resolves to `src/` plus the rest, or to that plus the first matching extension when it has none |
| Graph.SiblingImport | src/extension.ts:513-525 | `./b` imported from `src/a.ts` resolves to `src/b.ts` once that file is visited |
| Graph.Emit | src/extension.ts:477-548 | emitting appends exactly one node, keeps the earlier nodes and links, and leaves the path map alone |
| Graph.Register | src/extension.ts:473-475 | registering a path touches neither nodes nor links |
| Graph.VisitDir | src/extension.ts:463-571 | a visit only appends nodes and links |
| Graph.GraphNames | src/extension.ts:463-574 | the nodes are the named entries of the tree in pre-order, each directory's subdirectories before its files |
| Graph.VisitDirNames | src/extension.ts:463-571 | each visit appends exactly the named entries below it, in pre-order |
| Graph.VisitDirSound | src/extension.ts:463-571 | the walk keeps the invariant: node `k` has id `k`, every registered path maps to a node, every hierarchy link goes one level down (or from index 0 at the top), and every dependency starts at a file |
| Graph.EnterDirSound | src/extension.ts:470-506 | registering a directory's path and emitting its node, when it is named, keeps the invariant, and its index is a proper parent for the level below |
| Graph.EmitSound | src/extension.ts:477-548 | emitting a node at the next index, linked from a parent one level up, keeps the invariant |
| Graph.GraphSound | src/extension.ts:457-596 | in the result, node `k` has id `k` and every link joins two nodes; hierarchy links go one level down, top-level entries from node 0; dependencies start at files |
| Graph.GraphSoundAsWritten | src/extension.ts:457-596 | the same shape holds of the graph as the code draws it, without the second probe |
| Graph.FinalizeSound | src/extension.ts:577-593 | every link the final pass keeps points at a node index |
| Graph.FinalizeKeepsHierarchy | src/extension.ts:577-580 | the final pass keeps every hierarchy link, in order |
| Graph.FinalizeBindsDependencies | src/extension.ts:582-592 | a dependency survives iff its path is in the path map, and it then points at that path's index, marked resolved |
| Graph.GraphDependenciesAsWritten | src/extension.ts:508-593 | as written, the graph's resolved dependencies are exactly the walk's dependencies whose path, as resolved when the importer was visited, names a visited entry, bound to its index |
| Graph.ReprobeSound | src/extension.ts:577-593 | probing the unbound dependencies again keeps every link sound that the walk leaves sound; only dependency targets change |
| Graph.ReprobeKeepsHierarchy | src/extension.ts:577-580 | probing again touches no hierarchy link and reorders none |
| Graph.ReprobeUnbound | src/extension.ts:516-525 | after probing again every dependency is still unbound, and the unbound dependencies are exactly the walk's ones with their paths probed against every visited path |
| Graph.ReprobeBindsDependencies | src/extension.ts:577-593 | with the probe repeated, a dependency survives iff its path, probed against every visited path, names a visited entry, and then it points at that entry's index |
| Graph.GraphDependencies | src/extension.ts:508-593 | the graph's resolved dependencies are exactly the walk's dependencies whose path, probed again against all visited paths, names a visited entry, bound to its index, whatever the order of the walk |
| Graph.ForwardImportLost | src/extension.ts:508-593 | as written, `src/a.ts` importing `./b` with `src/b.ts` listed after it gives a graph with the three hierarchy links and no dependency |
| Graph.ForwardImportBound | src/extension.ts:508-593 | with the probe repeated, the same workspace gives the dependency from `a.ts` (node 1) to `b.ts` (node 2) |
| Graph.VisitDirTargets | src/extension.ts:499-506 | below a parent, each emitted node gets exactly one hierarchy link, in emission order |
| Graph.GraphHierarchy | src/extension.ts:463-593 | with the root unnamed, the hierarchy links target the nodes `0, 1, …` exactly once each, in node order |
| Graph.FirstLinkIsSelfLoop | src/extension.ts:470-506 | the unnamed root passes its index 0 to its children, and the first child also gets id 0, so the first link is the hierarchy link 0→0 at depth 1 |
| Pipeline.AnalyzeCode | src/extension.ts:88-171 | the analysed tree is unnamed and has no empty list or map |
| Pipeline.AnalyzeCodeFiles | src/extension.ts:137-168 | every directory lists the records of exactly the walked files directly inside it, in walk order |
| Pipeline.AnalyzeCodeListsFile | src/extension.ts:106-168 | a workspace file is listed in its directory iff it has a source extension and neither it nor a directory above it is ignored |
| Pipeline.AnalyzeCodeNamed | src/extension.ts:152-168 | every directory and record of the analysed tree is named |
| Pipeline.AnalyzeCodePopulated | src/extension.ts:152-168 | every directory of the analysed tree holds a record |
| Pipeline.ShowGraph | src/extension.ts:57-77 | the graph drawn for a workspace has the pre-order node list and satisfies the soundness statement of `Graph.GraphSound` |
| Pipeline.FilesOnlyDirectoryIsNotMarked | src/extension.ts:482 | a directory holding only files loses its map in the cleanup, so it is drawn with `isDirectory` false |

## Left out

- Host plumbing is not modelled: VS Code activation, command registration, messages, and the async wrappers. Neither is the YAML dump or the output file write (src/extension.ts:18-85). The webview, D3 layouts and geometry (src/extension.ts:599-1085) are left out too.
- The parser (ts-morph) is left out. A file is given as the summary it would report: leading comments (`None` when there are no statements), import specifiers, declarations, variable initializers by kind, and classes with their methods. The order of `project.getSourceFiles()` is taken to be the order of the walk.
- The `ignore` library and `.gitignore` loading (src/extension.ts:93-103) are left out. Ignoring is an arbitrary predicate on root-relative segment lists.
- `fs.readdirSync` is an in-memory listing, and `fs.existsSync` is the predicate `onDisk`. The walk's error path (src/extension.ts:130-134) is left out. In the code, one `try` surrounds the top-level call, so a listing failure anywhere abandons the rest of the walk but keeps the files found so far.
- `path.sep` is taken to be `/`, and paths are root-relative, so `path.relative` is the identity on the walk's paths.
- JavaScript `for…in` visits integer-like keys first, in ascending order; that ordering is not modelled. Directory maps are visited in insertion order.
- JavaScript `trim` white space is the ECMAScript set of white-space and line-terminator code points; no other Unicode handling is modelled.
- Structure.AddFileAsWritten: for `__proto__` the lost file is stored on `Object.prototype` itself, which every object made later inherits, so the cleanup and the graph would then read inherited `files` and `directories`. The model records only that the file is missing from the tree.
- Structure.BuildFrom, Structure.BuildFiles, Structure.BuildNamed, Structure.BuildPopulated, Pipeline.AnalyzeCode and every other Pipeline.AnalyzeCode member use the corrected own-property `Structure.AddFile`. They hold of the code as written only when no directory segment of a walked path is an inherited name, which is when the two insertions agree (Structure.AsWrittenAgrees).
- Graph.GenerateGraph probes the extension of every unbound dependency again before the final pass. Graph.GraphSound, Graph.GraphHierarchy, Graph.FirstLinkIsSelfLoop and Pipeline.ShowGraph are stated of this corrected graph. Probing again changes only dependency targets; Graph.GraphSoundAsWritten states the soundness of the graph as written, and Graph.FinalizeKeepsHierarchy its hierarchy links. Graph.GraphDependenciesAsWritten gives the dependencies as written.
- Graph.Retarget probes against visited paths only, not `onDisk`. When the walk's probe found nothing, the disk had no candidate then, and it is taken to have none at the end either.
- Paths.Dirname: only root-relative paths of at least one segment are modelled. Absolute paths are out of scope because the engine only passes relative file paths.
- Graph.GraphSound, Graph.GraphHierarchy, Graph.FirstLinkIsSelfLoop and Pipeline.ShowGraph assume every entry below the root is named, or that the root is unnamed. That is what the analysis produces (Pipeline.AnalyzeCodeNamed). An unnamed entry with a path would register an index that no node ever takes.
- `fs.existsSync` is called with root-relative paths, which resolve against the process's working directory rather than the workspace. The model keeps whatever `onDisk` answers.

## Findings

| source | as written | input that shows it | evidently intended | confidence | as-written member | corrected member |
|---|---|---|---|---|---|---|
| src/extension.ts:268 | `if (!current.directories[dirName])` also sees names inherited from `Object.prototype`, so `constructor` or `__proto__` counts as an existing directory and the recursion then stores the file on the inherited value | a workspace file `constructor/a.ts` or `__proto__/a.ts` | the file is listed under a new directory of that name, as for any other name (own-property lookup) | not executed | Structure.InheritedNameLosesFile | Structure.AddFile |
| src/extension.ts:577-593 | the final pass looks up the path exactly as the walk resolved it; the walk probes extensions only against the paths visited so far or on disk, so an import of a file visited after the importer keeps its extension-less path, which is never a key | `src/a.ts` importing `./b`, with `src/b.ts` listed after it and no `src/b.ts` relative to the process's working directory | the import is drawn as a dependency from `a.ts` to `b.ts`, as it is when `b.ts` is listed first | not executed | Graph.ForwardImportLost | Graph.ForwardImportBound |
