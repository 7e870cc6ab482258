/** The records the engine produces: per-file metadata and the directory
    tree that holds it. A field the source leaves off its object is
    `None`; the source never attaches an empty list or string to a
    FileInfo or FunctionInfo, and the contracts of the producers say so. */
module Records {
  import opened Paths

  datatype Option<+T> = None | Some(value: T)

  /** One `@param` tag that matched the parameter pattern. */
  datatype ParamInfo = ParamInfo(name: string, typeText: Option<string>, description: Option<string>)

  /** The last `@return` / `@returns` tag that produced something. */
  datatype ReturnInfo = ReturnInfo(typeText: Option<string>, description: Option<string>)

  datatype FunctionInfo = FunctionInfo(
    name: string,
    description: Option<string>,
    params: Option<seq<ParamInfo>>,
    returnInfo: Option<ReturnInfo>)

  /** What is recorded of one source file; `path` is root-relative. */
  datatype FileInfo = FileInfo(
    name: string,
    path: Path,
    fileDescription: Option<string>,
    externalImports: Option<seq<string>>,
    internalImports: Option<seq<string>>,
    functions: Option<seq<FunctionInfo>>)

  /** A directory of the structure tree. The root is the directory with
      the empty name (the source gives it a `path` and no `name`); every
      other directory is named by its path segment, which is also its key
      in its parent's `directories` map. */
  datatype Dir = Dir(name: string, files: Option<seq<FileInfo>>, directories: Subdirs)

  /** A `directories` map: absent, or its entries in insertion order. */
  datatype Subdirs = NoDirectories | Directories(entries: seq<Dir>)
}
