/** What the engine reads from the TypeScript parser, reduced to the
    parts it uses. The parser itself is not modelled: a file is given as
    the summary it would report. */
module Syntax {
  import opened Records

  /** A JSDoc tag: its tag name, its full source text (`@param {T} x - d`)
      and its comment text (`""` when it has none). */
  datatype Tag = Tag(tagName: string, text: string, comment: string)

  /** A JSDoc block: its free-text description and its tags in order. */
  datatype JsDoc = JsDoc(description: string, tags: seq<Tag>)

  /** Anything function-like: a function declaration, an arrow function, a
      function expression or a class method. `ownName` is what its own
      `getName()` returns (`None` when it has no name of its own or no
      `getName` at all); `docs` are the JSDoc blocks attached to it. */
  datatype FunctionLike = FunctionLike(ownName: Option<string>, docs: seq<JsDoc>)

  /** The initializer of a variable declaration, by syntax kind. */
  datatype Initializer =
    | NoInitializer
    | ArrowFunction(arrow: FunctionLike)
    | FunctionExpression(expression: FunctionLike)
    | OtherExpression

  datatype VariableDecl = VariableDecl(name: string, initializer: Initializer)

  /** A class: its own name (`None` for an anonymous class) and methods. */
  datatype ClassDecl = ClassDecl(name: Option<string>, methods: seq<FunctionLike>)

  /** A parsed source file. `leadingComments` is `None` when the file has
      no statements, otherwise the texts of the comments before its first
      statement. */
  datatype SourceSummary = SourceSummary(
    leadingComments: Option<seq<string>>,
    importSpecifiers: seq<string>,
    functions: seq<FunctionLike>,
    variables: seq<VariableDecl>,
    classes: seq<ClassDecl>)
}
