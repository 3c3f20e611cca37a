/** The host-facing shapes: the compiled program, the file system, and the records the
    language service exchanges for definitions and diagnostics. */
module Host {
  import opened Optional
  import opened Syntax

  /** A parsed file: its `fileName` and its root node (`getStart()`, `getWidth()`). */
  datatype SourceFile = SourceFile(fileName: string, root: Node)

  /** `getProgram().getSourceFile(path)`: the host's already parsed files, by path. */
  type Program = map<string, SourceFile>

  /** The files `fs.existsSync` finds, each with the tree `createSourceFile(path, contents, JSON)`
      builds from what `fs.readFileSync` returns for it. */
  type Disk = map<string, Node>

  /** `{ start, length }`. */
  datatype TextSpan = TextSpan(start: int, length: int)

  /** One entry of `definitions`. */
  datatype DefinitionInfo = DefinitionInfo(
    fileName: string,
    textSpan: TextSpan,
    kind: string,
    name: string,
    containerName: string,
    contextSpan: TextSpan,
    containerKind: string)

  /** What getDefinitionAndBoundSpan answers: the underlying service's own result, untouched,
      or a bound span with its definitions. */
  datatype DefinitionResponse =
    | Original
    | Bound(textSpan: TextSpan, definitions: seq<DefinitionInfo>)

  /** A diagnostic record; the underlying service's may have no file. */
  datatype Diagnostic = Diagnostic(
    start: int,
    code: int,
    category: int,
    messageText: string,
    source: string,
    file: Option<SourceFile>,
    length: int)

  /** `ScriptElementKind.moduleElement`. */
  const ModuleElement: string := "module"

  /** `getProgram().getSourceFile(path)`. */
  function GetSourceFile(program: Program, path: string): (r: Option<SourceFile>)
    ensures r.Some? <==> path in program
    ensures r.Some? ==> r.value == program[path]
  {
    if path in program then Some(program[path]) else None
  }

  /** The span of a whole file: its root's start and width. */
  function FileSpan(f: SourceFile): TextSpan
  {
    TextSpan(f.root.start, Width(f.root))
  }
}
