/** The earlier plugin of src/index.ts: one condition (a `handler` property enclosing the
    cursor), the literal under it split on its first dot, and only a `.ts` file probed. */
module Legacy {
  import opened Optional
  import opened JsString
  import opened Syntax
  import opened Host
  import opened Patterns
  import opened Matcher
  import opened Resolver

  /** The condition passed to findNodeInTree: a property assignment whose first token is
      `handler` and whose span encloses the cursor, both ends inclusive. */
  predicate IsHandlerProperty(position: int, n: Node)
  {
    n.kind == PropertyAssignment && n.firstToken == Some("handler") && n.start <= position <= n.end
  }

  function HandlerCondition(position: int): Node -> bool
  {
    n => IsHandlerProperty(position, n)
  }

  /** findNodeInTree: the node itself when the condition holds, otherwise the first result of
      the children searched left to right. */
  method FindNodeInTree(n: Node, condition: Node -> bool) returns (r: Option<Node>)
    ensures r == FirstWhere(n, condition)
    decreases n
  {
    if condition(n) {
      return Some(n);
    }
    r := None;
    var i := 0;
    while r.None? && i < |n.children|
      invariant 0 <= i <= |n.children|
      invariant FirstWhere(n, condition) == if r.Some? then r else FirstWhereAll(n.children[i..], condition)
    {
      assert n.children[i..][0] == n.children[i] && n.children[i..][1..] == n.children[i + 1..];
      r := FindNodeInTree(n.children[i], condition);
      i := i + 1;
    }
  }

  /** `getChildren().find(node => node.kind === StringLiteral)`. */
  function FirstStringLiteral(cs: seq<Node>): (r: Option<Node>)
    ensures r.None? <==> forall i :: 0 <= i < |cs| ==> cs[i].kind != StringLiteral
    ensures r.Some? ==>
              exists i :: 0 <= i < |cs| && cs[i] == r.value && r.value.kind == StringLiteral
                && forall j :: 0 <= j < i ==> cs[j].kind != StringLiteral
  {
    if cs == [] then None
    else if cs[0].kind == StringLiteral then Some(cs[0])
    else
      var r := FirstStringLiteral(cs[1..]);
      if r.Some? then
        var i :| 0 <= i < |cs[1..]| && cs[1..][i] == r.value && r.value.kind == StringLiteral
          && forall j :: 0 <= j < i ==> cs[1..][j].kind != StringLiteral;
        assert cs[i + 1] == r.value;
        r
      else r
  }

  /** The literal the request works on: the first string-literal child of the first handler
      property enclosing the cursor. */
  function HandlerLiteral(root: Node, position: int): Option<Node>
  {
    match FirstWhere(root, HandlerCondition(position))
    case None => None
    case Some(property) => FirstStringLiteral(property.children)
  }

  /** The handler property found encloses the cursor, and it is the first such node in pre-order. */
  lemma HandlerPropertyFound(root: Node, position: int)
    ensures var found := FirstWhere(root, HandlerCondition(position));
            var s := PreOrder(root);
            var i := FirstIndex(s, HandlerCondition(position));
            (found.Some? ==> IsHandlerProperty(position, found.value))
            && found == if i == -1 then None else Some(s[i])
  {
    FirstWhereSound(root, HandlerCondition(position));
    FirstWhereIsFirstInPreOrder(root, HandlerCondition(position));
  }

  /** The file name and handler name taken from the literal. */
  datatype HandlerRef = HandlerRef(fileName: string, handlerName: string)

  /** `const [start, end] = text.split(".")`, then `${start.replace('"', "")}.ts` and
      `end.replace('"', "")`. Without a dot `end` is undefined and `end.replace` throws; the
      request then falls back to the original result, modelled as `None`. */
  function ParseHandler(text: string): (r: Option<HandlerRef>)
    ensures r.None? <==> '.' !in text
    ensures r.Some? ==> '.' !in r.value.handlerName
    ensures r.Some? ==> r.value.fileName == RemoveFirst(text[..IndexOf(text, '.')], '"') + ".ts"
  {
    var pieces := Split(text, '.');
    if |pieces| < 2 then None
    else
      var i := IndexOf(text, '.');
      assert pieces[0] == text[..i];
      RemoveFirstKeeps(pieces[1], '"', '.');
      Some(HandlerRef(RemoveFirst(pieces[0], '"') + ".ts", RemoveFirst(pieces[1], '"')))
  }

  /** The pieces used are the text before the first dot and the text between the first and
      the second dot (or the end); anything after the second dot is dropped. */
  lemma ParseHandlerPieces(first: string, second: string, rest: string, text: string)
    requires '.' !in first && '.' !in second
    requires rest == [] || rest[0] == '.'
    requires text == first + "." + second + rest
    ensures ParseHandler(text) == Some(HandlerRef(RemoveFirst(first, '"') + ".ts", RemoveFirst(second, '"')))
  {
    SplitFirstTwo(first, second, rest, '.');
    assert text == first + ['.'] + second + rest;
  }

  /** The path probed: `${projectDir}/${definitionFilename}`. */
  function HandlerPath(projectDir: string, ref: HandlerRef): string
  {
    projectDir + "/" + ref.fileName
  }

  /** getDefinitionAndBoundSpan of src/index.ts: when the handler literal under the cursor
      names a `.ts` file the program has, the literal's span bound to one definition spanning
      that file and named after the handler; otherwise the underlying service's own result. */
  method GetDefinitionAndBoundSpan(fileName: string, position: int, program: Option<Program>, projectDir: string)
    returns (r: DefinitionResponse)
    ensures r.Original? <==>
              program.None? || fileName !in program.value
              || HandlerLiteral(program.value[fileName].root, position).None?
              || ParseHandler(HandlerLiteral(program.value[fileName].root, position).value.text).None?
              || HandlerPath(projectDir, ParseHandler(HandlerLiteral(program.value[fileName].root, position).value.text).value)
                 !in program.value
    ensures r.Bound? ==>
              var literal := HandlerLiteral(program.value[fileName].root, position).value;
              var ref := ParseHandler(literal.text).value;
              var f := program.value[HandlerPath(projectDir, ref)];
              r.textSpan == TextSpan(literal.start, Width(literal))
              && |r.definitions| == 1
              && r.definitions[0].fileName == f.fileName
              && r.definitions[0].textSpan == FileSpan(f) && r.definitions[0].contextSpan == FileSpan(f)
              && r.definitions[0].name == ref.handlerName
              && r.definitions[0].containerName == "\"" + HandlerPath(projectDir, ref) + "\""
              && r.definitions[0].kind == ModuleElement && r.definitions[0].containerKind == ModuleElement
  {
    if program.None? {
      return Original;
    }
    var sourceFile := GetSourceFile(program.value, fileName);
    var handlerProperty: Option<Node> := None;
    if sourceFile.Some? {
      handlerProperty := FindNodeInTree(sourceFile.value.root, HandlerCondition(position));
    }
    var node := if handlerProperty.Some? then FirstStringLiteral(handlerProperty.value.children) else None;
    if node.None? {
      return Original;
    }
    var parsed := ParseHandler(node.value.text);
    if parsed.None? {
      return Original;
    }
    var definitionFilePath := projectDir + "/" + parsed.value.fileName;
    var definitionSourceFile := GetSourceFile(program.value, definitionFilePath);
    if definitionSourceFile.None? {
      return Original;
    }
    var f := definitionSourceFile.value;
    r := Bound(TextSpan(node.value.start, Width(node.value)),
               [DefinitionInfo(f.fileName, FileSpan(f), ModuleElement, parsed.value.handlerName,
                               "\"" + definitionFilePath + "\"", FileSpan(f), ModuleElement)]);
  }

  /** For a quoted literal, the file is everything between the opening quote and the first
      dot, and the handler is the text up to the next dot. */
  lemma ParseQuotedHandler(stem: string, second: string, rest: string, text: string)
    requires '.' !in stem && '.' !in second && '"' !in second
    requires rest == [] || rest[0] == '.'
    requires text == "\"" + stem + "." + second + rest
    ensures ParseHandler(text) == Some(HandlerRef(stem + ".ts", second))
  {
    var first := "\"" + stem;
    assert first[0] == '"' && first[1..] == stem;
    ParseHandlerPieces(first, second, rest, text);
  }

  /** A quoted `stem.symbol` literal with an undotted stem: the file is `stem.ts` and the
      handler is the symbol, with the closing quote removed. */
  lemma ParseQuotedSimple(stem: string, symbol: string, text: string)
    requires '.' !in stem && '"' !in stem && '.' !in symbol && '"' !in symbol
    requires text == "\"" + stem + "." + symbol + "\""
    ensures ParseHandler(text) == Some(HandlerRef(stem + ".ts", symbol))
  {
    var first := "\"" + stem;
    var second := symbol + "\"";
    assert first[0] == '"' && first[1..] == stem;
    assert '.' !in second;
    assert text == first + "." + second + [];
    ParseHandlerPieces(first, second, [], text);
    QuoteAfter(symbol, second);
  }

  /** Removing the first quote of `symbol"` gives back `symbol`. */
  lemma QuoteAfter(symbol: string, quoted: string)
    requires '"' !in symbol && quoted == symbol + "\""
    ensures RemoveFirst(quoted, '"') == symbol
  {
    assert quoted[|symbol|] == '"' && quoted[..|symbol|] == symbol;
  }

  lemma HandlerPathIsCandidate(projectDir: string, stem: string, symbol: string)
    ensures HandlerPath(projectDir, HandlerRef(stem + ".ts", symbol)) == SourceCandidate(projectDir, stem, ".ts")
  {
  }

  /** On a handler whose stem has no dot, this plugin and getDefinitionFromResult agree: the
      same `.ts` path and the same handler name whenever the program has that file. */
  lemma AgreesWithResolveOnUndottedStems(m: Match, stem: string, symbol: string, projectDir: string,
                                         program: Program, disk: Disk)
    requires m.key == FunctionHandler
    requires '.' !in stem && '"' !in stem && '.' !in symbol && '"' !in symbol
    requires m.node.text == "\"" + stem + "." + symbol + "\""
    ensures ParseHandler(m.node.text) == Some(HandlerRef(stem + ".ts", symbol))
    ensures HandlerPath(projectDir, HandlerRef(stem + ".ts", symbol)) in program ==>
              Resolve(m, projectDir, program, disk).filePath == HandlerPath(projectDir, HandlerRef(stem + ".ts", symbol))
              && Resolve(m, projectDir, program, disk).name == symbol
  {
    ParseQuotedSimple(stem, symbol, m.node.text);
    ResolveQuotedReference(m, stem, symbol, projectDir, program, disk);
    HandlerPathIsCandidate(projectDir, stem, symbol);
  }

  /** The first-dot split cuts a stem whose directories contain dots at its first dot: for
      `"packages/functions/something.with.dots/api.handler"` it probes
      `packages/functions/something.ts` for a handler named `with`. */
  lemma FirstDotSplitDropsDottedStem()
    ensures ParseHandler("\"" + "packages/functions/something" + "." + "with" + ".dots/api.handler\"")
         == Some(HandlerRef("packages/functions/something" + ".ts", "with"))
  {
    var stem := "packages/functions/something";
    var rest := ".dots/api.handler\"";
    ParseQuotedHandler(stem, "with", rest, "\"" + stem + "." + "with" + rest);
  }
}
