/** getDefinitionFromResult of dist/index.js: decode a matched literal and probe the
    program or the disk for the file it names. */
module Resolver {
  import opened Optional
  import opened JsString
  import opened Host
  import opened Patterns
  import opened Matcher

  /** `{ definitionSourceFile, definitionName, definitionFilePath }`. */
  datatype Definition = Definition(sourceFile: Option<SourceFile>, name: string, filePath: string)

  /** A handler or subscription reference: file stem and exported symbol. */
  datatype Reference = Reference(stem: string, symbol: string)

  /** `getText().replaceAll('"', "")`. */
  function Dequote(text: string): (r: string)
    ensures '"' !in r
    ensures multiset(r) == multiset(text)['"' := 0]
  {
    RemoveAll(text, '"')
  }

  /** The split on the last `.`: `substring(0, dot)` and `substring(dot + 1)` with
      `dot = lastIndexOf(".")`. Without a dot, `dot` is -1, the stem clamps to empty and
      the symbol is the whole text. */
  function SplitReference(path: string): (r: Reference)
    ensures '.' !in r.symbol
    ensures '.' in path ==> r.stem + "." + r.symbol == path
    ensures '.' !in path ==> r.stem == "" && r.symbol == path
  {
    var dot := LastIndexOf(path, '.');
    var r := Reference(Substring(path, 0, dot), SubstringFrom(path, dot + 1));
    assert '.' in path ==> path == path[..dot] + [path[dot]] + path[dot + 1..];
    r
  }

  /** The split undoes the join whenever the symbol has no dot, however many dots the stem
      has: the stem ends at the last dot. */
  lemma SplitJoin(stem: string, symbol: string, path: string)
    requires '.' !in symbol && path == stem + "." + symbol
    ensures SplitReference(path) == Reference(stem, symbol)
  {
    assert path[|stem|] == '.';
    assert path[|stem| + 1..] == symbol;
    assert LastIndexOf(path, '.') == |stem|;
    assert path[..|stem|] == stem;
  }

  /** A stem whose directories contain dots keeps them. */
  lemma DottedStemSplit()
    ensures SplitReference("packages/functions/something.with.dots/api" + ".handler")
         == Reference("packages/functions/something.with.dots/api", "handler")
  {
    var stem := "packages/functions/something.with.dots/api";
    assert stem + ".handler" == stem + "." + "handler";
    SplitJoin(stem, "handler", stem + ".handler");
  }

  /** `${projectDir}/${stem}${extension}`. */
  function SourceCandidate(projectDir: string, stem: string, extension: string): string
  {
    projectDir + "/" + stem + extension
  }

  /** `${projectDir}/${path}/package.json`. */
  function ManifestPath(projectDir: string, directory: string): string
  {
    projectDir + "/" + directory + "/package.json"
  }

  /** What getDefinitionFromResult returns for a match. */
  function Resolve(m: Match, projectDir: string, program: Program, disk: Disk): Definition
  {
    var path := Dequote(m.node.text);
    if m.key == PackagePath then
      var manifest := ManifestPath(projectDir, path);
      Definition(if manifest in disk then Some(SourceFile(manifest, disk[manifest])) else None, "package.json", manifest)
    else
      var ref := SplitReference(path);
      var ts := SourceCandidate(projectDir, ref.stem, ".ts");
      var js := SourceCandidate(projectDir, ref.stem, ".js");
      if ts in program then Definition(Some(program[ts]), ref.symbol, ts)
      else Definition(GetSourceFile(program, js), ref.symbol, js)
  }

  /** Handler and subscription references: the symbol is the text after the last dot; the
      `.ts` candidate is probed first and the `.js` candidate only when the `.ts` file is absent;
      the reported path is the `.js` candidate when neither exists; a resolved definition is
      the program's file at the reported path. */
  lemma ResolveSourcePolicy(m: Match, projectDir: string, program: Program, disk: Disk)
    requires m.key != PackagePath
    ensures var d := Resolve(m, projectDir, program, disk);
            var ref := SplitReference(Dequote(m.node.text));
            var ts := SourceCandidate(projectDir, ref.stem, ".ts");
            var js := SourceCandidate(projectDir, ref.stem, ".js");
            d.name == ref.symbol
            && d.filePath == (if ts in program then ts else js)
            && (d.sourceFile.Some? <==> ts in program || js in program)
            && (d.sourceFile.Some? ==> d.filePath in program && d.sourceFile.value == program[d.filePath])
  {
  }

  /** Package paths: the one path probed is the manifest inside the directory named by the
      literal, the definition is named `package.json`, and it resolves exactly when that file exists. */
  lemma ResolveManifestPolicy(m: Match, projectDir: string, program: Program, disk: Disk)
    requires m.key == PackagePath
    ensures var d := Resolve(m, projectDir, program, disk);
            d.filePath == ManifestPath(projectDir, Dequote(m.node.text))
            && d.name == "package.json"
            && (d.sourceFile.Some? <==> d.filePath in disk)
            && (d.sourceFile.Some? ==> d.sourceFile.value == SourceFile(d.filePath, disk[d.filePath]))
  {
  }

  /** A quoted `stem.symbol` literal names `symbol` in `stem.ts`, or in `stem.js` when the
      program has no `stem.ts`, however many dots the stem has. */
  lemma ResolveQuotedReference(m: Match, stem: string, symbol: string, projectDir: string,
                               program: Program, disk: Disk)
    requires m.key != PackagePath
    requires '"' !in stem && '"' !in symbol && '.' !in symbol
    requires m.node.text == "\"" + stem + "." + symbol + "\""
    ensures Resolve(m, projectDir, program, disk).name == symbol
    ensures Resolve(m, projectDir, program, disk).filePath
         == if SourceCandidate(projectDir, stem, ".ts") in program then SourceCandidate(projectDir, stem, ".ts")
            else SourceCandidate(projectDir, stem, ".js")
  {
    var inner := stem + "." + symbol;
    assert m.node.text == ['"'] + inner + ['"'];
    RemoveAllWrapped(inner, '"');
    SplitJoin(stem, symbol, inner);
    ResolveSourcePolicy(m, projectDir, program, disk);
  }

  /** A quoted package path names the manifest inside that directory. */
  lemma ResolveQuotedPackage(m: Match, directory: string, projectDir: string, program: Program, disk: Disk)
    requires m.key == PackagePath
    requires '"' !in directory
    requires m.node.text == "\"" + directory + "\""
    ensures Resolve(m, projectDir, program, disk).filePath == ManifestPath(projectDir, directory)
  {
    assert m.node.text == ['"'] + directory + ['"'];
    RemoveAllWrapped(directory, '"');
  }

  /** getDefinitionFromResult, with its `let` variables reassigned across the probes. */
  method GetDefinitionFromResult(m: Match, projectDir: string, program: Program, disk: Disk)
    returns (d: Definition)
    ensures d == Resolve(m, projectDir, program, disk)
  {
    var filePath := "";
    var name := "";
    var sourceFile: Option<SourceFile> := None;
    var path := Dequote(m.node.text);
    if m.key == DynamoSubscription || m.key == FunctionHandler {
      var dot := LastIndexOf(path, '.');
      var stem := Substring(path, 0, dot);
      name := SubstringFrom(path, dot + 1);
      assert SplitReference(path) == Reference(stem, name);
      filePath := projectDir + "/" + stem + ".ts";
      sourceFile := GetSourceFile(program, filePath);
      if sourceFile.None? {
        filePath := projectDir + "/" + stem + ".js";
        sourceFile := GetSourceFile(program, filePath);
      }
    }
    if m.key == PackagePath {
      filePath := projectDir + "/" + path + "/package.json";
      name := "package.json";
      if filePath in disk {
        sourceFile := Some(SourceFile(filePath, disk[filePath]));
      }
    }
    d := Definition(sourceFile, name, filePath);
  }
}
