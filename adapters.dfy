/** The bodies of getSemanticDiagnostics and getDefinitionAndBoundSpan in dist/index.js:
    turning matches and their resolutions into diagnostics or a definition result. */
module Adapters {
  import opened Optional
  import opened Syntax
  import opened Host
  import opened Patterns
  import opened Matcher
  import opened Resolver

  /** `DiagnosticCategory.Error`. */
  const CategoryError: int := 1

  /** The code of every "Cannot find file" diagnostic. */
  const CannotFindFileCode: int := 557

  /** The category chosen from the `check-paths` rule (`None` when it is not configured):
      the configured number when it lies strictly between -1 and 4, otherwise Error. */
  function Category(checkPaths: Option<int>): (c: int)
    ensures 0 <= c <= 3
    ensures checkPaths.Some? && 0 <= checkPaths.value <= 3 ==> c == checkPaths.value
    ensures checkPaths.None? || checkPaths.value < 0 || checkPaths.value > 3 ==> c == CategoryError
  {
    if checkPaths.Some? && -1 < checkPaths.value < 4 then checkPaths.value else CategoryError
  }

  /** The diagnostic pushed for an unresolved match. */
  function Unfound(m: Match, filePath: string, file: SourceFile, checkPaths: Option<int>): Diagnostic
  {
    Diagnostic(m.node.start, CannotFindFileCode, Category(checkPaths), "Cannot find file " + filePath,
               "ts-sst-plugin", Some(file), Width(m.node))
  }

  /** The elements of `xs` that satisfy `p`, in order. */
  function Filter<T>(xs: seq<T>, p: T -> bool): (r: seq<T>)
    ensures |r| <= |xs|
    ensures forall i :: 0 <= i < |r| ==> r[i] in xs && p(r[i])
    ensures forall i :: 0 <= i < |xs| && p(xs[i]) ==> xs[i] in r
  {
    if xs == [] then [] else (if p(xs[0]) then [xs[0]] else []) + Filter(xs[1..], p)
  }

  /** `g` applied to each element of `xs`, in order. */
  function Map<T, U>(xs: seq<T>, g: T -> U): (r: seq<U>)
    ensures |r| == |xs|
    ensures forall i :: 0 <= i < |xs| ==> r[i] == g(xs[i])
  {
    seq(|xs|, i requires 0 <= i < |xs| => g(xs[i]))
  }

  /** The concatenation of `f(x)` over `xs`, in order: what a `forEach` that pushes
      `f(x)`'s elements builds. */
  function FlatMap<T, U>(xs: seq<T>, f: T -> seq<U>): seq<U>
  {
    if xs == [] then [] else f(xs[0]) + FlatMap(xs[1..], f)
  }

  lemma {:induction false} FlatMapAppend<T, U>(a: seq<T>, b: seq<T>, f: T -> seq<U>)
    ensures FlatMap(a + b, f) == FlatMap(a, f) + FlatMap(b, f)
  {
    if a == [] {
      assert a + b == b;
    } else {
      assert (a + b)[0] == a[0] && (a + b)[1..] == a[1..] + b;
      FlatMapAppend(a[1..], b, f);
    }
  }

  /** A `forEach` that pushes at most one element per item pushes `g(x)` for exactly the
      items `x` that satisfy `p`, in order. */
  lemma {:induction false} FlatMapOfOptional<T, U>(xs: seq<T>, f: T -> seq<U>, p: T -> bool, g: T -> U)
    requires forall x :: f(x) == if p(x) then [g(x)] else []
    ensures FlatMap(xs, f) == Map(Filter(xs, p), g)
  {
    if xs != [] {
      FlatMapOfOptional(xs[1..], f, p, g);
      var rest := Filter(xs[1..], p);
      assert FlatMap(xs, f) == f(xs[0]) + FlatMap(xs[1..], f);
      if p(xs[0]) {
        assert f(xs[0]) == [g(xs[0])];
        assert Filter(xs, p) == [xs[0]] + rest;
        MapCons(xs[0], rest, g);
      } else {
        assert f(xs[0]) == [];
        assert Filter(xs, p) == rest;
      }
    }
  }

  lemma MapCons<T, U>(x: T, rest: seq<T>, g: T -> U)
    ensures Map([x] + rest, g) == [g(x)] + Map(rest, g)
  {
    assert forall i :: 0 < i <= |rest| ==> ([x] + rest)[i] == rest[i - 1];
  }

  /** Whether the reference of a match fails to resolve. */
  function Fails(projectDir: string, program: Program, disk: Disk): Match -> bool
  {
    m => Resolve(m, projectDir, program, disk).sourceFile.None?
  }

  /** The matches whose reference does not resolve, in match order. */
  function Unresolved(ms: seq<Match>, projectDir: string, program: Program, disk: Disk): (r: seq<Match>)
    ensures forall m :: m in r ==> m in ms && Resolve(m, projectDir, program, disk).sourceFile.None?
    ensures r == [] <==> forall m :: m in ms ==> Resolve(m, projectDir, program, disk).sourceFile.Some?
  {
    var r := Filter(ms, Fails(projectDir, program, disk));
    assert r != [] ==> r[0] in ms && Fails(projectDir, program, disk)(r[0]);
    r
  }

  /** What the `forEach` pushes for one match: a "Cannot find file" diagnostic when its
      reference does not resolve, nothing otherwise. */
  function DiagnosticsFor(m: Match, file: SourceFile, projectDir: string, program: Program,
                          disk: Disk, checkPaths: Option<int>): seq<Diagnostic>
  {
    var d := Resolve(m, projectDir, program, disk);
    if d.sourceFile.None? then [Unfound(m, d.filePath, file, checkPaths)] else []
  }

  function Contribution(file: SourceFile, projectDir: string, program: Program,
                        disk: Disk, checkPaths: Option<int>): Match -> seq<Diagnostic>
  {
    m => DiagnosticsFor(m, file, projectDir, program, disk, checkPaths)
  }

  /** The diagnostic reported for an unresolved match, naming the path last probed. */
  function Report(file: SourceFile, projectDir: string, program: Program,
                  disk: Disk, checkPaths: Option<int>): Match -> Diagnostic
  {
    m => Unfound(m, Resolve(m, projectDir, program, disk).filePath, file, checkPaths)
  }

  /** `customDiagnostics` after the `forEach`. */
  function CustomDiagnostics(ms: seq<Match>, file: SourceFile, projectDir: string, program: Program,
                             disk: Disk, checkPaths: Option<int>): seq<Diagnostic>
  {
    FlatMap(ms, Contribution(file, projectDir, program, disk, checkPaths))
  }

  /** One more match of the `forEach`. */
  lemma CustomDiagnosticsStep(ms: seq<Match>, i: nat, file: SourceFile, projectDir: string,
                              program: Program, disk: Disk, checkPaths: Option<int>)
    requires i < |ms|
    ensures CustomDiagnostics(ms[..i + 1], file, projectDir, program, disk, checkPaths)
         == CustomDiagnostics(ms[..i], file, projectDir, program, disk, checkPaths)
          + DiagnosticsFor(ms[i], file, projectDir, program, disk, checkPaths)
  {
    var f := Contribution(file, projectDir, program, disk, checkPaths);
    assert ms[..i + 1] == ms[..i] + [ms[i]];
    FlatMapAppend(ms[..i], [ms[i]], f);
    assert FlatMap([ms[i]], f) == f(ms[i]) + FlatMap([], f);
  }

  /** Exactly one diagnostic per unresolved match, in match order, anchored at the literal,
      with code 557, the configured category and a message naming the path last probed. */
  lemma CustomDiagnosticsPerUnresolved(ms: seq<Match>, file: SourceFile, projectDir: string,
                                       program: Program, disk: Disk, checkPaths: Option<int>)
    ensures |CustomDiagnostics(ms, file, projectDir, program, disk, checkPaths)| == |Unresolved(ms, projectDir, program, disk)|
    ensures forall i :: 0 <= i < |Unresolved(ms, projectDir, program, disk)| ==>
              Reports(CustomDiagnostics(ms, file, projectDir, program, disk, checkPaths)[i],
                      Unresolved(ms, projectDir, program, disk)[i], file, projectDir, program, disk, checkPaths)
  {
    var f := Contribution(file, projectDir, program, disk, checkPaths);
    var p := Fails(projectDir, program, disk);
    var g := Report(file, projectDir, program, disk, checkPaths);
    forall m ensures f(m) == if p(m) then [g(m)] else [] {
    }
    FlatMapOfOptional(ms, f, p, g);
  }

  /** `d` is the diagnostic for the unresolved match `m`: at the literal's start and width,
      code 557, the configured category, and a message naming the path last probed. */
  predicate Reports(d: Diagnostic, m: Match, file: SourceFile, projectDir: string, program: Program,
                    disk: Disk, checkPaths: Option<int>)
  {
    d.start == m.node.start && d.length == Width(m.node)
    && d.code == CannotFindFileCode && d.category == Category(checkPaths)
    && d.messageText == "Cannot find file " + Resolve(m, projectDir, program, disk).filePath
    && d.source == "ts-sst-plugin" && d.file == Some(file)
  }

  /** getSemanticDiagnostics: the underlying service's diagnostics, followed by one diagnostic
      per unresolved reference of the file. With no program (`getProgram` throws), no such file
      or no matches, the original diagnostics come back unchanged. */
  method GetSemanticDiagnostics(original: seq<Diagnostic>, fileName: string, program: Option<Program>,
                                projectDir: string, disk: Disk, checkPaths: Option<int>)
    returns (ds: seq<Diagnostic>)
    ensures |ds| >= |original| && ds[..|original|] == original
    ensures program.None? || fileName !in program.value ==> ds == original
    ensures program.Some? && fileName in program.value ==>
              var file := program.value[fileName];
              ds == original + CustomDiagnostics(TargetMatches(file.root), file, projectDir, program.value, disk, checkPaths)
  {
    if program.None? {
      return original;
    }
    var sourceFile := GetSourceFile(program.value, fileName);
    if sourceFile.None? {
      return original;
    }
    var file := sourceFile.value;
    var results := FindTargetNodes(file.root);
    if results.None? || |results.value| == 0 {
      assert TargetMatches(file.root) == [];
      assert original + [] == original;
      return original;
    }
    var ms := results.value;
    assert ms == TargetMatches(file.root);
    var custom := CollectDiagnostics(ms, file, projectDir, program.value, disk, checkPaths);
    ds := original + custom;
  }

  /** `results.forEach(...)`: resolve each match in turn and push a diagnostic for each one
      that does not resolve. */
  method CollectDiagnostics(ms: seq<Match>, file: SourceFile, projectDir: string, program: Program,
                            disk: Disk, checkPaths: Option<int>)
    returns (custom: seq<Diagnostic>)
    ensures custom == CustomDiagnostics(ms, file, projectDir, program, disk, checkPaths)
  {
    custom := [];
    var i := 0;
    while i < |ms|
      invariant 0 <= i <= |ms|
      invariant custom == CustomDiagnostics(ms[..i], file, projectDir, program, disk, checkPaths)
    {
      var d := GetDefinitionFromResult(ms[i], projectDir, program, disk);
      if d.sourceFile.None? {
        custom := custom + [Unfound(ms[i], d.filePath, file, checkPaths)];
      }
      CustomDiagnosticsStep(ms, i, file, projectDir, program, disk, checkPaths);
      i := i + 1;
    }
    assert ms[..i] == ms;
  }

  /** The definition result built for a match whose reference resolved. */
  function Definitions(m: Match, d: Definition): (r: DefinitionResponse)
    requires d.sourceFile.Some?
  {
    var f := d.sourceFile.value;
    Bound(TextSpan(m.node.start, Width(m.node)),
          [DefinitionInfo(f.fileName, FileSpan(f), ModuleElement,
                          if d.name != "" then d.name else f.fileName,
                          "\"" + d.filePath + "\"", FileSpan(f), ModuleElement)])
  }

  /** getDefinitionAndBoundSpan: when a pattern's literal encloses `position` and its reference
      resolves, the literal's span bound to one definition spanning the whole target file;
      in every other case the underlying service's own result. */
  method GetDefinitionAndBoundSpan(fileName: string, position: int, program: Option<Program>,
                                   projectDir: string, disk: Disk)
    returns (r: DefinitionResponse)
    ensures r.Original? <==>
              program.None? || fileName !in program.value
              || FirstMatch(program.value[fileName].root, Conditions, Some(position)).None?
              || Resolve(FirstMatch(program.value[fileName].root, Conditions, Some(position)).value,
                         projectDir, program.value, disk).sourceFile.None?
    ensures r.Bound? ==>
              var m := FirstMatch(program.value[fileName].root, Conditions, Some(position)).value;
              var d := Resolve(m, projectDir, program.value, disk);
              var f := d.sourceFile.value;
              m.node.start <= position <= m.node.end
              && r.textSpan == TextSpan(m.node.start, Width(m.node))
              && |r.definitions| == 1
              && r.definitions[0].fileName == f.fileName
              && (m.key == PackagePath ==> d.filePath in disk)
              && (m.key != PackagePath ==> d.filePath in program.value)
              && r.definitions[0].textSpan == FileSpan(f) && r.definitions[0].contextSpan == FileSpan(f)
              && r.definitions[0].name == (if d.name != "" then d.name else f.fileName)
              && r.definitions[0].containerName == "\"" + d.filePath + "\""
              && r.definitions[0].kind == ModuleElement && r.definitions[0].containerKind == ModuleElement
  {
    if program.None? {
      return Original;
    }
    var sourceFile := GetSourceFile(program.value, fileName);
    var result: Option<Match> := None;
    if sourceFile.Some? {
      result := FindTargetNode(sourceFile.value.root, position);
    }
    if result.None? {
      return Original;
    }
    var d := GetDefinitionFromResult(result.value, projectDir, program.value, disk);
    if d.sourceFile.None? {
      return Original;
    }
    r := Definitions(result.value, d);
  }
}
