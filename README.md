# ts-sst-plugin: reference finding and resolution

This project models the core of a TypeScript language-service plugin for SST projects. The
plugin finds string literals that name code or packages. These are `handler: "dir/file.fn"`
properties, `path: "dir"` properties and `.subscribe("dir/file.fn", …)` calls. It resolves each
literal to a file of the project. It then answers "go to definition" with that file, and it
reports a "Cannot find file" diagnostic for every literal that does not resolve.

Two versions are modelled, each as its own component:

- `dist/index.js`, the current plugin, in modules `Patterns`, `Matcher`, `Resolver` and
  `Adapters`:
  - three ordered literal patterns;
  - a first-match search and an all-matches search that never descends into a match;
  - a split on the last dot, probing `.ts` and then `.js`;
  - `package.json` lookup on disk;
  - the diagnostic and definition adapters.
- `src/index.ts`, the earlier plugin, in module `Legacy`:
  - one `handler` pattern;
  - a split on the first dot;
  - a `.ts` probe only.

Shared modules:

- `Syntax`: the parsed tree, as the node accessors the plugin calls present it, and its pre-order listing.
- `Host`: the program's parsed files, the file system, and the records exchanged with the host.
- `JsString`: the JavaScript string built-ins the plugin uses:
  - `indexOf`, `lastIndexOf`, `substring`;
  - `replaceAll` and `replace` with a one-character pattern;
  - `split`, `includes`.

How the model is proved:

- Both searches are methods with loops, proved against specification functions:
  - `FirstWhere` / `FirstMatch` for the first-match search;
  - `AllMatches` for the all-matches search.
- Those specification functions are related by lemmas to an independent reading of the tree:
  - the pre-order listing;
  - paths of child indices.
- The reference split is proved to undo the join.
- The resolution and diagnostic steps are stated as policies over the resolved definition.

## Model

| member | source | states |
|---|---|---|
| Patterns.ParentShape | dist/index.js:256-276 | what each condition asks of the literal's parent: a property assignment whose first token is `handler`; one whose first token is `path`; or a parent whose first child is a property access expression whose full text includes `.subscribe` |
| Patterns.Holds | dist/index.js:206-232 | a condition holds of a string literal whose parent has its shape; findTargetNode's conditions also require `start <= position <= end`, both ends inclusive |
| Patterns.KeyOfFirstHit | dist/index.js:186-192 | the key settled on is a condition of the list that holds for the node, and no earlier condition holds; no key exactly when no condition holds |
| Patterns.FindKey | dist/index.js:186-192 | the condition loop with its `key == null` guard returns the first-hit key |
| Patterns.TagOrder | dist/index.js:206-232 | with the plugin's order, a node is tagged functionHandler iff the handler condition holds; packagePath iff the path condition holds and the handler one does not; dynamoSubscription iff only the subscription condition of the three holds |
| Matcher.FindNodeInTree | dist/index.js:185-203 | the recursive search with its two guarded loops returns exactly the first match, with its key |
| Matcher.FindTargetNode | dist/index.js:204-235 | findTargetNode returns the first match for the three positioned conditions; a reported literal encloses the cursor, both ends inclusive |
| Matcher.FirstMatchSound | dist/index.js:185-203 | a reported match meets its key's condition, and its key is the first-hit key; nothing is reported exactly when no node of the tree meets a condition |
| Matcher.FirstMatchIsFirstInPreOrder | dist/index.js:185-203 | the reported match is the first node of the pre-order listing that meets a condition |
| Matcher.AllMatchesInAppend | dist/index.js:248-250 | the matches of a run of siblings are those of its first part followed by those of the rest |
| Matcher.MatchList.Push | dist/index.js:245 | `results.push` appends one match to the shared array and changes nothing else |
| Matcher.FindNodesInTree | dist/index.js:236-253 | appends exactly the tree's matches to the shared array, after what it held; it returns the array exactly when the node itself does not match |
| Matcher.FindTargetNodes | dist/index.js:254-279 | no result exactly when the root itself matches; otherwise every match of the tree |
| Matcher.FirstMatchIsHeadOfAll | dist/index.js:185-253 | the first-match search and the all-matches search agree: the first match is the head of all matches, and none exists exactly when there are no matches |
| Matcher.MatchPathsLocate | dist/index.js:236-253 | the i-th match lies at the i-th recorded path from the root, and its key is the one its conditions give |
| Matcher.MatchPathsExactly | dist/index.js:244-251 | a path is recorded iff the node there meets a condition and no ancestor on the path does: all matches are reported, and the search never descends into a match |
| Matcher.MatchPathsOrdered | dist/index.js:248-250 | matches are reported in pre-order: each recorded path lies strictly left of every later one |
| Matcher.NoNestedMatches | dist/index.js:244-251 | no reported node lies inside another reported node |
| JsString.RemoveAll | dist/index.js:284 | `replaceAll('"', "")` leaves no quote and keeps every other character with its multiplicity; it never lengthens and leaves a quote-free text unchanged (with RemoveAllAppend, the order is kept) |
| JsString.RemoveAllWrapped | dist/index.js:284 | dequoting a literal whose quotes only wrap it gives back its inside |
| JsString.LastIndexOf | dist/index.js:286 | the last index of the character, or -1 exactly when it is absent |
| JsString.Substring | dist/index.js:287 | `substring` within bounds is the slice, with ends swapped when reversed; a negative end reads as 0, so `substring(from, -1)` is the prefix before `from` and `substring(0, -1)` is empty |
| JsString.IncludesSound | dist/index.js:227 | when `includes` holds, the searched text occurs at some index |
| JsString.IncludesComplete | dist/index.js:227 | when the searched text occurs at some index, `includes` holds |
| JsString.SubstringFrom | dist/index.js:288 | `substring(from)` within bounds is the suffix; a non-positive start gives the whole text |
| Resolver.Dequote | dist/index.js:284 | the dequoted reference contains no `"` and every other character of the literal, with its multiplicity |
| JsString.RemoveAllAppend | dist/index.js:284 | removing the quotes from a concatenation removes them from each part, in order |
| Resolver.SplitReference | dist/index.js:285-288 | the symbol has no dot; stem, dot and symbol rebuild the text when it has a dot; with no dot the stem is empty and the symbol is the whole text |
| Resolver.SplitJoin | dist/index.js:285-288 | splitting `stem.symbol` gives back stem and symbol for every dot-free symbol, however many dots the stem has |
| Resolver.DottedStemSplit | dist/index.js:285-288 | `packages/functions/something.with.dots/api.handler` splits into that directory's `api` stem and `handler` |
| Resolver.ResolveSourcePolicy | dist/index.js:285-295 | handler and subscription references: the name is the symbol; the `.ts` candidate is probed first and the `.js` candidate only when the `.ts` one is absent; the reported path is the `.js` candidate when neither exists; a resolved file is the program's file at the reported path |
| Resolver.ResolveManifestPolicy | dist/index.js:296-302 | package paths: the path is `<projectDir>/<dir>/package.json`, the name is `package.json`, and it resolves exactly when that file exists on disk, to the tree parsed from it |
| Resolver.ResolveQuotedReference | dist/index.js:284-294 | a quoted `stem.symbol` literal names the symbol in `stem.ts`, or in `stem.js` when the program has no `stem.ts` |
| Resolver.ResolveQuotedPackage | dist/index.js:284-297 | a quoted package path probes the manifest inside that directory |
| Resolver.GetDefinitionFromResult | dist/index.js:280-304 | the procedure with its `let` variables reassigned across the probes returns exactly the resolved definition |
| Adapters.Category | dist/index.js:109-112 | the category is always 0..3; it is the configured number when that lies in 0..3, and Error otherwise, including when no number is configured |
| Adapters.Unresolved | dist/index.js:105-108 | the unresolved matches are matches whose reference does not resolve; there are none exactly when every reference resolves |
| Adapters.CustomDiagnosticsStep | dist/index.js:105-123 | each pass of the `forEach` adds the diagnostics of one more match, after those of the earlier ones |
| Adapters.CustomDiagnosticsPerUnresolved | dist/index.js:105-123 | exactly one diagnostic per unresolved match, in match order; each sits at the literal's start and width and has code 557, the configured category, source `ts-sst-plugin`, the file, and the message `Cannot find file <path last probed>` |
| Adapters.CollectDiagnostics | dist/index.js:104-123 | the `forEach` builds exactly the custom diagnostics of the matches |
| Adapters.GetSemanticDiagnostics | dist/index.js:90-131 | the original diagnostics are an unchanged prefix of the answer; with no program or no such file the original comes back unchanged; otherwise the answer is the original followed by the custom diagnostics of the file's matches (none when there are no matches) |
| Adapters.GetDefinitionAndBoundSpan | dist/index.js:133-180 | the original result is kept exactly when there is no program, no file, no match at the cursor, or an unresolved reference; otherwise the literal's span is bound to one definition that spans the whole target file, is named by the definition name or else by the file name, and is contained in the quoted path; a resolved source reference is a file of the program, a resolved package path a file on disk |
| Syntax.FirstWhereIsFirstInPreOrder | src/index.ts:113-127 | the recursive search returns the first node of the pre-order listing that satisfies the condition, and nothing when no node does |
| Syntax.FirstWhereSound | src/index.ts:113-127 | a node returned satisfies the condition; the result is undefined exactly when no node of the tree satisfies it |
| Legacy.IsHandlerProperty | src/index.ts:50-54 | the condition: a property assignment whose first token is `handler` and whose span encloses the cursor, both ends inclusive |
| Legacy.FindNodeInTree | src/index.ts:113-127 | the node itself when the condition holds; otherwise the children are searched left to right until one yields a node: exactly the first satisfying node in pre-order |
| Legacy.FirstStringLiteral | src/index.ts:58-60 | `find` returns the first string-literal child, and nothing exactly when there is none |
| Legacy.HandlerPropertyFound | src/index.ts:47-57 | the property found is an assignment whose first token is `handler` and whose span encloses the cursor, both ends inclusive; it is the first such node in pre-order |
| Legacy.ParseHandler | src/index.ts:66-68 | no handler exactly when the text has no dot, because `end.replace` throws; the handler name has no dot; the file is the text before the first dot with its first quote removed, plus `.ts` |
| Legacy.ParseHandlerPieces | src/index.ts:66-68 | only the pieces before the first and second dots are used, each with its first quote removed; anything after the second dot is dropped |
| Legacy.ParseQuotedHandler | src/index.ts:66-68 | for `"stem.second…`, the file is `stem.ts` and the handler is `second` |
| Legacy.ParseQuotedSimple | src/index.ts:66-68 | for `"stem.symbol"` with a dot-free stem, the file is `stem.ts` and the handler is the symbol without its closing quote |
| Legacy.AgreesWithResolveOnUndottedStems | src/index.ts:66-72 | when a handler's stem has no dot and the program has its `.ts` file, this version and getDefinitionFromResult agree on path and name |
| Legacy.GetDefinitionAndBoundSpan | src/index.ts:34-105 | the original result is kept exactly when there is no program, no file, no `handler` property enclosing the cursor, no string-literal child of that property (the literal itself need not enclose the cursor), no dot in the literal, or no `.ts` file at the probed path (there is no `.js` fallback); otherwise the literal's span is bound to one definition that spans that file, is named by the handler name, and is contained in the quoted path |
| Legacy.FirstDotSplitDropsDottedStem | src/index.ts:66-68 | for `"packages/functions/something.with.dots/api.handler"`, the probed file is `packages/functions/something.ts` and the handler is `with` |
| JsString.Split | src/index.ts:66 | `split` gives at least one piece, exactly one when the separator is absent, and its first two pieces hold no separator |
| JsString.JoinSplit | src/index.ts:66 | joining the pieces back with the separator gives the text: the split loses nothing |
| JsString.SplitFirstTwo | src/index.ts:66 | in `a.b…`, the first two pieces are `a` and `b` when neither holds a dot |
| JsString.IndexOf | src/index.ts:67-68 | the first index of the character, or -1 exactly when it is absent |
| JsString.RemoveFirst | src/index.ts:67-68 | `replace('"', "")` removes only the first quote, at its first index, and keeps the rest in order; it changes nothing when there is no quote |
| JsString.RemoveFirstKeeps | src/index.ts:67-68 | removing the first quote keeps every other character |

## Left out

- Proxy construction, which copies every service method with `apply`. It is reflective plumbing.
- `getCompletionsAtPosition`, which is a pass-through.
- All logging.
- `getProgram()` failing is an `Option<Program>`: `None` gives the original result. The host's own original answer is an input: `original` for diagnostics, and the `Original` response for definitions.
- `program.getSourceFile` is an exact lookup in a map from paths to parsed files. The host's path normalisation is not modelled.
- The file system is a map from every existing path to the tree that `createSourceFile` builds from its contents; a malformed manifest still yields a tree and so still resolves. A `readFileSync` that fails on an existing path is not modelled: in the source it throws, and the whole request falls back to the original result instead of reporting the manifest as unresolved.
- `path.dirname(project.getProjectName())` is the input `projectDir`.
- The TypeScript node API is replaced by fields of `Node`:
  - `getStart`, `getEnd` and `getWidth`;
  - `getText`, `getFirstToken`, `getFullText`;
  - `getChildAt` and `parent`.
- The `check-paths` rule is an optional integer. Non-integer and non-numeric values, which `Number` turns into fractions or NaN, are not modelled.
- A string literal without a parent is treated as not matching; in the source the first (handler) condition already throws on it, at `node.parent.kind` (dist/index.js:209). A literal whose parent has no first child is treated as not matching the subscription condition; in the source `node.parent.getChildAt(0).kind` throws (dist/index.js:225). A file's tree never contains either.
- An unresolved handler or subscription reports the `.js` candidate, the path probed last (dist/index.js:292), not the `.ts` one.
- The root-match quirk is kept. When the root node itself matches, `findNodesInTree` returns nothing, and the diagnostics fall back to the original. `TargetMatches` and `FindTargetNodes` model this. A source file root is never a string literal, so this does not arise in practice.

## Findings

| source | as written | input that shows it | evidently intended | confidence | as-written member | corrected member |
|---|---|---|---|---|---|---|
| src/index.ts:66-68 | the literal is split on every dot, and only the first two pieces are used | `"packages/functions/something.with.dots/api.handler"` probes `packages/functions/something.ts` for a handler named `with` | the stem ends at the last dot: `packages/functions/something.with.dots/api.ts`, handler `handler` (the split on the last dot in dist/index.js:286-288) | not executed | Legacy.FirstDotSplitDropsDottedStem | Resolver.SplitJoin |
