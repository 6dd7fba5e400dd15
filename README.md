# parametric-svg: the file-contents core, modelled in Dafny

This project models the code that moves a drawing between the editor and
that drawing's SVG source in parametric-svg. Two steps are covered:

* **The merger** (`sendFileContents` of `serializeFileContents`). It adds
  the SVG and `parametric` namespaces to the drawing's markup when they are
  missing, then parses the markup. Next it reconciles the first `<defs>`
  element with the editor's variables: the old `<param>` of a variable is
  removed, and a new `<param>` is appended for every variable. A new
  `<defs>` is created and put first in the root element when the document
  has none. Finally the document is serialized and prettified, and the
  listener gets either the payload or a fixed error report. The error
  report is sent when the payload shows a `<parsererror` element.
* **The extractor** (`parseFileContents`). It parses a file and selects
  its `defs param` elements. It folds them, in document order, into an
  object from each param's `name` to its `value`, and it returns that
  object together with the unchanged source.

Three further pieces are modelled:

* the earlier merger (`prepareFileContents`), which always ends in a
  TypeError;
* the regex-based `DOMParser` mock that the extractor's tests run
  against;
* the extractor's two tests on that mock, and two of the merger's tests,
  as concrete lemmas.

Modules, one per file:

* `Wrappers`: `Option` and `Result`.
* `Text`: the character classes of JavaScript regexes (line terminators,
  `\s`, `\w`, `\b`), ASCII case folding for the `i` flag, and literal
  matching.
* `Dom`: documents as trees of numbered nodes. A node's number stands
  for its object identity. The module has the document-order search that
  `getElementsByTagName(tag)[0]` performs and the removal of nodes. It
  also has the class `DefsElement`, the `<defs>` object whose children the
  merger edits in place.
* `Namespaces`: the string-level namespace completion, with both regexes
  written out as scanners (`serializeFileContents/index.js:16-34`).
* `SerializeFileContents`: the merger. This covers the index of existing
  params, the variables loop as a method over a `DefsElement`, the whole
  call as a method with a specification function `Merge`, the parser-error
  test and the listener's message. `Merge` follows the code as written
  (`ReconciledAsWritten`), inherited names included. The properties of the
  finished document are proved about `Reconciled`, the reconciliation with
  an own-key lookup. `AsWrittenThrows` shows that the two agree whenever
  the call as written returns, so those properties hold of every document
  the listener receives.
* `ParseFileContents`: the extractor over a real parser and over the mock.
* `MockDomParser`: the mock's greedy, lazy and global regex matching.
* `PrepareFileContents`: the earlier merger.
* `ExtractorExample`: the extractor's tests on the mock.
* `MergerExample`: two of the merger's tests, on namespaces and on an
  updated param.

The foreign functions are parameters: `DOMParser.parseFromString`,
`XMLSerializer.serializeToString` and `prettify-xml`
(`SerializeFileContents.XmlCodec`). The parsed document is numbered in
pre-order (`Dom.Build`), so `Count(x)` is the first identity no existing
node has. The markup that the code reads off the live page is an input.

The description of the system and its code disagree in several places.
The model follows the code:

* **Duplicate variable names.** The description says the last of several
  variables with the same name wins. In the code, if that name is indexed
  under the existing `<defs>`, the second removal reads the `parentNode`
  of a param that is already detached, which is null, and the call throws
  a TypeError (`SerializeFileContents.ReconciledThrows`). Duplicate names
  that reach no indexed param are all appended.
* **Exceptions.** The description says exactly one of payload and error
  is given. The code can also throw before the listener is called: on a
  duplicate as above, on an inherited name as below, or when the document
  has no root element.
* **Duplicate params.** The description says re-merging accumulates no
  duplicate names. A `<defs>` that already holds two params with the same
  name keeps the earlier one, since only the later one is indexed
  (`SerializeFileContents.EarlierDuplicateNotIndexed`).
* **Namespaces.** The description speaks of the root `<svg>` element. The
  code tests every `<svg` tag of the original markup for an existing
  declaration, in any letter case, and inserts a missing one only into
  the first `<svg` tag that closes. A nested `<svg` that declares a
  namespace therefore keeps the root from receiving it.
* **Empty attributes.** The extractor skips a param whose `name` or
  `value` is empty as well as one where they are missing. Its variables
  are an object, not a list, so a later param with the same name replaces
  an earlier one.
* **Index keys.** A param without a `name` attribute is indexed under the
  string `"null"`, because JavaScript turns a null property key into a
  string.
* **`__proto__`.** A param named `__proto__` is dropped by the extractor.
* **Inherited names.** The index of existing params is a plain object.
  When the document has an existing `<defs>` and no param there is named
  after an `Object.prototype` member such as `constructor`, a variable
  with that name finds the inherited member. That member has no
  `parentNode`, so the merger throws (see Findings). Without an existing
  `<defs>` the lookup is still made on every turn, but its result is
  ignored; and a param with that name is an own key that hides the
  inherited member.
* **The mock.** Its `.` does not cross a line terminator, so a `<defs>`
  stretch spread over several lines is not found.

## Model

| member | source | states |
|---|---|---|
| Namespaces.HasNamespaceMeans | source/js/serializeFileContents/index.js:23-24 | The presence test holds exactly when some `<svg` (any case) is followed, without an intervening `>`, by a whitespace character and `attribute="`. |
| Namespaces.InsertionPointMeans | source/js/serializeFileContents/index.js:29-31 | The replace regex finds exactly the point just before the `>` or `/>` that ends the first `<svg` tag having a `>` after it, and finds nothing exactly when no `>` follows any `<svg`. |
| Namespaces.InsertionPointInside | source/js/serializeFileContents/index.js:30 | A found insertion point lies inside the markup, on a `>` or a `/`. |
| Namespaces.StepShape | source/js/serializeFileContents/index.js:26-33 | One reduce step inserts ` attribute="value"` at the insertion point of the running markup, unless the original markup already declares the attribute. It changes nothing else. |
| Namespaces.DeclarationInert | source/js/serializeFileContents/index.js:31 | Neither declaration contains a `>` or ends in `/`. |
| Namespaces.InsertionPointShifts | source/js/serializeFileContents/index.js:29-33 | Inserting such text at the insertion point moves the next insertion point past it, so the second declaration follows the first. |
| Namespaces.InsertedIsDeclared | source/js/serializeFileContents/index.js:23-31 | After a declaration is inserted, the presence test finds it. |
| Namespaces.DeclarationSurvives | source/js/serializeFileContents/index.js:23-31 | Inserting text without `>` just before a `>` or `/` keeps every declaration the presence test found before. |
| Namespaces.CompletionShape | source/js/serializeFileContents/index.js:16-34 | Markup without a closable `<svg` tag is left unchanged. Otherwise the missing declarations are inserted just before the tag's `>` or `/>`, `xmlns` first, and no other character changes. The test for "missing" is made on the original markup. |
| Namespaces.CompletionDeclaresBoth | source/js/serializeFileContents/index.js:16-34 | When there is a closable `<svg` tag, the completed markup declares both `xmlns` and `xmlns:parametric`. |
| Namespaces.CompletionIdempotent | source/js/serializeFileContents/index.js:16-34 | Completing completed markup changes nothing. |
| Dom.FindFirstMeans | source/js/serializeFileContents/index.js:38 | The search returns a path to the first element with the tag in document order, and returns nothing exactly when no element has the tag. |
| Dom.BuiltDocument | source/js/serializeFileContents/index.js:36 | The nodes of a parsed document are distinct objects, all with identities below `Count(x)`. |
| Dom.DescendantsOfBuilt | source/js/serializeFileContents/index.js:46 | The `param` descendants of the `<defs>` come in document order with increasing, existing identities. |
| Dom.PruneSeqRemoves | source/js/serializeFileContents/index.js:56 | After removal, no removed node is left anywhere below the remaining children. |
| Dom.DefsElement.RemoveDescendant | source/js/serializeFileContents/index.js:56 | Throws exactly when the param was removed before, since its `parentNode` is then null. Otherwise the param leaves the tree and is marked detached. |
| Dom.DefsElement.AppendChild | source/js/serializeFileContents/index.js:62 | The node becomes the last child, and nothing else changes. |
| SerializeFileContents.BuildIndex | source/js/serializeFileContents/index.js:44-51 | The `forEach` loop builds the index `IndexOf(params)`. |
| SerializeFileContents.IndexOfKeys | source/js/serializeFileContents/index.js:47-50 | The index has a key exactly when some param carries it as its name (`"null"` without one). |
| SerializeFileContents.IndexOfLast | source/js/serializeFileContents/index.js:47-50 | Each key leads to the last param carrying it: later params overwrite earlier ones. |
| SerializeFileContents.EarlierDuplicateNotIndexed | source/js/serializeFileContents/index.js:47-56 | A param followed by another with the same name is not in the index, so the loop never removes it. |
| SerializeFileContents.IndexInjective | source/js/serializeFileContents/index.js:47-50 | Different keys lead to different params. |
| SerializeFileContents.IndexValues | source/js/serializeFileContents/index.js:44-51 | Every indexed identity is that of an existing param. |
| SerializeFileContents.NewParamsMeans | source/js/serializeFileContents/index.js:59-62 | One new leaf `param` per variable, in input order, carrying exactly that variable's name and value. The `k`-th has identity `next + k`, so the identities are consecutive from the first fresh one. |
| SerializeFileContents.ApplyStep | source/js/serializeFileContents/index.js:53-63 | One non-throwing turn of the loop removes the indexed param and appends the new param. The loop's state formula holds again after it. |
| SerializeFileContents.ApplyVariables | source/js/serializeFileContents/index.js:53-63 | The loop raises the exception of its first throwing turn (`LoopFailure`). When it does not throw, the children are the old ones minus the removed params, followed by the new params in order. |
| SerializeFileContents.LoopFailurePrefix | source/js/serializeFileContents/index.js:53-57 | Once a turn has thrown, the loop's exception is that turn's, whatever variables follow. |
| SerializeFileContents.NewDefsNeverFail | source/js/serializeFileContents/index.js:55 | Without an existing `<defs>` no turn throws, because the `hasExistingDefs &&` guard ignores the lookup's result. |
| SerializeFileContents.LoopFailureMeans | source/js/serializeFileContents/index.js:44-57 | On an existing `<defs>` the loop throws exactly when a param is reached twice or a name is inherited. A null `parentNode` comes only from a param reached twice, and an undefined one only from an inherited name. |
| SerializeFileContents.CrashesIff | source/js/serializeFileContents/index.js:53-57 | With an injective index, the loop throws exactly when two variables share a name that is in the index. |
| SerializeFileContents.FreshNames | source/js/serializeFileContents/index.js:53-57 | Names absent from the index never throw and remove nothing. |
| SerializeFileContents.SendFileContents | source/js/serializeFileContents/index.js:11-95 | The call's outcome is `Merge` of the markup and the variables. `Merge` completes the namespaces, parses, and reconciles the `<defs>` as written, throwing at the first failing turn, inherited names included. Then it reports. |
| SerializeFileContents.AsWrittenThrows | source/js/serializeFileContents/index.js:44-57 | When the call as written returns, its document is the own-key one. It throws exactly when the own-key reconciliation does, or when there is an existing `<defs>` and some variable's name is inherited and carried by no param there. |
| SerializeFileContents.AsWrittenAgrees | source/js/serializeFileContents/index.js:44-57 | Without inherited names, the call as written and the own-key reconciliation agree, exceptions included. |
| SerializeFileContents.ReconciledThrows | source/js/serializeFileContents/index.js:38-68 | The call throws for a document without a root element. Otherwise it throws exactly when two variables share a name indexed under the existing `<defs>`. Without an existing `<defs>` it never throws from the loop. |
| SerializeFileContents.DistinctNamesNeverThrow | source/js/serializeFileContents/index.js:53-57 | Variables with distinct names never hit a detached param, either as written or with the own-key lookup. If no name is inherited either, the call as written returns unless the document has no root element. |
| SerializeFileContents.ExistingDefsReused | source/js/serializeFileContents/index.js:38-63 | The first `<defs>` in document order is reused in place with its identity and attributes. Its children are the old ones not removed followed by the new params. Nothing else changes: every subtree apart from the `<defs>` is as it was, and every ancestor of the `<defs>` keeps its identity, tag, attributes and number of children. |
| Dom.ReplaceAtFrame | source/js/serializeFileContents/index.js:53-63 | Replacing the node at one path leaves the node at every path apart from it unchanged. |
| Dom.ReplaceAtAncestor | source/js/serializeFileContents/index.js:53-63 | Replacing the node at a path keeps every strict ancestor on that path the same element with as many children. |
| SerializeFileContents.UpdatedChildren | source/js/serializeFileContents/index.js:53-63 | The surviving children keep their relative order and come before all new params. No removed param remains below them, and the last `|vs|` children are the new params. |
| SerializeFileContents.UpdatedParamMoves | source/js/serializeFileContents/index.js:53-63 | An updated variable's old param is gone. Its new param, with the new value, sits at the variable's place among the new params. |
| SerializeFileContents.NewDefsFirst | source/js/serializeFileContents/index.js:38-68 | Without a `<defs>`, a new one with a fresh identity, holding the new params, becomes the first child of the root element. The root element is otherwise unchanged. |
| SerializeFileContents.NoVariables | source/js/serializeFileContents/index.js:38-68 | With no variables, an existing `<defs>` and the whole document stay unchanged, and a new `<defs>` is empty. |
| SerializeFileContents.NoVariablesPayload | source/js/serializeFileContents/index.js:36-74 | With an existing `<defs>` and no variables, the listener gets the report on the parsed document itself. Its payload is the prettified serialization of the parsed markup plus a newline. |
| SerializeFileContents.ParserErrorFromMeans | source/js/serializeFileContents/index.js:76 | The scan from a position finds `<parsererror` followed by a word boundary exactly when one occurs at or after that position. |
| SerializeFileContents.ContainsParserErrorMeans | source/js/serializeFileContents/index.js:76 | `/<parsererror\b/` matches exactly when `<parsererror` occurs followed by the end of the text or a character outside `\w`. |
| SerializeFileContents.ReportMeans | source/js/serializeFileContents/index.js:70-94 | The message holds exactly one of a payload and an error. The error is the fixed report with `openInNewTab`, given exactly when the payload text shows a parser error. The payload is the prettified serialization with a trailing newline. |
| SerializeFileContents.MergeMessage | source/js/serializeFileContents/index.js:70-94 | The listener is called exactly when the reconciliation as written succeeds, with exactly one of the payload and the fixed error. |
| SerializeFileContents.InheritedNameThrows | source/js/serializeFileContents/index.js:44-56 | On `<svg><defs/></svg>` with a variable named `constructor`, the call as written throws with an undefined `parentNode`. The own-key lookup gives `<svg><defs><param name="constructor" value="1"/></defs></svg>`, with the new param numbered 2. |
| ParseFileContents.VariablesMeans | source/js/parseFileContents/index.js:9-17 | A key is present exactly when some param has it as a non-empty name together with a non-empty value, and the key is not `__proto__`. Its value is that of the last such param. |
| ParseFileContents.InsideDefs | source/js/parseFileContents/index.js:7 | Inside a `defs`, every `param` descendant is selected, in document order. |
| ParseFileContents.NoDefsNoParams | source/js/parseFileContents/index.js:6-8 | A document without a `defs` element has no selected params. |
| ParseFileContents.ReadAttributes | source/js/parseFileContents/index.js:10-11 | The fold reads each selected param's `name` and `value` attributes, in order, null when absent. |
| ParseFileContents.ParseFileContentsMeans | source/js/parseFileContents/index.js:4-22 | The source comes back verbatim. A variable is present exactly when a selected `param` stores it. |
| ParseFileContents.MockNeverRaises | source/js/parseFileContents/index.js:5-8 | With the mock, the extractor never raises an invariant error and returns the source unchanged. |
| ParseFileContents.MockNoDefs | source/js/parseFileContents/index.js:4-22 | With the mock, a source without a one-line `<defs>...</defs>` gives no variables. |
| MockDomParser.ParseFromString | source/js/parseFileContents/test/mocks/DOMParser.js:4-5 | Succeeds exactly for `image/svg+xml` and keeps the source. Any other type is the invariant error `only image/svg+xml supported`. |
| MockDomParser.QuerySelectorAllMeans | source/js/parseFileContents/test/mocks/DOMParser.js:7-30 | Only `defs param` is accepted; anything else is the invariant error. Each param string gives one object, in order, whose `name` and `value` are the attribute matches on that string. |
| MockDomParser.FirstOnLineMeans | source/js/parseFileContents/test/mocks/DOMParser.js:12 | Lazy `.*?lit` stops at the nearest `lit` reachable on the line, and fails exactly when none is reachable. |
| MockDomParser.LastOnLineMeans | source/js/parseFileContents/test/mocks/DOMParser.js:10 | Greedy `.*lit` stops at the farthest `lit` reachable on the line, and fails exactly when none is reachable. |
| MockDomParser.MatchAt | source/js/parseFileContents/test/mocks/DOMParser.js:10-12 | A match starting at a position ends after it and within the text. |
| MockDomParser.DefsMatchAtMeans | source/js/parseFileContents/test/mocks/DOMParser.js:10 | A `<defs>` match at a position runs to the last `</defs>` on its line, and there is none exactly when no `</defs>` follows on the line. |
| MockDomParser.ParamMatchAtMeans | source/js/parseFileContents/test/mocks/DOMParser.js:12 | A `<param\b` match runs to the first `/>` after it on its line, and there is none exactly when no `/>` follows on the line. |
| MockDomParser.MatchAllMeans | source/js/parseFileContents/test/mocks/DOMParser.js:10-12 | The global match is empty exactly when no match starts anywhere. Otherwise it lists the leftmost match and continues after that match's end: matches come left to right and do not overlap. |
| MockDomParser.FirstSegmentGreedy | source/js/parseFileContents/test/mocks/DOMParser.js:10 | The first segment runs from the leftmost `<defs>` with a `</defs>` on its line to the last `</defs>` on that line, and stays on one line. |
| MockDomParser.NoDefsNoSegments | source/js/parseFileContents/test/mocks/DOMParser.js:10 | Without a one-line `<defs>...</defs>` the defs match is empty (`|| []`). |
| MockDomParser.NoDefsNoParams | source/js/parseFileContents/test/mocks/DOMParser.js:10-13 | Without a one-line `<defs>...</defs>`, `defs param` yields no params. |
| MockDomParser.AttributeFromMeans | source/js/parseFileContents/test/mocks/DOMParser.js:17-18 | The attribute is the text between the first `key="` at a word boundary and the next `"` on its line. It is null exactly when there is no such pair. |
| MockDomParser.ReadParams | source/js/parseFileContents/test/mocks/DOMParser.js:15-28 | One param object per param string, in order, each reading `name` and `value` off its own string. |
| MockDomParser.MockParam.GetAttribute | source/js/parseFileContents/test/mocks/DOMParser.js:22-25 | Answers the found `name` and `value`, and null for every other attribute. |
| ExtractorExample.WidthHeightParams | source/js/parseFileContents/test.js:34-42 | On the width/height document the mock selects the two params `width=100` and `height=200`, in document order. |
| ExtractorExample.PullsVariables | source/js/parseFileContents/test.js:31-50 | The extractor on the width/height document gives width `100` and height `200`, with the source unchanged. |
| ExtractorExample.NoDefsNoVariables | source/js/parseFileContents/test.js:18-29 | A document without `<defs>` gives no variables. |
| MergerExample.BareCompleted | source/js/prepareFileContents/test.js:91-106 | `<svg></svg>` becomes the test's `svgOpeningTag` followed by `</svg>`: both declarations are inserted, `xmlns` first. |
| MergerExample.UpdateMovesParam | source/js/prepareFileContents/test.js:135-154 | On `<defs>` with `a=3` and `b=5`, the variable `a=2` gives `<defs>` with `b=5` and then `a=2`. |
| MergerExample.UpdateAsWritten | source/js/prepareFileContents/test.js:135-154 | The call as written gives the same document there, since `a` is an own key. |
| PrepareFileContents.BuildDefs | source/js/prepareFileContents/index.js:8-14 | The loop builds a fresh `<defs>` whose children are the new params of the variables, in order. |
| PrepareFileContents.SendFileContents | source/js/prepareFileContents/index.js:6-18 | The call's outcome is the attempted `appendBefore` of the fresh `<defs>` before the document's first child. |
| PrepareFileContents.NeverReturns | source/js/prepareFileContents/index.js:17 | The call never returns: `appendBefore` is not a function. |
| PrepareFileContents.FreshDefs | source/js/prepareFileContents/index.js:8-14 | The `<defs>` holds one param per variable, in input order, with exactly that variable's name and value. Duplicates are kept, and the markup's own `<defs>` is never read. |
| PrepareFileContents.FreshIdentities | source/js/prepareFileContents/index.js:8-10 | No node of the document has the identity of the new `<defs>` or of one of its params. |
| PrepareFileContents.ReferenceIsRoot | source/js/prepareFileContents/index.js:16-17 | The reference node is the document's first child, the root element, not the root element's own first child. |

## Left out

- The live DOM read (`serializeFileContents/index.js:12-14`): the serialized drawing is an input.
- The XML parser, the serializer and `prettify-xml` are foreign code. They are parameters (`XmlCodec`), so the exact payload text, including its indentation, is not modelled.
- Comment, CDATA and processing-instruction nodes: the parsed tree holds only elements and text. `getElementsByTagName` and `querySelectorAll` skip such nodes, and serialization is abstract, so no stated property depends on them.
- Prolog and doctype nodes: the parsed document is its root element, so `firstChild` of a document is that root element.
- `getElementsByTagName` and `querySelectorAll` match tags by their qualified name only; namespaces are not modelled.
- The key order of the variables object: it is a map here.
- The listener is a callback: the model returns the message the listener would receive, as the `Outcome`, instead of calling it.
- The unused `inPort` argument of the earlier merger.
- The mock's `invariant` throws are `Err` values.
- The custom elements, the Elm wiring, the build set-up, the step definitions and the test harnesses are not part of this model.
- SerializeFileContents.LoopFailure: does not model a param named `__proto__` replacing the index object's prototype, after which other names would be looked up on that element. Only the lookup of names inherited from `Object.prototype` is captured.
- Strings are sequences of Unicode scalar values, not of UTF-16 code units. A JavaScript string holding a lone surrogate has no counterpart, and an astral character is one character here but two code units there.
- The merger's tests expect the payload without its trailing newline and without prettified indentation (`prepareFileContents/test.js:79-86`). Their error case lacks `openInNewTab` (`prepareFileContents/test.js:179-190`). The model follows the code.
- The extractor's tests expect the variables as an array of `{ name, value }` (`parseFileContents/test.js:44-47`) and the source pretty-printed (`parseFileContents/test.js:67-75`). The code returns an object and the unchanged source, and the model follows the code.

## Findings

| source | as written | input that shows it | evidently intended | confidence | as-written member | corrected member |
|---|---|---|---|---|---|---|
| source/js/serializeFileContents/index.js:44-56 | the index is a plain object, so `existingParams[name]` also finds names inherited from `Object.prototype`, and `removeChild` is then called on a value without a `parentNode` | `<svg><defs/></svg>` with the variable `{ name: 'constructor', value: '1' }` | look up only the params put in the index, and append a param for the variable | not executed | SerializeFileContents.InheritedNameThrows | SerializeFileContents.ReconciledThrows |
