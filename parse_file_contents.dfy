/**
 * The extractor: it parses a file as `image/svg+xml`, selects the
 * `defs param` elements and folds them, in order, into an object from each
 * param's `name` to its `value`. The document is returned with the source
 * text it came from.
 *
 * The parser is either a real DOM parser (given as a parse function, its
 * answer numbered into a `Dom.Node` tree) or the regex-based mock of
 * `MockDomParser`, which the tests run against.
 */
module ParseFileContents {
  import opened Wrappers
  import opened Dom
  import MockDomParser

  /** What the fold reads off one selected param:
      `getAttribute('name')` and `getAttribute('value')`, null as `None`. */
  datatype ParamAttributes = ParamAttributes(name: Option<string>, value: Option<string>)

  /** `{ source, variables }`. The variables object is a map here: its
      key order is not modelled. */
  datatype FileContents = FileContents(source: string, variables: map<string, string>)

  /** JavaScript truthiness of an attribute's answer: neither null nor "". */
  predicate Truthy(a: Option<string>) {
    a.Some? && a.value != ""
  }

  /** The one key an assignment cannot create: `Object.assign` sets it with
      [[Set]], which runs `Object.prototype`'s `__proto__` setter, and that
      setter ignores a string. */
  const ProtoKey := "__proto__"

  /** `param` lands in the variables object under `key`. */
  predicate Stores(param: ParamAttributes, key: string) {
    Truthy(param.name) && Truthy(param.value) && param.name.value == key && key != ProtoKey
  }

  /** One step of the reduce. */
  function Step(result: map<string, string>, param: ParamAttributes): map<string, string> {
    if Truthy(param.name) && Truthy(param.value) && param.name.value != ProtoKey
    then result[param.name.value := param.value.value]
    else result
  }

  /** `params.reduce(step, {})`. */
  function Variables(params: seq<ParamAttributes>): map<string, string> {
    if params == [] then map[]
    else Step(Variables(params[..|params| - 1]), params[|params| - 1])
  }

  /** `j` is the last param stored under `key`. */
  ghost predicate LastStoring(params: seq<ParamAttributes>, key: string, j: nat) {
    j < |params| && Stores(params[j], key)
    && forall m :: j < m < |params| ==> !Stores(params[m], key)
  }

  /** A key is present exactly when some param stores under it, and it
      holds the value of the last such param: later params win, and params
      whose name or value is missing or empty are skipped without error. */
  lemma {:induction false} VariablesMeans(params: seq<ParamAttributes>, key: string)
    ensures key in Variables(params) <==> exists j :: 0 <= j < |params| && Stores(params[j], key)
    ensures key in Variables(params) ==>
      exists j: nat :: LastStoring(params, key, j) && Variables(params)[key] == params[j].value.value
    decreases |params|
  {
    if params != [] {
      var front, last := params[..|params| - 1], params[|params| - 1];
      VariablesMeans(front, key);
      assert forall j :: 0 <= j < |front| ==> front[j] == params[j];
      if Stores(last, key) {
        assert LastStoring(params, key, |params| - 1);
      } else if key in Variables(params) {
        assert key in Variables(front);
        var j: nat :| LastStoring(front, key, j) && Variables(front)[key] == front[j].value.value;
        assert LastStoring(params, key, j);
      }
    }
  }

  /** The extractor's fold on given params: the source goes back unchanged. */
  function Extract(input: string, params: seq<ParamAttributes>): FileContents {
    FileContents(input, Variables(params))
  }

  // ---------------------------------------------------------------------
  // A real DOM parser

  /** `querySelectorAll('defs param')`: the `param` elements with a `defs`
      ancestor, in document order, each once. `inDefs` says whether `n`
      already lies inside a `defs`. */
  function DefsParams(n: Node, inDefs: bool): (r: seq<Node>)
    ensures forall m :: m in r ==> m in Subtree(n) && Tagged(m, "param")
    decreases n, 1
  {
    match n
    case Text(_, _) => []
    case Element(_, tag, _, children) =>
      (if inDefs && tag == "param" then [n] else []) + DefsParamsIn(children, inDefs || tag == "defs")
  }

  function DefsParamsIn(ns: seq<Node>, inDefs: bool): (r: seq<Node>)
    ensures forall m :: m in r ==> m in Flatten(ns) && Tagged(m, "param")
    decreases ns, 0
  {
    if ns == [] then [] else DefsParams(ns[0], inDefs) + DefsParamsIn(ns[1..], inDefs)
  }

  /** Inside a `defs`, every `param` is selected, in document order. */
  lemma {:induction false} InsideDefs(n: Node)
    ensures DefsParams(n, true) == TaggedIn(Subtree(n), "param")
    decreases n, 1
  {
    match n
    case Text(_, _) =>
    case Element(_, tag, _, children) =>
      InsideDefsIn(children);
      TaggedInAppend([n], Flatten(children), "param");
  }

  lemma {:induction false} InsideDefsIn(ns: seq<Node>)
    ensures DefsParamsIn(ns, true) == TaggedIn(Flatten(ns), "param")
    decreases ns, 0
  {
    if ns != [] {
      InsideDefs(ns[0]);
      InsideDefsIn(ns[1..]);
      TaggedInAppend(Subtree(ns[0]), Flatten(ns[1..]), "param");
    }
  }

  /** Without a `defs` element nothing is selected. */
  lemma {:induction false} NoDefsNoParams(n: Node)
    requires forall m :: m in Subtree(n) ==> !Tagged(m, "defs")
    ensures DefsParams(n, false) == []
    decreases n, 1
  {
    match n
    case Text(_, _) =>
    case Element(_, tag, _, children) =>
      assert Subtree(n) == [n] + Flatten(children);
      assert n in Subtree(n);
      NoDefsNoParamsIn(children);
      assert DefsParams(n, false) == DefsParamsIn(children, false);
  }

  lemma {:induction false} NoDefsNoParamsIn(ns: seq<Node>)
    requires forall m :: m in Flatten(ns) ==> !Tagged(m, "defs")
    ensures DefsParamsIn(ns, false) == []
    decreases ns, 0
  {
    if ns != [] {
      NoDefsNoParams(ns[0]);
      NoDefsNoParamsIn(ns[1..]);
    }
  }

  function ReadAttributes(ns: seq<Node>): (r: seq<ParamAttributes>)
    requires forall m :: m in ns ==> m.Element?
    ensures |r| == |ns|
    ensures forall k :: 0 <= k < |ns| ==>
      r[k] == ParamAttributes(GetAttribute(ns[k].attrs, "name"), GetAttribute(ns[k].attrs, "value"))
  {
    if ns == [] then []
    else
      var first := ParamAttributes(GetAttribute(ns[0].attrs, "name"), GetAttribute(ns[0].attrs, "value"));
      [first] + ReadAttributes(ns[1..])
  }

  /** The params of a parsed document, as the fold sees them. */
  function DocumentParams(doc: Node): seq<ParamAttributes> {
    ReadAttributes(DefsParams(doc, false))
  }

  /** The extractor over a real DOM parser, given as `parse`. */
  function ParseFileContents(parse: string -> Xml, input: string): FileContents {
    Extract(input, DocumentParams(Build(parse(input), 0)))
  }

  /** With a real parser: the source comes back verbatim, and a variable is
      present exactly when a `param` inside a `defs` has it as a non-empty
      name together with a non-empty value. */
  lemma ParseFileContentsMeans(parse: string -> Xml, input: string, key: string)
    ensures ParseFileContents(parse, input).source == input
    ensures var doc := Build(parse(input), 0);
      var selected := DefsParams(doc, false);
      key in ParseFileContents(parse, input).variables <==>
        exists k :: 0 <= k < |selected|
          && Tagged(selected[k], "param")
          && Stores(ParamAttributes(GetAttribute(selected[k].attrs, "name"), GetAttribute(selected[k].attrs, "value")), key)
  {
    ParsedParamsMeans(parse(input), key);
  }

  /** `SelectedParamsMeans` for the DOM built from the parsed tree `x`. */
  lemma ParsedParamsMeans(x: Xml, key: string)
    ensures var selected := DefsParams(Build(x, 0), false);
      key in Variables(DocumentParams(Build(x, 0))) <==>
        exists k :: 0 <= k < |selected|
          && Tagged(selected[k], "param")
          && Stores(ParamAttributes(GetAttribute(selected[k].attrs, "name"), GetAttribute(selected[k].attrs, "value")), key)
  {
    SelectedParamsMeans(Build(x, 0), key);
  }

  /** The fold over the selected params of `doc` stores `key` exactly when
      one of them, a `param`, carries it. */
  lemma SelectedParamsMeans(doc: Node, key: string)
    ensures var selected := DefsParams(doc, false);
      key in Variables(ReadAttributes(selected)) <==>
        exists k :: 0 <= k < |selected|
          && Tagged(selected[k], "param")
          && Stores(ParamAttributes(GetAttribute(selected[k].attrs, "name"), GetAttribute(selected[k].attrs, "value")), key)
  {
    var selected := DefsParams(doc, false);
    var params := ReadAttributes(selected);
    VariablesMeans(params, key);
    forall k | 0 <= k < |selected|
      ensures Tagged(selected[k], "param")
    {
      assert selected[k] in selected;
    }
  }


  // ---------------------------------------------------------------------
  // The mock parser

  function ReadMock(ps: seq<MockDomParser.MockParam>): (r: seq<ParamAttributes>)
    ensures |r| == |ps|
    ensures forall k :: 0 <= k < |ps| ==> r[k] == ParamAttributes(ps[k].GetAttribute("name"), ps[k].GetAttribute("value"))
  {
    if ps == [] then []
    else [ParamAttributes(ps[0].GetAttribute("name"), ps[0].GetAttribute("value"))] + ReadMock(ps[1..])
  }

  /** The extractor with the mock in place of the global DOMParser; an
      invariant the mock raises is `Err`. */
  function ParseFileContentsWithMock(input: string): Result<FileContents, string> {
    match MockDomParser.ParseFromString(input, "image/svg+xml")
    case Err(e) => Err(e)
    case Ok(doc) =>
      match MockDomParser.QuerySelectorAll(doc, "defs param")
      case Err(e) => Err(e)
      case Ok(ps) => Ok(Extract(input, ReadMock(ps)))
  }

  /** The extractor asks the mock only what it supports: it never raises,
      and returns the source unchanged. */
  lemma MockNeverRaises(input: string)
    ensures ParseFileContentsWithMock(input).Ok?
    ensures ParseFileContentsWithMock(input).value.source == input
  {
    MockDomParser.QuerySelectorAllMeans(MockDomParser.MockDocument(input), "defs param");
  }

  /** A source without a one-line `<defs>...</defs>` has no variables. */
  lemma MockNoDefs(input: string)
    requires forall i: nat, c: nat :: !MockDomParser.DefsMatch(input, i, c)
    ensures ParseFileContentsWithMock(input) == Ok(FileContents(input, map[]))
  {
    MockDomParser.NoDefsNoParams(input);
  }
}
