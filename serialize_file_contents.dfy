/**
 * The merger: `sendFileContents({ drawingId, variables })` of the
 * serializeFileContents module. It completes the namespaces of the drawing's
 * markup, parses it, reconciles the `<defs>` element with the variables,
 * serializes and prettifies the document and tells the listener the result.
 */
module SerializeFileContents {
  import opened Wrappers
  import opened Text
  import opened Dom
  import Namespaces

  /** A parameter value coming from the editor. */
  datatype Variable = Variable(name: string, value: string)

  /** The `error` object passed to the listener. */
  datatype ErrorReport = ErrorReport(message: string, buttonText: string, buttonUrl: string, openInNewTab: bool)

  /** The one argument of the listener: a payload or an error, the other null. */
  datatype Message = Message(payload: Option<string>, error: Option<ErrorReport>)

  /** The TypeErrors the merger can raise before it reaches the listener:
      `removeChild` read off the null `parentNode` of a param removed before,
      `removeChild` read off the undefined `parentNode` of a member the
      index inherits from `Object.prototype`, and `firstChild` read off a
      document without a root element. */
  datatype Failure = RemoveFromNullParent | RemoveFromUndefinedParent | NoDocumentElement

  /** A call of `sendFileContents`: the listener is called once with a
      message, or an exception leaves the call and the listener is not called. */
  datatype Outcome = Listened(message: Message) | Threw(failure: Failure)

  /** The foreign XML functions: DOMParser.parseFromString for
      `image/svg+xml` (a malformed input yields a document holding a
      parser-error element), XMLSerializer.serializeToString and prettify-xml. */
  datatype XmlCodec = XmlCodec(parse: string -> Xml, serialize: Xml -> string, prettify: string -> string) {
    /** `parser.parseFromString(markup, 'image/svg+xml')`. */
    function Parse(markup: string): Xml {
      parse(markup)
    }
  }

  const SerializationError := ErrorReport(
    "Uh-oh! We can\U{2019}t serialize the contents of your SVG. Make sure "
      + "it\U{2019}s valid XML. If you need help, you can copy the markup "
      + "and paste it into an online validator.",
    "Validate your markup",
    "https://xmlvalidation.com/",
    true)

  // ---------------------------------------------------------------------
  // The parser-error test on the payload: `/<parsererror\b/`

  const ParserErrorTag := "<parsererror"

  ghost predicate ParserErrorAt(s: string, i: nat) {
    StartsAt(s, i, ParserErrorTag) && WordBoundary(s, i + |ParserErrorTag|)
  }

  function ParserErrorFrom(s: string, i: nat): bool
    decreases |s| - i
  {
    if i + |ParserErrorTag| > |s| then false
    else if StartsAt(s, i, ParserErrorTag) && WordBoundary(s, i + |ParserErrorTag|) then true
    else ParserErrorFrom(s, i + 1)
  }

  function ContainsParserError(s: string): bool {
    ParserErrorFrom(s, 0)
  }

  lemma {:induction false} ParserErrorFromMeans(s: string, lo: nat)
    ensures ParserErrorFrom(s, lo) <==> exists i: nat :: lo <= i && ParserErrorAt(s, i)
    decreases |s| - lo
  {
    if lo + |ParserErrorTag| > |s| {
      assert forall i: nat :: lo <= i ==> !StartsAt(s, i, ParserErrorTag);
    } else if StartsAt(s, lo, ParserErrorTag) && WordBoundary(s, lo + |ParserErrorTag|) {
      assert ParserErrorAt(s, lo);
    } else {
      ParserErrorFromMeans(s, lo + 1);
      assert !ParserErrorAt(s, lo);
      if exists i: nat :: lo <= i && ParserErrorAt(s, i) {
        var i: nat :| lo <= i && ParserErrorAt(s, i);
        assert lo + 1 <= i;
      }
    }
  }

  /** The test matches exactly the texts holding `<parsererror` followed by
      a word boundary (the end of the text or a character outside `\w`). */
  lemma ContainsParserErrorMeans(s: string)
    ensures ContainsParserError(s) <==> exists i: nat :: ParserErrorAt(s, i)
    ensures ContainsParserError(s) <==>
      exists i: nat :: StartsAt(s, i, ParserErrorTag)
        && (i + |ParserErrorTag| == |s| || !IsWordChar(s[i + |ParserErrorTag|]))
  {
    ParserErrorFromMeans(s, 0);
    forall i: nat | StartsAt(s, i, ParserErrorTag)
      ensures ParserErrorAt(s, i) <==> (i + |ParserErrorTag| == |s| || !IsWordChar(s[i + |ParserErrorTag|]))
    {
      assert s[i..i + |ParserErrorTag|][|ParserErrorTag| - 1] == 'r';
      assert s[i + |ParserErrorTag| - 1] == 'r';
    }
  }

  /** The prettified serialization of the document, newline-terminated. */
  function PayloadText(codec: XmlCodec, doc: Node): string {
    codec.prettify(codec.serialize(Erase(doc))) + "\n"
  }

  /** What the listener receives for the finished document. */
  function Report(codec: XmlCodec, doc: Node): Message {
    var payload := PayloadText(codec, doc);
    if ContainsParserError(payload) then Message(None, Some(SerializationError))
    else Message(Some(payload), None)
  }

  /** The listener gets exactly one of a payload and an error. The payload
      is the prettified serialization followed by a newline; the error is
      the fixed report, given exactly when that text shows a parser error. */
  lemma ReportMeans(codec: XmlCodec, doc: Node)
    ensures Report(codec, doc).payload.Some? != Report(codec, doc).error.Some?
    ensures Report(codec, doc).error.Some?
        <==> exists i: nat :: ParserErrorAt(PayloadText(codec, doc), i)
    ensures Report(codec, doc).error.Some? ==>
      Report(codec, doc).error.value == SerializationError && Report(codec, doc).error.value.openInNewTab
    ensures Report(codec, doc).payload.Some? ==>
      var payload := Report(codec, doc).payload.value;
      payload == PayloadText(codec, doc) && payload[|payload| - 1] == '\n'
  {
    var text := PayloadText(codec, doc);
    ContainsParserErrorMeans(text);
    assert text[|text| - 1] == '\n';
  }

  // ---------------------------------------------------------------------
  // The index of existing params: `existingParams[name] = paramElement`

  /** The property key a param is stored under: its `name` attribute, or
      "null" (the key a null name converts to) when it has none. */
  function NameKey(param: Node): string {
    if param.Element? then GetAttribute(param.attrs, "name").GetOr("null") else "null"
  }

  /** The index after visiting `params` left to right: each param's key is
      bound to its identity, a later param overwriting an earlier one. */
  function IndexOf(params: seq<Node>): map<string, nat>
  {
    if params == [] then map[]
    else IndexOf(params[..|params| - 1])[NameKey(params[|params| - 1]) := params[|params| - 1].id]
  }

  /** The `forEach` that fills the index. */
  method BuildIndex(params: seq<Node>) returns (index: map<string, nat>)
    ensures index == IndexOf(params)
  {
    index := map[];
    for i := 0 to |params|
      invariant index == IndexOf(params[..i])
    {
      assert params[..i + 1][..i] == params[..i];
      index := index[NameKey(params[i]) := params[i].id];
    }
    assert params[..|params|] == params;
  }

  /** The param `name` is bound to: the last one carrying that key. */
  ghost predicate LastWithKey(params: seq<Node>, key: string, j: nat) {
    j < |params| && NameKey(params[j]) == key
    && forall k :: j < k < |params| ==> NameKey(params[k]) != key
  }

  /** The index holds a key exactly when some param carries it. */
  lemma {:induction false} IndexOfKeys(params: seq<Node>)
    ensures forall key :: key in IndexOf(params) <==> exists j :: 0 <= j < |params| && NameKey(params[j]) == key
  {
    if params != [] {
      var n := |params| - 1;
      var front := params[..n];
      IndexOfKeys(front);
      assert IndexOf(params) == IndexOf(front)[NameKey(params[n]) := params[n].id];
      forall key ensures key in IndexOf(params) <==> exists j :: 0 <= j < |params| && NameKey(params[j]) == key {
        if key in IndexOf(front) {
          var j :| 0 <= j < |front| && NameKey(front[j]) == key;
          assert params[j] == front[j];
        }
        if exists j :: 0 <= j < |params| && NameKey(params[j]) == key {
          var j :| 0 <= j < |params| && NameKey(params[j]) == key;
          if j < n {
            assert front[j] == params[j];
          }
        }
      }
    }
  }

  lemma LastWithKeyExtends(params: seq<Node>, key: string, j: nat)
    requires |params| > 0 && NameKey(params[|params| - 1]) != key
    requires LastWithKey(params[..|params| - 1], key, j)
    ensures LastWithKey(params, key, j) && params[..|params| - 1][j] == params[j]
  {
  }

  /** The index binds each key to the identity of the last param carrying it. */
  lemma {:induction false} IndexOfLast(params: seq<Node>)
    ensures forall key :: key in IndexOf(params) ==>
      exists j: nat :: LastWithKey(params, key, j) && IndexOf(params)[key] == params[j].id
  {
    if params != [] {
      var n := |params| - 1;
      var front := params[..n];
      IndexOfLast(front);
      assert IndexOf(params) == IndexOf(front)[NameKey(params[n]) := params[n].id];
      forall key | key in IndexOf(params)
        ensures exists j: nat :: LastWithKey(params, key, j) && IndexOf(params)[key] == params[j].id
      {
        if key == NameKey(params[n]) {
          assert LastWithKey(params, key, n);
        } else {
          assert key in IndexOf(front);
          var j: nat :| LastWithKey(front, key, j) && IndexOf(front)[key] == front[j].id;
          LastWithKeyExtends(params, key, j);
        }
      }
    }
  }

  /** Of two params with the same key, the earlier is not in the index, so
      the loop never removes it: an earlier duplicate survives. */
  lemma EarlierDuplicateNotIndexed(params: seq<Node>, j: nat, k: nat)
    requires Increasing(params)
    requires j < k < |params| && NameKey(params[j]) == NameKey(params[k])
    ensures forall key :: key in IndexOf(params) ==> IndexOf(params)[key] != params[j].id
  {
    IndexOfLast(params);
    forall key | key in IndexOf(params) ensures IndexOf(params)[key] != params[j].id {
      var l: nat :| LastWithKey(params, key, l) && IndexOf(params)[key] == params[l].id;
      if key == NameKey(params[j]) {
        assert k <= l;
      }
      assert l != j;
    }
  }

  /** With distinct identities, different keys lead to different params. */
  lemma IndexInjective(params: seq<Node>)
    requires Increasing(params)
    ensures forall a, b :: a in IndexOf(params) && b in IndexOf(params) && a != b ==> IndexOf(params)[a] != IndexOf(params)[b]
  {
    IndexOfLast(params);
    forall a, b | a in IndexOf(params) && b in IndexOf(params) && a != b
      ensures IndexOf(params)[a] != IndexOf(params)[b]
    {
      var ja: nat :| LastWithKey(params, a, ja) && IndexOf(params)[a] == params[ja].id;
      var jb: nat :| LastWithKey(params, b, jb) && IndexOf(params)[b] == params[jb].id;
      assert ja != jb;
    }
  }

  /** Every identity in the index is that of one of the params. */
  lemma IndexValues(params: seq<Node>, bound: nat)
    requires forall m :: m in params ==> m.id < bound
    ensures forall key :: key in IndexOf(params) ==> IndexOf(params)[key] < bound
  {
    IndexOfLast(params);
    forall key | key in IndexOf(params) ensures IndexOf(params)[key] < bound {
      var j: nat :| LastWithKey(params, key, j) && IndexOf(params)[key] == params[j].id;
      assert params[j] in params;
    }
  }

  // ---------------------------------------------------------------------
  // The variables loop: remove the indexed param, append a fresh one

  /** The `<param name value/>` created for a variable; `id` is its fresh
      identity. */
  function ParamElement(id: nat, v: Variable): Node {
    Element(id, "param", [Attr("name", v.name), Attr("value", v.value)], [])
  }

  /** The params created for `vs`, identities counted from `next`. */
  function NewParams(vs: seq<Variable>, next: nat): (r: seq<Node>)
    ensures |r| == |vs|
  {
    seq(|vs|, k requires 0 <= k < |vs| => ParamElement(next + k, vs[k]))
  }

  /** One new param per variable, in input order, each carrying exactly the
      variable's name and value; no name is merged with another. */
  lemma NewParamsMeans(vs: seq<Variable>, next: nat)
    ensures forall k :: 0 <= k < |vs| ==>
      var p := NewParams(vs, next)[k];
      && p.id == next + k && Tagged(p, "param") && p.children == []
      && GetAttribute(p.attrs, "name") == Some(vs[k].name)
      && GetAttribute(p.attrs, "value") == Some(vs[k].value)
      && NameKey(p) == vs[k].name
  {
    forall k | 0 <= k < |vs|
      ensures var p := NewParams(vs, next)[k];
        && GetAttribute(p.attrs, "name") == Some(vs[k].name)
        && GetAttribute(p.attrs, "value") == Some(vs[k].value)
    {
      var attrs := NewParams(vs, next)[k].attrs;
      assert attrs[0].name == "name";
      assert attrs[1].name == "value" && attrs[1..][0] == attrs[1];
      assert GetAttribute(attrs, "value") == GetAttribute(attrs[1..], "value");
    }
  }

  lemma NewParamsSnoc(vs: seq<Variable>, i: nat, next: nat)
    requires i < |vs|
    ensures NewParams(vs[..i + 1], next) == NewParams(vs[..i], next) + [ParamElement(next + i, vs[i])]
  {
  }

  /** The identities of the params the loop removes. */
  function RemovedIds(index: map<string, nat>, vs: seq<Variable>): set<nat> {
    set k | 0 <= k < |vs| && vs[k].name in index :: index[vs[k].name]
  }

  /** The loop throws when a variable reaches, through the index, a param
      an earlier variable already took out. */
  predicate Crashes(index: map<string, nat>, vs: seq<Variable>) {
    exists j, k :: 0 <= j < k < |vs| && vs[j].name in index && vs[k].name in index
                   && index[vs[j].name] == index[vs[k].name]
  }

  lemma RemovedIdsSnoc(index: map<string, nat>, vs: seq<Variable>, i: nat)
    requires i < |vs|
    ensures RemovedIds(index, vs[..i + 1])
         == RemovedIds(index, vs[..i]) + (if vs[i].name in index then {index[vs[i].name]} else {})
  {
    var pre, post := vs[..i], vs[..i + 1];
    forall id | id in RemovedIds(index, post)
      ensures id in RemovedIds(index, pre) + (if vs[i].name in index then {index[vs[i].name]} else {})
    {
      var k :| 0 <= k < |post| && post[k].name in index && id == index[post[k].name];
      if k < i {
        assert pre[k] == post[k];
      }
    }
    forall id | id in RemovedIds(index, pre) ensures id in RemovedIds(index, post) {
      var k :| 0 <= k < |pre| && pre[k].name in index && id == index[pre[k].name];
      assert post[k] == pre[k];
    }
    if vs[i].name in index {
      assert post[i] == vs[i];
    }
  }

  /** Whether step `i` throws, given the earlier steps did not. */
  lemma CrashesSnoc(index: map<string, nat>, vs: seq<Variable>, i: nat)
    requires i < |vs| && !Crashes(index, vs[..i])
    ensures Crashes(index, vs[..i + 1])
        <==> vs[i].name in index && index[vs[i].name] in RemovedIds(index, vs[..i])
  {
    var pre, post := vs[..i], vs[..i + 1];
    if vs[i].name in index && index[vs[i].name] in RemovedIds(index, pre) {
      var j :| 0 <= j < |pre| && pre[j].name in index && index[vs[i].name] == index[pre[j].name];
      assert post[j] == pre[j] && post[i] == vs[i];
    }
    if Crashes(index, post) {
      var j, k :| 0 <= j < k < |post| && post[j].name in index && post[k].name in index
                  && index[post[j].name] == index[post[k].name];
      if k < i {
        assert pre[j] == post[j] && pre[k] == post[k];
      } else {
        assert pre[j] == post[j];
      }
    }
  }

  lemma CrashesPrefix(index: map<string, nat>, vs: seq<Variable>, i: nat)
    requires i <= |vs| && Crashes(index, vs[..i])
    ensures Crashes(index, vs)
  {
    var j, k :| 0 <= j < k < i && vs[..i][j].name in index && vs[..i][k].name in index
                && index[vs[..i][j].name] == index[vs[..i][k].name];
    assert vs[..i][j] == vs[j] && vs[..i][k] == vs[k];
  }

  /** Removing a param that the appended params cannot contain leaves them. */
  lemma RemoveStep(c0: seq<Node>, removed: set<nat>, added: seq<Node>, target: nat)
    requires forall k :: 0 <= k < |added| ==> added[k].Element? && added[k].children == [] && added[k].id != target
    ensures PruneSeq(PruneSeq(c0, removed) + added, {target}) == PruneSeq(c0, removed + {target}) + added
  {
    PruneSeqAppend(PruneSeq(c0, removed), added, {target});
    PruneSeqTwice(c0, removed, {target});
    PruneSeqLeaves(added, {target});
  }

  /** One turn of the loop that does not throw: the removed set grows by
      the indexed param, and the children by the new param. */
  lemma ApplyStep(c0: seq<Node>, index: map<string, nat>, vs: seq<Variable>, i: nat, next: nat)
    requires i < |vs| && !Crashes(index, vs[..i])
    requires forall key :: key in index ==> index[key] < next
    requires vs[i].name in index ==> index[vs[i].name] !in RemovedIds(index, vs[..i])
    ensures !Crashes(index, vs[..i + 1])
    ensures RemovedIds(index, vs[..i + 1])
         == RemovedIds(index, vs[..i]) + (if vs[i].name in index then {index[vs[i].name]} else {})
    ensures var before := PruneSeq(c0, RemovedIds(index, vs[..i])) + NewParams(vs[..i], next);
      var pruned := if vs[i].name in index then PruneSeq(before, {index[vs[i].name]}) else before;
      pruned + [ParamElement(next + i, vs[i])]
        == PruneSeq(c0, RemovedIds(index, vs[..i + 1])) + NewParams(vs[..i + 1], next)
  {
    RemovedIdsSnoc(index, vs, i);
    CrashesSnoc(index, vs, i);
    NewParamsSnoc(vs, i, next);
    var removed, added := RemovedIds(index, vs[..i]), NewParams(vs[..i], next);
    var p := ParamElement(next + i, vs[i]);
    if vs[i].name in index {
      RemoveStep(c0, removed, added, index[vs[i].name]);
      assert PruneSeq(c0, removed + {index[vs[i].name]}) + added + [p]
          == PruneSeq(c0, removed + {index[vs[i].name]}) + (added + [p]);
    } else {
      assert RemovedIds(index, vs[..i + 1]) == removed;
      assert PruneSeq(c0, removed) + added + [p] == PruneSeq(c0, removed) + (added + [p]);
    }
  }

  /** The turn for `v`, once the turns for `earlier` are done, throws only
      on an existing `<defs>` (the `hasExistingDefs &&` guard): with a null
      `parentNode` when the indexed param was taken out before, and with an
      undefined one when the name is not indexed but inherited. */
  function StepFailure(index: map<string, nat>, existing: bool, earlier: seq<Variable>, v: Variable): Option<Failure> {
    if !existing then None
    else if v.name in index then
      (if index[v.name] in RemovedIds(index, earlier) then Some(RemoveFromNullParent) else None)
    else if v.name in InheritedNames then Some(RemoveFromUndefinedParent)
    else None
  }

  /** The exception the loop over `vs` raises: that of its first turn
      that raises one. */
  function LoopFailure(index: map<string, nat>, existing: bool, vs: seq<Variable>): Option<Failure>
    decreases |vs|
  {
    if vs == [] then None
    else match LoopFailure(index, existing, vs[..|vs| - 1])
      case Some(f) => Some(f)
      case None => StepFailure(index, existing, vs[..|vs| - 1], vs[|vs| - 1])
  }

  /** Once a turn has thrown, the loop ends with that exception. */
  lemma {:induction false} LoopFailurePrefix(index: map<string, nat>, existing: bool, vs: seq<Variable>, i: nat)
    requires i <= |vs| && LoopFailure(index, existing, vs[..i]).Some?
    ensures LoopFailure(index, existing, vs) == LoopFailure(index, existing, vs[..i])
    decreases |vs|
  {
    if i < |vs| {
      var pre := vs[..|vs| - 1];
      assert pre[..i] == vs[..i];
      LoopFailurePrefix(index, existing, pre, i);
    } else {
      assert vs[..i] == vs;
    }
  }

  /** Without an existing `<defs>` the loop never throws. */
  lemma {:induction false} NewDefsNeverFail(index: map<string, nat>, vs: seq<Variable>)
    ensures LoopFailure(index, false, vs) == None
    decreases |vs|
  {
    if vs != [] {
      NewDefsNeverFail(index, vs[..|vs| - 1]);
    }
  }

  /** On an existing `<defs>` the loop throws exactly when
      `CrashesAsWritten`; a null `parentNode` comes from a param reached
      twice, an undefined one from an inherited name. */
  lemma {:induction false} LoopFailureMeans(index: map<string, nat>, vs: seq<Variable>)
    ensures LoopFailure(index, true, vs).None? <==> !CrashesAsWritten(index, vs)
    ensures LoopFailure(index, true, vs) != Some(NoDocumentElement)
    ensures LoopFailure(index, true, vs) == Some(RemoveFromNullParent) ==> Crashes(index, vs)
    ensures LoopFailure(index, true, vs) == Some(RemoveFromUndefinedParent) ==>
      exists k :: 0 <= k < |vs| && Inherited(index, vs[k].name)
    decreases |vs|
  {
    if vs != [] {
      var n := |vs| - 1;
      var pre := vs[..n];
      LoopFailureMeans(index, pre);
      assert vs[..n + 1] == vs;
      if LoopFailure(index, true, pre).Some? {
        FailureCarries(index, vs, n);
      } else {
        CrashesSnoc(index, vs, n);
        StepCarries(index, vs, n);
      }
    }
  }

  /** A throw within the first `n` turns is a throw of the whole loop. */
  lemma FailureCarries(index: map<string, nat>, vs: seq<Variable>, n: nat)
    requires n < |vs|
    requires CrashesAsWritten(index, vs[..n])
    ensures CrashesAsWritten(index, vs)
    ensures Crashes(index, vs[..n]) ==> Crashes(index, vs)
    ensures (exists k :: 0 <= k < n && Inherited(index, vs[..n][k].name)) ==>
      exists k :: 0 <= k < |vs| && Inherited(index, vs[k].name)
  {
    if Crashes(index, vs[..n]) {
      CrashesPrefix(index, vs, n);
    }
    if exists k :: 0 <= k < n && Inherited(index, vs[..n][k].name) {
      var k :| 0 <= k < n && Inherited(index, vs[..n][k].name);
      assert vs[..n][k] == vs[k];
    }
  }

  /** With no throw in the first `n` turns, the loop over `n + 1` turns
      throws exactly when the last turn does. */
  lemma StepCarries(index: map<string, nat>, vs: seq<Variable>, n: nat)
    requires n == |vs| - 1
    requires !CrashesAsWritten(index, vs[..n])
    requires Crashes(index, vs) <==> vs[n].name in index && index[vs[n].name] in RemovedIds(index, vs[..n])
    ensures CrashesAsWritten(index, vs) <==> StepFailure(index, true, vs[..n], vs[n]).Some?
    ensures (exists k :: 0 <= k < |vs| && Inherited(index, vs[k].name)) <==> Inherited(index, vs[n].name)
  {
    forall k | 0 <= k < n
      ensures !Inherited(index, vs[k].name)
    {
      assert vs[..n][k] == vs[k];
    }
  }

  /** `variables.forEach(...)` on the defs element: for each variable the
      old param the index leads to is removed (only on an existing
      `<defs>`), and a fresh param is appended. The loop stops with the
      first exception a turn raises. */
  method ApplyVariables(defs: DefsElement, index: map<string, nat>, existing: bool, vs: seq<Variable>, next: nat)
      returns (failure: Option<Failure>)
    requires defs.detached == {}
    requires existing || index == map[]
    requires forall key :: key in index ==> index[key] < next
    modifies defs
    ensures failure == LoopFailure(index, existing, vs)
    ensures failure.None? ==> defs.children == PruneSeq(old(defs.children), RemovedIds(index, vs)) + NewParams(vs, next)
  {
    ghost var c0 := defs.children;
    PruneSeqNothing(c0);
    failure := None;
    var i := 0;
    while i < |vs|
      invariant 0 <= i <= |vs|
      invariant LoopFailure(index, existing, vs[..i]) == None
      invariant !Crashes(index, vs[..i])
      invariant defs.detached == RemovedIds(index, vs[..i])
      invariant defs.children == PruneSeq(c0, RemovedIds(index, vs[..i])) + NewParams(vs[..i], next)
    {
      var v := vs[i];
      assert vs[..i + 1][..i] == vs[..i];
      if existing && v.name in index {
        var thrown := defs.RemoveDescendant(index[v.name]);
        if thrown {
          failure := Some(RemoveFromNullParent);
          LoopFailurePrefix(index, existing, vs, i + 1);
          return;
        }
      } else if existing && v.name in InheritedNames {
        failure := Some(RemoveFromUndefinedParent);
        LoopFailurePrefix(index, existing, vs, i + 1);
        return;
      }
      ApplyStep(c0, index, vs, i, next);
      defs.AppendChild(ParamElement(next + i, v));
      i := i + 1;
    }
    assert vs[..i] == vs;
  }

  /** Through an injective index, the loop throws exactly when two
      variables share a name that is in the index. */
  lemma CrashesIff(index: map<string, nat>, vs: seq<Variable>)
    requires forall a, b :: a in index && b in index && a != b ==> index[a] != index[b]
    ensures Crashes(index, vs) <==>
      exists j, k :: 0 <= j < k < |vs| && vs[j].name == vs[k].name && vs[j].name in index
  {
  }

  /** Names that reach no indexed param never make the loop throw, and
      then nothing is removed. */
  lemma FreshNames(index: map<string, nat>, vs: seq<Variable>)
    requires forall k :: 0 <= k < |vs| ==> vs[k].name !in index
    ensures !Crashes(index, vs) && RemovedIds(index, vs) == {}
  {
  }

  // ---------------------------------------------------------------------
  // The whole call

  /** The index built from the params under the reused `<defs>`. */
  function ExistingIndex(defs: Node): map<string, nat> {
    IndexOf(Descendants(defs, "param"))
  }

  /** The reused `<defs>` after the loop. */
  function Updated(defs: Node, vs: seq<Variable>, next: nat): Node
    requires defs.Element?
  {
    defs.(children := PruneSeq(defs.children, RemovedIds(ExistingIndex(defs), vs)) + NewParams(vs, next))
  }

  /** The `<defs>` created when the document has none; it takes the first
      fresh identity, its params the following ones. */
  function Created(vs: seq<Variable>, next: nat): Node {
    Element(next, "defs", [], NewParams(vs, next + 1))
  }

  /** The document after the reconciliation of its `<defs>` with `vs`, or
      the exception raised on the way. `x` is the parsed markup; its DOM
      numbers its nodes `0 .. Count(x) - 1`, so `Count(x)` is fresh. */
  function Reconciled(x: Xml, vs: seq<Variable>): Result<Node, Failure> {
    var doc := Build(x, 0);
    match FindFirst(doc, "defs")
    case Some(p) =>
      FindFirstMeans(doc, "defs");
      var defs := At(doc, p);
      if Crashes(ExistingIndex(defs), vs) then Err(RemoveFromNullParent)
      else Ok(ReplaceAt(doc, p, Updated(defs, vs, Count(x))))
    case None =>
      if doc.Text? then Err(NoDocumentElement)
      else Ok(doc.(children := [Created(vs, Count(x))] + doc.children))
  }

  /** The reconciliation as written: the loop on an existing `<defs>`
      throws at its first failing turn, which can also be an inherited
      name; when it does not throw, the result is the own-key one. */
  function ReconciledAsWritten(x: Xml, vs: seq<Variable>): Result<Node, Failure> {
    var doc := Build(x, 0);
    match FindFirst(doc, "defs")
    case Some(p) =>
      FindFirstMeans(doc, "defs");
      (match LoopFailure(ExistingIndex(At(doc, p)), true, vs)
       case Some(f) => Err(f)
       case None => Reconciled(x, vs))
    case None => Reconciled(x, vs)
  }

  /** The specification of `sendFileContents`. */
  function Merge(codec: XmlCodec, markup: string, vs: seq<Variable>): Outcome {
    match ReconciledAsWritten(codec.Parse(Namespaces.CompleteNamespaces(markup)), vs)
    case Ok(doc) => Listened(Report(codec, doc))
    case Err(failure) => Threw(failure)
  }

  /** `sendFileContents({ drawingId, variables })`, with the serialized
      drawing given as `markup`. */
  method SendFileContents(codec: XmlCodec, markup: string, vs: seq<Variable>) returns (outcome: Outcome)
    ensures outcome == Merge(codec, markup, vs)
  {
    var markupWithNamespaces := Namespaces.CompleteNamespaces(markup);
    var x := codec.Parse(markupWithNamespaces);
    var doc := Build(x, 0);
    var next := Count(x);
    var existing := FindFirst(doc, "defs");
    FindFirstMeans(doc, "defs");
    var defs: DefsElement;
    var index: map<string, nat> := map[];
    if existing.Some? {
      var found := At(doc, existing.value);
      defs := new DefsElement(found.id, found.attrs, found.children);
      var params := Descendants(found, "param");
      index := BuildIndex(params);
      DescendantsOfBuilt(x, existing.value, "param");
      IndexValues(params, next);
    } else {
      defs := new DefsElement(next, [], []);
      next := next + 1;
    }
    var failure := ApplyVariables(defs, index, existing.Some?, vs, next);
    NewDefsNeverFail(index, vs);
    LoopFailureMeans(index, vs);
    if failure.Some? {
      outcome := Threw(failure.value);
    } else if existing.Some? {
      var found := At(doc, existing.value);
      assert defs.ToNode() == Updated(found, vs, Count(x));
      outcome := Listened(Report(codec, ReplaceAt(doc, existing.value, defs.ToNode())));
      assert ReconciledAsWritten(x, vs) == Ok(ReplaceAt(doc, existing.value, defs.ToNode()));
    } else if doc.Text? {
      outcome := Threw(NoDocumentElement);
    } else {
      assert defs.ToNode() == Created(vs, Count(x));
      outcome := Listened(Report(codec, doc.(children := [defs.ToNode()] + doc.children)));
    }
  }

  // ---------------------------------------------------------------------
  // What the call promises

  /** The `<param>` descendants of the first `<defs>`; none without one. */
  function ExistingParams(x: Xml): seq<Node> {
    var doc := Build(x, 0);
    match FindFirst(doc, "defs")
    case Some(p) =>
      FindFirstMeans(doc, "defs");
      Descendants(At(doc, p), "param")
    case None => []
  }

  /** Some param under the first `<defs>` is indexed under `name`. */
  ghost predicate Indexed(x: Xml, name: string) {
    exists i :: 0 <= i < |ExistingParams(x)| && NameKey(ExistingParams(x)[i]) == name
  }

  /** A document without a root element makes the call throw; otherwise
      the loop throws exactly when two variables share a name under which
      a param of the existing `<defs>` is indexed (the second removal finds
      the param detached). Duplicate names that reach no param, and any
      duplicates when the `<defs>` is new, are both appended. */
  lemma ReconciledThrows(x: Xml, vs: seq<Variable>)
    ensures Reconciled(x, vs) == Err(NoDocumentElement) <==> Build(x, 0).Text?
    ensures Reconciled(x, vs) == Err(RemoveFromNullParent) <==>
      exists j, k :: 0 <= j < k < |vs| && vs[j].name == vs[k].name && Indexed(x, vs[j].name)
  {
    var doc := Build(x, 0);
    FindFirstMeans(doc, "defs");
    if FindFirst(doc, "defs").Some? {
      var p := FindFirst(doc, "defs").value;
      var params := Descendants(At(doc, p), "param");
      assert ExistingParams(x) == params;
      DescendantsOfBuilt(x, p, "param");
      IndexInjective(params);
      IndexOfKeys(params);
      CrashesIff(IndexOf(params), vs);
    } else {
      assert ExistingParams(x) == [];
    }
  }

  /** With distinct variable names the loop never throws. */
  lemma DistinctNamesNeverThrow(x: Xml, vs: seq<Variable>)
    requires forall j, k :: 0 <= j < k < |vs| ==> vs[j].name != vs[k].name
    ensures Reconciled(x, vs) != Err(RemoveFromNullParent)
    ensures ReconciledAsWritten(x, vs) != Err(RemoveFromNullParent)
    ensures (forall k :: 0 <= k < |vs| ==> vs[k].name !in InheritedNames) ==>
      ReconciledAsWritten(x, vs).Ok? || Build(x, 0).Text?
  {
    ReconciledThrows(x, vs);
    AsWrittenThrows(x, vs);
    var doc := Build(x, 0);
    FindFirstMeans(doc, "defs");
    if FindFirst(doc, "defs").Some? {
      LoopFailureMeans(ExistingIndex(At(doc, FindFirst(doc, "defs").value)), vs);
    }
    if forall k :: 0 <= k < |vs| ==> vs[k].name !in InheritedNames {
      AsWrittenAgrees(x, vs);
    }
  }

  /** The first `<defs>` in document order is the one reused, in its own
      place: it keeps its identity and attributes, and its children are the
      old ones that were not removed followed by the new params. Nothing
      else changes: every subtree apart from the `<defs>` is as it was, and
      each of its ancestors stays the same element with as many children. */
  lemma ExistingDefsReused(x: Xml, vs: seq<Variable>)
    requires FindFirst(Build(x, 0), "defs").Some? && Reconciled(x, vs).Ok?
    ensures var doc := Build(x, 0);
      var p := FindFirst(doc, "defs").value;
      ValidPath(doc, p) && Tagged(At(doc, p), "defs")
      && exists k: nat :: FirstTaggedAt(Subtree(doc), "defs", k) && Subtree(doc)[k] == At(doc, p)
    ensures var doc := Build(x, 0);
      var p := FindFirst(doc, "defs").value;
      var result := Reconciled(x, vs).value;
      ValidPath(doc, p) && ValidPath(result, p)
      && var before := At(doc, p);
      var after := At(result, p);
      && Tagged(after, "defs") && after.id == before.id && after.attrs == before.attrs
      && after.children == PruneSeq(before.children, RemovedIds(ExistingIndex(before), vs)) + NewParams(vs, Count(x))
    ensures var doc := Build(x, 0);
      var p := FindFirst(doc, "defs").value;
      var result := Reconciled(x, vs).value;
      p != [] ==> result.Element? && doc.Element? && result.id == doc.id && result.tag == doc.tag && result.attrs == doc.attrs
    ensures var doc := Build(x, 0);
      var p := FindFirst(doc, "defs").value;
      var result := Reconciled(x, vs).value;
      forall q :: ValidPath(doc, q) && Apart(p, q) ==> ValidPath(result, q) && At(result, q) == At(doc, q)
    ensures var doc := Build(x, 0);
      var p := FindFirst(doc, "defs").value;
      var result := Reconciled(x, vs).value;
      forall j :: 0 <= j < |p| ==>
        ValidPath(doc, p[..j]) && ValidPath(result, p[..j]) && SameShell(At(doc, p[..j]), At(result, p[..j]))
  {
    var doc := Build(x, 0);
    FindFirstMeans(doc, "defs");
    var p := FindFirst(doc, "defs").value;
    var before := At(doc, p);
    var after := Updated(before, vs, Count(x));
    ReplaceAtPlaces(doc, p, after);
    if p != [] {
      ReplaceAtKeepsRoot(doc, p, after);
    }
    forall q | ValidPath(doc, q) && Apart(p, q)
      ensures ValidPath(ReplaceAt(doc, p, after), q) && At(ReplaceAt(doc, p, after), q) == At(doc, q)
    {
      ReplaceAtFrame(doc, p, after, q);
    }
    forall j | 0 <= j < |p|
      ensures ValidPath(doc, p[..j]) && ValidPath(ReplaceAt(doc, p, after), p[..j])
        && SameShell(At(doc, p[..j]), At(ReplaceAt(doc, p, after), p[..j]))
    {
      ReplaceAtAncestor(doc, p, after, j);
    }
  }

  /** The reused `<defs>`: the children that stay keep their relative
      order and precede all new params; no removed param is left anywhere
      below it; the last `|vs|` children are the new params. */
  lemma UpdatedChildren(defs: Node, vs: seq<Variable>, next: nat)
    requires defs.Element?
    ensures var c := Updated(defs, vs, next).children;
      var removed := RemovedIds(ExistingIndex(defs), vs);
      && |c| >= |vs|
      && IdsOf(c[..|c| - |vs|]) == Without(IdsOf(defs.children), removed)
      && (forall m :: m in Flatten(c[..|c| - |vs|]) ==> m.id !in removed)
      && c[|c| - |vs|..] == NewParams(vs, next)
  {
    var removed := RemovedIds(ExistingIndex(defs), vs);
    var kept := PruneSeq(defs.children, removed);
    var c := Updated(defs, vs, next).children;
    assert c == kept + NewParams(vs, next);
    assert c[..|c| - |vs|] == kept;
    assert c[|c| - |vs|..] == NewParams(vs, next);
    PruneSeqTopIds(defs.children, removed);
    PruneSeqRemoves(defs.children, removed);
  }

  /** An updated variable's old param is gone from the reused `<defs>`
      and its new param, with the new value, is among the last `|vs|`
      children, in the variable's place in the input. */
  lemma UpdatedParamMoves(defs: Node, vs: seq<Variable>, next: nat, k: nat)
    requires defs.Element? && k < |vs| && vs[k].name in ExistingIndex(defs)
    ensures var c := Updated(defs, vs, next).children;
      var gone := ExistingIndex(defs)[vs[k].name];
      && (forall m :: m in Flatten(c[..|c| - |vs|]) ==> m.id != gone)
      && GetAttribute(c[|c| - |vs| + k].attrs, "value") == Some(vs[k].value)
      && NameKey(c[|c| - |vs| + k]) == vs[k].name
  {
    UpdatedChildren(defs, vs, next);
    NewParamsMeans(vs, next);
    var c := Updated(defs, vs, next).children;
    assert c[|c| - |vs| + k] == c[|c| - |vs|..][k];
    assert vs[k].name in ExistingIndex(defs) && ExistingIndex(defs)[vs[k].name] in RemovedIds(ExistingIndex(defs), vs);
  }

  /** Without a `<defs>`, a new one holding the new params becomes the
      first child of the root element, which is otherwise unchanged; its
      identity is fresh. */
  lemma NewDefsFirst(x: Xml, vs: seq<Variable>)
    requires FindFirst(Build(x, 0), "defs").None? && Build(x, 0).Element?
    ensures forall m :: m in Subtree(Build(x, 0)) ==> !Tagged(m, "defs") && m.id < Count(x)
    ensures Reconciled(x, vs).Ok?
    ensures var doc := Build(x, 0);
      var result := Reconciled(x, vs).value;
      && result.Element? && result.id == doc.id && result.tag == doc.tag && result.attrs == doc.attrs
      && |result.children| == |doc.children| + 1 && result.children[1..] == doc.children
      && var defs := result.children[0];
      Tagged(defs, "defs") && defs.attrs == [] && defs.children == NewParams(vs, Count(x) + 1)
  {
    FindFirstMeans(Build(x, 0), "defs");
    BuiltIncreasing(x, 0);
  }

  /** With no variables, an existing `<defs>` and the whole document stay as
      they are, and a new `<defs>` is empty (`<defs/>`). */
  lemma NoVariables(x: Xml)
    requires Build(x, 0).Element?
    ensures Reconciled(x, []).Ok?
    ensures FindFirst(Build(x, 0), "defs").Some? ==> Reconciled(x, []).value == Build(x, 0)
    ensures FindFirst(Build(x, 0), "defs").None? ==>
      Reconciled(x, []).value.children == [Element(Count(x), "defs", [], [])] + Build(x, 0).children
  {
    var doc := Build(x, 0);
    FindFirstMeans(doc, "defs");
    if FindFirst(doc, "defs").Some? {
      var p := FindFirst(doc, "defs").value;
      var defs := At(doc, p);
      assert RemovedIds(ExistingIndex(defs), []) == {};
      PruneSeqNothing(defs.children);
      assert Updated(defs, [], Count(x)) == defs;
      ReplaceAtSame(doc, p);
    }
  }

  /** With an existing `<defs>` and no variables the merger sends back the
      prettified serialization of the parsed markup itself. */
  lemma NoVariablesPayload(codec: XmlCodec, markup: string)
    requires FindFirst(Build(codec.Parse(Namespaces.CompleteNamespaces(markup)), 0), "defs").Some?
    ensures var x := codec.Parse(Namespaces.CompleteNamespaces(markup));
      && Merge(codec, markup, []) == Listened(Report(codec, Build(x, 0)))
      && PayloadText(codec, Build(x, 0)) == codec.prettify(codec.serialize(x)) + "\n"
  {
    var x := codec.Parse(Namespaces.CompleteNamespaces(markup));
    FindFirstMeans(Build(x, 0), "defs");
    NoVariables(x);
    EraseBuild(x, 0);
  }

  /** The listener is called once, with exactly one of a payload and the
      fixed error, unless the call throws first. */
  lemma MergeMessage(codec: XmlCodec, markup: string, vs: seq<Variable>)
    ensures Merge(codec, markup, vs).Listened? <==> ReconciledAsWritten(codec.Parse(Namespaces.CompleteNamespaces(markup)), vs).Ok?
    ensures Merge(codec, markup, vs).Listened? ==>
      var m := Merge(codec, markup, vs).message;
      var doc := ReconciledAsWritten(codec.Parse(Namespaces.CompleteNamespaces(markup)), vs).value;
      && (m.payload.Some? != m.error.Some?)
      && (m.error.Some? <==> ContainsParserError(PayloadText(codec, doc)))
      && (m.error.Some? ==> m.error.value == SerializationError)
      && (m.payload.Some? ==> m.payload.value == PayloadText(codec, doc))
  {
    var r := ReconciledAsWritten(codec.Parse(Namespaces.CompleteNamespaces(markup)), vs);
    if r.Ok? {
      ReportMeans(codec, r.value);
    }
  }

  // ---------------------------------------------------------------------
  // The index is a plain object

  /** The names every plain object inherits from `Object.prototype`
      (sections 20.1.3 and B.2.2 of ECMAScript 2017). */
  const InheritedNames: set<string> := {
    "constructor", "hasOwnProperty", "isPrototypeOf", "propertyIsEnumerable",
    "toLocaleString", "toString", "valueOf", "__proto__",
    "__defineGetter__", "__defineSetter__", "__lookupGetter__", "__lookupSetter__"
  }

  /** `existingParams[name]` finds, besides the indexed params, what the
      plain object inherits: a truthy value without a `parentNode`. */
  predicate Inherited(index: map<string, nat>, name: string) {
    name !in index && name in InheritedNames
  }

  /** The loop on an existing `<defs>` as written throws when a param is
      reached twice or a name is inherited. */
  predicate CrashesAsWritten(index: map<string, nat>, vs: seq<Variable>) {
    Crashes(index, vs) || exists k :: 0 <= k < |vs| && Inherited(index, vs[k].name)
  }

  /** When it returns, the call as written gives the own-key result, and it
      throws exactly when the own-key reconciliation does or, on an existing
      `<defs>`, a variable's name is inherited and carried by no param
      there. */
  lemma AsWrittenThrows(x: Xml, vs: seq<Variable>)
    ensures ReconciledAsWritten(x, vs).Ok? ==> ReconciledAsWritten(x, vs) == Reconciled(x, vs)
    ensures ReconciledAsWritten(x, vs).Err? <==>
      Reconciled(x, vs).Err?
      || (FindFirst(Build(x, 0), "defs").Some?
          && exists k :: 0 <= k < |vs| && vs[k].name in InheritedNames && !Indexed(x, vs[k].name))
  {
    var doc := Build(x, 0);
    FindFirstMeans(doc, "defs");
    if FindFirst(doc, "defs").Some? {
      var p := FindFirst(doc, "defs").value;
      var params := Descendants(At(doc, p), "param");
      assert ExistingParams(x) == params;
      IndexOfKeys(params);
      var index := IndexOf(params);
      LoopFailureMeans(index, vs);
      forall k | 0 <= k < |vs|
        ensures Inherited(index, vs[k].name) <==> vs[k].name in InheritedNames && !Indexed(x, vs[k].name)
      {
      }
    }
  }

  /** Without inherited names, the call as written and the own-key
      reconciliation agree, exceptions included. */
  lemma AsWrittenAgrees(x: Xml, vs: seq<Variable>)
    requires forall k :: 0 <= k < |vs| ==> vs[k].name !in InheritedNames
    ensures ReconciledAsWritten(x, vs) == Reconciled(x, vs)
  {
    var doc := Build(x, 0);
    FindFirstMeans(doc, "defs");
    if FindFirst(doc, "defs").Some? {
      var p := FindFirst(doc, "defs").value;
      var index := ExistingIndex(At(doc, p));
      LoopFailureMeans(index, vs);
      assert forall k :: 0 <= k < |vs| ==> !Inherited(index, vs[k].name);
      if LoopFailure(index, true, vs).Some? {
        assert LoopFailure(index, true, vs) != Some(RemoveFromUndefinedParent);
        assert LoopFailure(index, true, vs).value.RemoveFromNullParent?;
      }
    }
  }

  /** A variable named `constructor` on `<svg><defs/></svg>` makes the loop
      as written throw, while the own-key lookup appends its param to the
      `<defs>`. */
  lemma InheritedNameThrows()
    ensures var x := XElement("svg", [], [XElement("defs", [], [])]);
      var vs := [Variable("constructor", "1")];
      && ReconciledAsWritten(x, vs) == Err(RemoveFromUndefinedParent)
      && Reconciled(x, vs) == Ok(Element(0, "svg", [], [Element(1, "defs", [], [ParamElement(2, vs[0])])]))
  {
    var x := XElement("svg", [], [XElement("defs", [], [])]);
    var vs := [Variable("constructor", "1")];
    var doc := Build(x, 0);
    assert BuildSeq([XElement("defs", [], [])], 1) == [Element(1, "defs", [], [])];
    assert doc == Element(0, "svg", [], [Element(1, "defs", [], [])]);
    assert FindFirst(doc.children[0], "defs") == Some([]);
    assert [0] + [] == [0];
    assert FindFirstIn(doc.children, "defs") == Some([0] + []);
    assert !Tagged(doc, "defs");
    assert FindFirst(doc, "defs") == Some([0]);
    var defs := At(doc, [0]);
    assert defs == Element(1, "defs", [], []);
    var index := ExistingIndex(defs);
    assert Descendants(defs, "param") == [];
    assert index == map[];
    assert vs[..0] == [];
    assert StepFailure(index, true, [], vs[0]) == Some(RemoveFromUndefinedParent);
    assert LoopFailure(index, true, vs) == Some(RemoveFromUndefinedParent);
    assert !Crashes(index, vs);
    assert RemovedIds(index, vs) == {};
    assert CountSeq([XElement("defs", [], [])]) == 1;
    assert Count(x) == 2;
    assert NewParams(vs, 2) == [ParamElement(2, vs[0])];
    assert Updated(defs, vs, 2) == Element(1, "defs", [], [ParamElement(2, vs[0])]);
    assert ReplaceAt(doc, [0], Updated(defs, vs, 2))
        == Element(0, "svg", [], [Element(1, "defs", [], [ParamElement(2, vs[0])])]);
  }

}
