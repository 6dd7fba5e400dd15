/**
 * The earlier variant of the merger. It parses the markup, builds a fresh
 * `<defs>` holding one `<param>` per variable, and then calls
 * `appendBefore` on the document. A document has no such method, so the
 * call always ends in a TypeError, and nothing is sent anywhere.
 * Its `inPort` argument is never read, so the model has no such parameter.
 */
module PrepareFileContents {
  import opened Wrappers
  import opened Dom
  import Merger = SerializeFileContents

  /** `svg.appendBefore` is `undefined`; calling it is a TypeError. */
  datatype Failure = AppendBeforeIsNotAFunction

  /** The call that fails, with the arguments already evaluated:
      `svg.appendBefore(defs, firstChild)`. */
  datatype Attempt = AppendBefore(defs: Node, reference: Option<Node>)

  /** How a call of `sendFileContents` ends. */
  datatype Outcome = Returned | Threw(failure: Failure, attempted: Attempt)

  /** `defs.appendChild(param)` for each variable in turn, on a `<defs>`
      created with the identity `id`. */
  method BuildDefs(vs: seq<Merger.Variable>, id: nat) returns (defs: DefsElement)
    ensures fresh(defs)
    ensures defs.ToNode() == Merger.Created(vs, id)
  {
    defs := new DefsElement(id, [], []);
    var i := 0;
    while i < |vs|
      invariant 0 <= i <= |vs|
      invariant defs.id == id && defs.attrs == []
      invariant defs.children == Merger.NewParams(vs[..i], id + 1)
      modifies defs
    {
      Merger.NewParamsSnoc(vs, i, id + 1);
      defs.AppendChild(Merger.ParamElement(id + 1 + i, vs[i]));
      i := i + 1;
    }
    assert vs[..i] == vs;
  }

  /** What the call attempts on the parsed markup `x`: the fresh `<defs>`
      and the document's first child, which in this model is the root
      element itself. */
  function Prepared(x: Xml, vs: seq<Merger.Variable>): Outcome {
    Threw(AppendBeforeIsNotAFunction, AppendBefore(Merger.Created(vs, Count(x)), Some(Build(x, 0))))
  }

  /** `sendFileContents({ markup, variables })`. */
  method SendFileContents(codec: Merger.XmlCodec, markup: string, vs: seq<Merger.Variable>) returns (outcome: Outcome)
    ensures outcome == Prepared(codec.Parse(markup), vs)
  {
    var x := codec.Parse(markup);
    var svg := Build(x, 0);
    var defs := BuildDefs(vs, Count(x));
    var firstChild := Some(svg);
    outcome := Threw(AppendBeforeIsNotAFunction, AppendBefore(defs.ToNode(), firstChild));
  }

  /** The call never returns, whatever the markup and the variables. */
  lemma NeverReturns(x: Xml, vs: seq<Merger.Variable>)
    ensures Prepared(x, vs) != Returned
    ensures Prepared(x, vs).failure == AppendBeforeIsNotAFunction
  {
  }

  /** The `<defs>` is built from the variables alone, the markup's own
      `<defs>` and params never read: it holds one param per variable, in
      input order, with exactly that variable's name and value, and
      duplicate names are kept. */
  lemma FreshDefs(x: Xml, vs: seq<Merger.Variable>)
    ensures var defs := Prepared(x, vs).attempted.defs;
      && Tagged(defs, "defs") && defs.attrs == []
      && |defs.children| == |vs|
      && forall k :: 0 <= k < |vs| ==>
           var p := defs.children[k];
           && Tagged(p, "param") && p.children == []
           && GetAttribute(p.attrs, "name") == Some(vs[k].name)
           && GetAttribute(p.attrs, "value") == Some(vs[k].value)
  {
    Merger.NewParamsMeans(vs, Count(x) + 1);
  }

  /** The new nodes are new: no node of the document has the identity of
      the `<defs>` or of one of its params. */
  lemma FreshIdentities(x: Xml, vs: seq<Merger.Variable>)
    ensures var defs := Prepared(x, vs).attempted.defs;
      forall m, n :: m in Subtree(Build(x, 0)) && n in Subtree(defs) ==> m.id != n.id
  {
    var defs := Merger.Created(vs, Count(x));
    var ps := Merger.NewParams(vs, Count(x) + 1);
    BuiltIncreasing(x, 0);
    assert Subtree(defs) == [defs] + Flatten(ps);
    FlattenParams(ps, Count(x) + 1);
  }

  /** The params are leaves, so their flattening is themselves. */
  lemma {:induction false} FlattenParams(ps: seq<Node>, lo: nat)
    requires forall k :: 0 <= k < |ps| ==> ps[k].Element? && ps[k].children == [] && ps[k].id >= lo
    ensures forall n :: n in Flatten(ps) ==> n.id >= lo
  {
    if ps != [] {
      FlattenParams(ps[1..], lo);
      assert Subtree(ps[0]) == [ps[0]];
    }
  }

  /** The reference node is the document's first child, the root element,
      and not the root element's own first child, before which the later
      merger inserts its `<defs>`. */
  lemma ReferenceIsRoot(x: Xml, vs: seq<Merger.Variable>)
    ensures Prepared(x, vs).attempted.reference == Some(Build(x, 0))
    ensures var root := Build(x, 0);
      root.Element? && root.children != [] ==> root.children[0] != root
  {
    var root := Build(x, 0);
    if root.Element? && root.children != [] {
      BuildIds(x, 0);
      assert IdsOf(Subtree(root))[0] == 0;
      assert Subtree(root) == [root] + Flatten(root.children);
      assert Flatten(root.children)[0] == root.children[0];
      assert IdsOf(Subtree(root))[1] == root.children[0].id;
    }
  }
}
