/**
 * Two of the merger's test cases, worked through the model: the markup
 * `<svg></svg>` gains both namespace declarations, and an existing param
 * named by a variable moves to the end of the `<defs>` with its new value.
 */
module MergerExample {
  import opened Wrappers
  import opened Text
  import opened Dom
  import opened Namespaces
  import opened SerializeFileContents

  // ---------------------------------------------------------------------
  // Namespaces on `<svg></svg>`

  const Bare := "<svg></svg>"

  /** The test's `svgOpeningTag`, piece by piece as the test writes it. */
  const SvgOpeningTag := "<svg " + "xmlns=\"" + "http://www.w3.org/2000/svg" + "\" "
    + "xmlns:parametric=\"" + "//parametric-svg.js.org/v1" + "\"" + ">"

  lemma BareHasNoSpace(s: string)
    requires s == Bare
    ensures forall j :: 0 <= j < |s| ==> !IsSpace(s[j])
  {
  }

  /** No `<svg` tag of the bare markup declares anything: the presence
      regex needs a white-space character, and there is none. */
  lemma BareDeclaresNothing(s: string, attribute: string)
    requires s == Bare
    ensures !HasNamespace(s, attribute)
  {
    HasNamespaceMeans(s, attribute);
    BareHasNoSpace(s);
  }

  lemma BareInsertionPoint(s: string)
    requires s == Bare
    ensures InsertionPoint(s) == Some(4)
  {
    assert StartsAtFolded(s, 0, "<svg") by {
      assert s[0..4] == "<svg";
    }
    assert ClosesAt(s, 4);
  }

  /** Both declarations are missing from the bare markup. */
  lemma BareMissing(s: string)
    requires s == Bare
    ensures Missing(s) == Declaration(Xmlns) + Declaration(XmlnsParametric)
  {
    BareDeclaresNothing(s, Xmlns.attribute);
    BareDeclaresNothing(s, XmlnsParametric.attribute);
  }

  /** The regrouping of the pieces. */
  lemma Regroup9(a: string, b: string, c: string, d: string, e: string, f: string, g: string, h: string, i: string)
    ensures a + (b + c + d + e + f) + (b + g + d + h + f) + i == (a + b) + (c + d) + e + (f + b) + (g + d) + h + f + i
  {
  }

  lemma OpeningTagPieces()
    ensures "<svg" + Declaration(Xmlns) + Declaration(XmlnsParametric) + ">" == SvgOpeningTag
  {
    var ns1, ns2 := SvgNamespace, ParametricNamespace;
    assert Declaration(Xmlns) == " " + "xmlns" + "=\"" + ns1 + "\"";
    assert Declaration(XmlnsParametric) == " " + "xmlns:parametric" + "=\"" + ns2 + "\"";
    Regroup9("<svg", " ", "xmlns", "=\"", ns1, "\"", "xmlns:parametric", ns2, ">");
    assert "<svg" + " " == "<svg ";
    assert "xmlns" + "=\"" == "xmlns=\"";
    assert "\"" + " " == "\" ";
    assert "xmlns:parametric" + "=\"" == "xmlns:parametric=\"";
  }

  lemma BareSplit(s: string)
    requires s == Bare
    ensures s[..4] == "<svg" && s[4..] == ">" + "</svg>"
  {
  }

  /** A markup whose first `<svg` tag closes at 4 and declares neither
      namespace gains both declarations there. */
  lemma CompletedFromParts(s: string)
    requires InsertionPoint(s) == Some(4)
    requires Missing(s) == Declaration(Xmlns) + Declaration(XmlnsParametric)
    requires |s| >= 4 && s[..4] == "<svg" && s[4..] == ">" + "</svg>"
    ensures CompleteNamespaces(s) == SvgOpeningTag + "</svg>"
  {
    var c, d := CompleteNamespaces(s), Missing(s);
    assert c == s[..4] + d + s[4..] by {
      CompletionShape(s);
    }
    assert s[..4] + d + ">" == SvgOpeningTag by {
      OpeningTagPieces();
    }
    Assemble(c, s[..4], d, s[4..], ">", "</svg>", SvgOpeningTag);
  }

  lemma Assemble(c: string, a: string, d: string, b: string, b1: string, b2: string, t: string)
    requires c == a + d + b && b == b1 + b2 && a + d + b1 == t
    ensures c == t + b2
  {
  }

  /** `'<svg></svg>'` comes back as `svgOpeningTag + '</svg>'`. */
  lemma BareCompleted(s: string)
    requires s == Bare
    ensures CompleteNamespaces(s) == SvgOpeningTag + "</svg>"
  {
    BareInsertionPoint(s);
    BareMissing(s);
    BareSplit(s);
    CompletedFromParts(s);
  }

  // ---------------------------------------------------------------------
  // Updating an existing param

  const Declared := [Attr("xmlns", SvgNamespace), Attr("xmlns:parametric", ParametricNamespace)]

  function XParam(name: string, value: string): Xml {
    XElement("param", [Attr("name", name), Attr("value", value)], [])
  }

  /** What the parser gives for the completed markup
      `<svg ...><defs><param name="a" value="3"/><param name="b" value="5"/></defs></svg>`. */
  const Existing := XElement("svg", Declared, [XElement("defs", [], [XParam("a", "3"), XParam("b", "5")])])

  const Update := [Variable("a", "2")]

  /** The expected document: `b` stays, `a` comes last with value 2. */
  const Expected := XElement("svg", Declared, [XElement("defs", [], [XParam("b", "5"), XParam("a", "2")])])

  lemma ExistingBuilt()
    ensures Build(Existing, 0) == Element(0, "svg", Declared, [Element(1, "defs", [], [
      Element(2, "param", [Attr("name", "a"), Attr("value", "3")], []),
      Element(3, "param", [Attr("name", "b"), Attr("value", "5")], [])])])
    ensures Count(Existing) == 4
  {
    var xa, xb := XParam("a", "3"), XParam("b", "5");
    var defs := XElement("defs", [], [xa, xb]);
    var na := Element(2, "param", [Attr("name", "a"), Attr("value", "3")], []);
    var nb := Element(3, "param", [Attr("name", "b"), Attr("value", "5")], []);
    assert Count(xa) == 1 && Count(xb) == 1;
    assert Build(xa, 2) == na && Build(xb, 3) == nb;
    assert [xb][1..] == [] && [xa, xb][1..] == [xb] && [defs][1..] == [];
    assert BuildSeq([xb], 3) == [nb];
    assert BuildSeq([xa, xb], 2) == [na] + BuildSeq([xb], 3) == [na, nb];
    assert CountSeq([xa, xb]) == 2;
    assert Count(defs) == 3;
    assert Build(defs, 1) == Element(1, "defs", [], [na, nb]);
    assert BuildSeq([defs], 1) == [Build(defs, 1)];
    assert CountSeq([defs]) == 3;
  }


  lemma ExistingDefsFound()
    ensures FindFirst(Build(Existing, 0), "defs") == Some([0])
  {
    ExistingBuilt();
    var doc := Build(Existing, 0);
    assert FindFirst(doc.children[0], "defs") == Some([]);
    assert [0] + [] == [0];
    assert FindFirstIn(doc.children, "defs") == Some([0] + []);
  }

  const ParamA := Element(2, "param", [Attr("name", "a"), Attr("value", "3")], [])
  const ParamB := Element(3, "param", [Attr("name", "b"), Attr("value", "5")], [])
  const OldDefs := Element(1, "defs", [], [ParamA, ParamB])
  const Moved := Element(1, "defs", [], [ParamB, ParamElement(4, Variable("a", "2"))])

  lemma ExistingDefsAt()
    ensures ValidPath(Build(Existing, 0), [0]) && At(Build(Existing, 0), [0]) == OldDefs
  {
    ExistingBuilt();
    var doc := Build(Existing, 0);
    assert doc.children[0] == OldDefs;
    assert [0][1..] == [];
    assert ValidPath(doc, [0]);
    assert At(doc, [0]) == AtIn(doc.children, [0]);
    assert AtIn(doc.children, [0]) == At(doc.children[0], [0][1..]);
  }

  /** The index maps `a` to the first param and `b` to the second. */
  lemma OldDefsIndexed()
    ensures ExistingIndex(OldDefs) == map["a" := 2, "b" := 3]
  {
    assert Flatten([ParamB]) == [ParamB];
    assert Flatten([ParamA, ParamB]) == [ParamA] + Flatten([ParamB]);
    assert TaggedIn([ParamB], "param") == [ParamB];
    assert TaggedIn([ParamA, ParamB], "param") == [ParamA, ParamB];
    assert Descendants(OldDefs, "param") == [ParamA, ParamB];
    assert [ParamA, ParamB][..1] == [ParamA];
    assert IndexOf([ParamA]) == map["a" := 2];
    assert NameKey(ParamB) == "b";
  }

  /** The `<defs>` after the loop: `b`, then the new `a`. */
  lemma DefsUpdated()
    ensures !Crashes(ExistingIndex(OldDefs), Update)
    ensures Updated(OldDefs, Update, 4) == Moved
  {
    OldDefsIndexed();
    var index := map["a" := 2, "b" := 3];
    assert Update[0].name in index && index[Update[0].name] == 2;
    assert RemovedIds(index, Update) == {2};
    assert PruneSeq([ParamB], {2}) == [ParamB];
    assert PruneSeq([ParamA, ParamB], {2}) == [ParamB];
    assert NewParams(Update, 4) == [ParamElement(4, Update[0])];
  }

  lemma MovedErased()
    ensures Erase(Element(0, "svg", Declared, [Moved])) == Expected
  {
    var added := ParamElement(4, Variable("a", "2"));
    assert EraseSeq([added]) == [XParam("a", "2")];
    assert EraseSeq([ParamB, added]) == [XParam("b", "5"), XParam("a", "2")];
    assert EraseSeq([Moved]) == [Expected.children[0]];
  }

  /** On `<defs><param a=3/><param b=5/></defs>` the variable `a = 2` takes
      out the old `a` and appends the new one after `b`. */
  lemma UpdateMovesParam(x: Xml, vs: seq<Variable>)
    requires x == Existing && vs == Update
    ensures Reconciled(x, vs).Ok?
    ensures Erase(Reconciled(x, vs).value) == Expected
  {
    ExistingBuilt();
    ExistingDefsFound();
    ExistingDefsAt();
    DefsUpdated();
    MovedErased();
    ReconciledInPlace(x, vs);
  }

  /** The reconciliation of a document whose only child is the old
      `<defs>`, once the loop's result on it is known. */
  lemma ReconciledInPlace(x: Xml, vs: seq<Variable>)
    requires Build(x, 0) == Element(0, "svg", Declared, [OldDefs]) && Count(x) == 4
    requires FindFirst(Build(x, 0), "defs") == Some([0])
    requires ValidPath(Build(x, 0), [0]) && At(Build(x, 0), [0]) == OldDefs
    requires !Crashes(ExistingIndex(OldDefs), vs) && Updated(OldDefs, vs, 4) == Moved
    ensures Reconciled(x, vs) == Ok(Element(0, "svg", Declared, [Moved]))
  {
    assert [0][1..] == [];
    assert ReplaceAt(OldDefs, [], Moved) == Moved;
    assert ReplaceIn([OldDefs], [0], Moved) == [OldDefs][0 := ReplaceAt(OldDefs, [0][1..], Moved)];
    assert ReplaceAt(Build(x, 0), [0], Moved) == Element(0, "svg", Declared, [Moved]);
  }

  /** The call as written gives the same document: `a` is an own key. */
  lemma UpdateAsWritten(x: Xml, vs: seq<Variable>)
    requires x == Existing && vs == Update
    ensures ReconciledAsWritten(x, vs) == Reconciled(x, vs)
  {
    assert vs[0].name !in InheritedNames;
    AsWrittenAgrees(x, vs);
  }
}
