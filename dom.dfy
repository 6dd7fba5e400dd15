/**
 * The document tree the merger works on. An `Xml` value is what the XML
 * parser produces and the serializer consumes; a `Node` is the in-memory
 * DOM built from it, where every node carries an `id` standing for its
 * object identity (two structurally equal `<param>` elements are still two
 * objects, and `removeChild` removes one of them).
 */
module Dom {
  import opened Wrappers

  datatype Attr = Attr(name: string, value: string)

  /** A parsed XML tree, without object identity. */
  datatype Xml =
    | XElement(tag: string, attrs: seq<Attr>, children: seq<Xml>)
    | XText(content: string)

  /** A DOM node: an element or a text node, with its identity. */
  datatype Node =
    | Element(id: nat, tag: string, attrs: seq<Attr>, children: seq<Node>)
    | Text(id: nat, content: string)

  /** Element.getAttribute: the value of the first attribute called `name`,
      or null when there is none. */
  function GetAttribute(attrs: seq<Attr>, name: string): (r: Option<string>)
    ensures r.None? <==> forall k :: 0 <= k < |attrs| ==> attrs[k].name != name
    ensures r.Some? ==> exists k :: 0 <= k < |attrs| && attrs[k] == Attr(name, r.value)
                          && forall m :: 0 <= m < k ==> attrs[m].name != name
  {
    if attrs == [] then None
    else if attrs[0].name == name then Some(attrs[0].value)
    else GetAttribute(attrs[1..], name)
  }

  predicate Tagged(n: Node, tag: string) {
    n.Element? && n.tag == tag
  }

  // ---------------------------------------------------------------------
  // Document order

  /** The subtree rooted at `n` in document (pre-)order, `n` first. */
  function Subtree(n: Node): (r: seq<Node>)
    ensures |r| >= 1 && r[0] == n
    decreases n, 1
  {
    match n
    case Text(_, _) => [n]
    case Element(_, _, _, cs) => [n] + Flatten(cs)
  }

  /** The subtrees of `ns` in document order, one after the other. */
  function Flatten(ns: seq<Node>): seq<Node>
    decreases ns, 0
  {
    if ns == [] then [] else Subtree(ns[0]) + Flatten(ns[1..])
  }

  function IdsOf(ns: seq<Node>): (r: seq<nat>)
    ensures |r| == |ns| && forall k :: 0 <= k < |ns| ==> r[k] == ns[k].id
  {
    seq(|ns|, k requires 0 <= k < |ns| => ns[k].id)
  }

  /** The elements of `ns` with tag `tag`, in order. */
  function TaggedIn(ns: seq<Node>, tag: string): (r: seq<Node>)
    ensures forall m :: m in r <==> m in ns && Tagged(m, tag)
    ensures |r| <= |ns|
  {
    if ns == [] then []
    else (if Tagged(ns[0], tag) then [ns[0]] else []) + TaggedIn(ns[1..], tag)
  }

  /** Element.getElementsByTagName on element `n`: its descendants (not `n`
      itself) with tag `tag`, in document order. */
  function Descendants(n: Node, tag: string): seq<Node> {
    if n.Element? then TaggedIn(Flatten(n.children), tag) else []
  }

  lemma IdsOfAppend(a: seq<Node>, b: seq<Node>)
    ensures IdsOf(a + b) == IdsOf(a) + IdsOf(b)
  {
  }

  lemma TaggedInAppend(a: seq<Node>, b: seq<Node>, tag: string)
    ensures TaggedIn(a + b, tag) == TaggedIn(a, tag) + TaggedIn(b, tag)
  {
    if a == [] {
      assert a + b == b;
    } else {
      assert (a + b)[1..] == a[1..] + b;
      TaggedInAppend(a[1..], b, tag);
    }
  }

  // ---------------------------------------------------------------------
  // Paths: the position of a node, as the child indices leading to it

  type Path = seq<nat>

  predicate ValidPath(n: Node, p: Path)
    decreases n, 1
  {
    p == [] || (n.Element? && ValidPathIn(n.children, p))
  }

  predicate ValidPathIn(ns: seq<Node>, p: Path)
    decreases ns, 0
  {
    p != [] && p[0] < |ns| && ValidPath(ns[p[0]], p[1..])
  }

  function At(n: Node, p: Path): Node
    requires ValidPath(n, p)
    decreases n, 1
  {
    if p == [] then n else AtIn(n.children, p)
  }

  function AtIn(ns: seq<Node>, p: Path): Node
    requires ValidPathIn(ns, p)
    decreases ns, 0
  {
    At(ns[p[0]], p[1..])
  }

  /** `n` with the node at `p` replaced by `x`. */
  function ReplaceAt(n: Node, p: Path, x: Node): Node
    requires ValidPath(n, p)
    decreases n, 1
  {
    if p == [] then x else n.(children := ReplaceIn(n.children, p, x))
  }

  function ReplaceIn(ns: seq<Node>, p: Path, x: Node): (r: seq<Node>)
    requires ValidPathIn(ns, p)
    ensures |r| == |ns|
    decreases ns, 0
  {
    ns[p[0] := ReplaceAt(ns[p[0]], p[1..], x)]
  }

  /** The path of the first element tagged `tag` in document order, `n`
      included; the model of `getElementsByTagName(tag)[0]`. */
  function FindFirst(n: Node, tag: string): Option<Path>
    decreases n, 1
  {
    if Tagged(n, tag) then Some([])
    else if n.Text? then None
    else FindFirstIn(n.children, tag)
  }

  function FindFirstIn(ns: seq<Node>, tag: string): Option<Path>
    decreases ns, 0
  {
    if ns == [] then None
    else match FindFirst(ns[0], tag)
      case Some(p) => Some([0] + p)
      case None =>
        match FindFirstIn(ns[1..], tag)
        case Some(p) => if |p| > 0 then Some([p[0] + 1] + p[1..]) else None
        case None => None
  }

  /** Where the first tagged node of a document-order listing sits. */
  ghost predicate FirstTaggedAt(ns: seq<Node>, tag: string, k: nat) {
    k < |ns| && Tagged(ns[k], tag) && forall j :: 0 <= j < k ==> !Tagged(ns[j], tag)
  }

  /** The search finds the first element tagged `tag` in document order,
      and finds nothing exactly when there is none. */
  lemma {:induction false} FindFirstMeans(n: Node, tag: string)
    ensures FindFirst(n, tag).None? <==> forall m :: m in Subtree(n) ==> !Tagged(m, tag)
    ensures FindFirst(n, tag).Some? ==>
      var p := FindFirst(n, tag).value;
      ValidPath(n, p) && Tagged(At(n, p), tag)
      && exists k: nat :: FirstTaggedAt(Subtree(n), tag, k) && Subtree(n)[k] == At(n, p)
    decreases n, 1
  {
    if Tagged(n, tag) {
      assert FirstTaggedAt(Subtree(n), tag, 0);
    } else if n.Element? {
      FindFirstInMeans(n.children, tag);
      assert Subtree(n) == [n] + Flatten(n.children);
      if FindFirstIn(n.children, tag).Some? {
        var p := FindFirstIn(n.children, tag).value;
        var k: nat :| FirstTaggedAt(Flatten(n.children), tag, k) && Flatten(n.children)[k] == AtIn(n.children, p);
        FirstTaggedBehind([n], Flatten(n.children), tag, k);
      }
    }
  }

  lemma {:induction false} FindFirstInMeans(ns: seq<Node>, tag: string)
    ensures FindFirstIn(ns, tag).None? <==> forall m :: m in Flatten(ns) ==> !Tagged(m, tag)
    ensures FindFirstIn(ns, tag).Some? ==>
      var p := FindFirstIn(ns, tag).value;
      ValidPathIn(ns, p) && Tagged(AtIn(ns, p), tag)
      && exists k: nat :: FirstTaggedAt(Flatten(ns), tag, k) && Flatten(ns)[k] == AtIn(ns, p)
    decreases ns, 0
  {
    if ns != [] {
      var head := Subtree(ns[0]);
      assert Flatten(ns) == head + Flatten(ns[1..]);
      FindFirstMeans(ns[0], tag);
      if FindFirst(ns[0], tag).Some? {
        var p := FindFirst(ns[0], tag).value;
        var k: nat :| FirstTaggedAt(head, tag, k) && head[k] == At(ns[0], p);
        assert ([0] + p)[1..] == p;
        FirstTaggedInFront(head, Flatten(ns[1..]), tag, k);
      } else {
        FindFirstInMeans(ns[1..], tag);
        if FindFirstIn(ns[1..], tag).Some? {
          var p := FindFirstIn(ns[1..], tag).value;
          var k: nat :| FirstTaggedAt(Flatten(ns[1..]), tag, k) && Flatten(ns[1..])[k] == AtIn(ns[1..], p);
          var p' := [p[0] + 1] + p[1..];
          assert p'[1..] == p[1..];
          FirstTaggedBehind(head, Flatten(ns[1..]), tag, k);
          assert ns[1..][p[0]] == ns[p'[0]];
        }
      }
    }
  }

  /** A first tagged node of `a` is the first of `a + b`. */
  lemma FirstTaggedInFront(a: seq<Node>, b: seq<Node>, tag: string, k: nat)
    requires FirstTaggedAt(a, tag, k)
    ensures FirstTaggedAt(a + b, tag, k) && (a + b)[k] == a[k]
  {
  }

  /** Behind an untagged `a`, the first tagged node of `b` comes first. */
  lemma FirstTaggedBehind(a: seq<Node>, b: seq<Node>, tag: string, k: nat)
    requires forall m :: m in a ==> !Tagged(m, tag)
    requires FirstTaggedAt(b, tag, k)
    ensures FirstTaggedAt(a + b, tag, |a| + k) && (a + b)[|a| + k] == b[k]
  {
    forall j | 0 <= j < |a| + k ensures !Tagged((a + b)[j], tag) {
      if j < |a| {
        assert (a + b)[j] == a[j];
      } else {
        assert (a + b)[j] == b[j - |a|];
      }
    }
  }

  /** After the replacement, the new node sits at the path. */
  lemma {:induction false} ReplaceAtPlaces(n: Node, p: Path, x: Node)
    requires ValidPath(n, p)
    ensures ValidPath(ReplaceAt(n, p, x), p) && At(ReplaceAt(n, p, x), p) == x
    decreases n, 1
  {
    if p != [] {
      ReplaceInPlaces(n.children, p, x);
    }
  }

  lemma {:induction false} ReplaceInPlaces(ns: seq<Node>, p: Path, x: Node)
    requires ValidPathIn(ns, p)
    ensures ValidPathIn(ReplaceIn(ns, p, x), p) && AtIn(ReplaceIn(ns, p, x), p) == x
    decreases ns, 0
  {
    ReplaceAtPlaces(ns[p[0]], p[1..], x);
  }

  /** Putting back the node that is there changes nothing. */
  lemma {:induction false} ReplaceAtSame(n: Node, p: Path)
    requires ValidPath(n, p)
    ensures ReplaceAt(n, p, At(n, p)) == n
    decreases n, 1
  {
    if p != [] {
      ReplaceInSame(n.children, p);
    }
  }

  lemma {:induction false} ReplaceInSame(ns: seq<Node>, p: Path)
    requires ValidPathIn(ns, p)
    ensures ReplaceIn(ns, p, AtIn(ns, p)) == ns
    decreases ns, 0
  {
    ReplaceAtSame(ns[p[0]], p[1..]);
  }

  /** Neither path is a prefix of the other: they lead to disjoint
      subtrees. */
  predicate Apart(p: Path, q: Path) {
    p != [] && q != [] && (p[0] != q[0] || Apart(p[1..], q[1..]))
  }

  /** Two elements alike but for their children, of which they have as
      many. */
  predicate SameShell(a: Node, b: Node) {
    a.Element? && b.Element? && a.id == b.id && a.tag == b.tag && a.attrs == b.attrs
    && |a.children| == |b.children|
  }

  /** A replacement at `p` leaves every subtree apart from `p` as it was. */
  lemma {:induction false} ReplaceAtFrame(n: Node, p: Path, x: Node, q: Path)
    requires ValidPath(n, p) && ValidPath(n, q) && Apart(p, q)
    ensures ValidPath(ReplaceAt(n, p, x), q) && At(ReplaceAt(n, p, x), q) == At(n, q)
    decreases n
  {
    assert p != [] && n.Element? && ValidPathIn(n.children, p);
    var r := ReplaceAt(n, p, x);
    assert r.children == ReplaceIn(n.children, p, x);
    if p[0] != q[0] {
      assert r.children[q[0]] == n.children[q[0]];
    } else {
      ReplaceAtFrame(n.children[p[0]], p[1..], x, q[1..]);
    }
  }

  /** A replacement at `p` keeps every strict ancestor of `p` the same
      element, with as many children. */
  lemma {:induction false} ReplaceAtAncestor(n: Node, p: Path, x: Node, j: nat)
    requires ValidPath(n, p) && j < |p|
    ensures ValidPath(n, p[..j]) && ValidPath(ReplaceAt(n, p, x), p[..j])
    ensures SameShell(At(n, p[..j]), At(ReplaceAt(n, p, x), p[..j]))
    decreases n
  {
    var r := ReplaceAt(n, p, x);
    if j == 0 {
      assert p[..j] == [];
    } else {
      assert n.Element? && ValidPathIn(n.children, p);
      var c := n.children[p[0]];
      assert r.children == ReplaceIn(n.children, p, x);
      ReplaceAtAncestor(c, p[1..], x, j - 1);
      assert p[..j] == [p[0]] + p[1..][..j - 1];
      assert r.children[p[0]] == ReplaceAt(c, p[1..], x);
      assert p[..j][1..] == p[1..][..j - 1];
    }
  }

  /** A replacement below the root keeps the root element itself. */
  lemma ReplaceAtKeepsRoot(n: Node, p: Path, x: Node)
    requires ValidPath(n, p) && p != []
    ensures ReplaceAt(n, p, x).Element? && ReplaceAt(n, p, x).tag == n.tag
    ensures ReplaceAt(n, p, x).attrs == n.attrs && ReplaceAt(n, p, x).id == n.id
  {
  }

  // ---------------------------------------------------------------------
  // Removal: every node whose id is in `gone` leaves the tree with its subtree

  function Prune(n: Node, gone: set<nat>): (r: Node)
    ensures r.id == n.id && r.Element? == n.Element?
    ensures r.Element? ==> r.tag == n.tag && r.attrs == n.attrs
    decreases n, 1
  {
    match n
    case Text(_, _) => n
    case Element(id, tag, attrs, cs) => Element(id, tag, attrs, PruneSeq(cs, gone))
  }

  function PruneSeq(ns: seq<Node>, gone: set<nat>): seq<Node>
    decreases ns, 0
  {
    if ns == [] then []
    else (if ns[0].id in gone then [] else [Prune(ns[0], gone)]) + PruneSeq(ns[1..], gone)
  }

  lemma PruneSeqAppend(a: seq<Node>, b: seq<Node>, gone: set<nat>)
    ensures PruneSeq(a + b, gone) == PruneSeq(a, gone) + PruneSeq(b, gone)
  {
    if a == [] {
      assert a + b == b;
    } else {
      assert (a + b)[1..] == a[1..] + b;
      PruneSeqAppend(a[1..], b, gone);
    }
  }

  /** Removing `a` and then `b` is removing both. */
  lemma {:induction false} PruneTwice(n: Node, a: set<nat>, b: set<nat>)
    requires n.id !in a
    ensures Prune(Prune(n, a), b) == Prune(n, a + b)
    decreases n, 1
  {
    if n.Element? {
      PruneSeqTwice(n.children, a, b);
    }
  }

  lemma {:induction false} PruneSeqTwice(ns: seq<Node>, a: set<nat>, b: set<nat>)
    ensures PruneSeq(PruneSeq(ns, a), b) == PruneSeq(ns, a + b)
    decreases ns, 0
  {
    if ns != [] {
      var rest := PruneSeq(ns[1..], a);
      PruneSeqTwice(ns[1..], a, b);
      if ns[0].id in a {
        assert PruneSeq(ns, a) == rest;
      } else {
        var head := Prune(ns[0], a);
        assert PruneSeq(ns, a) == [head] + rest;
        PruneSeqAppend([head], rest, b);
        PruneTwice(ns[0], a, b);
        assert PruneSeq([head], b) == (if ns[0].id in b then [] else [Prune(ns[0], a + b)]);
      }
    }
  }

  /** Removing nothing changes nothing. */
  lemma {:induction false} PruneNothing(n: Node)
    ensures Prune(n, {}) == n
    decreases n, 1
  {
    if n.Element? {
      PruneSeqNothing(n.children);
    }
  }

  lemma {:induction false} PruneSeqNothing(ns: seq<Node>)
    ensures PruneSeq(ns, {}) == ns
    decreases ns, 0
  {
    if ns != [] {
      PruneNothing(ns[0]);
      PruneSeqNothing(ns[1..]);
    }
  }

  /** Removed nodes are gone from the whole remaining tree. */
  lemma {:induction false} PruneRemoves(n: Node, gone: set<nat>)
    ensures forall k :: 1 <= k < |Subtree(Prune(n, gone))| ==> Subtree(Prune(n, gone))[k].id !in gone
    decreases n, 1
  {
    if n.Element? {
      PruneSeqRemoves(n.children, gone);
    }
  }

  lemma {:induction false} PruneSeqRemoves(ns: seq<Node>, gone: set<nat>)
    ensures forall m :: m in Flatten(PruneSeq(ns, gone)) ==> m.id !in gone
    decreases ns, 0
  {
    if ns != [] {
      var head := if ns[0].id in gone then [] else [Prune(ns[0], gone)];
      var rest := PruneSeq(ns[1..], gone);
      PruneSeqRemoves(ns[1..], gone);
      FlattenAppend(head, rest);
      if ns[0].id !in gone {
        PruneRemoves(ns[0], gone);
        FlattenSingle(Prune(ns[0], gone));
        forall m | m in Subtree(Prune(ns[0], gone)) ensures m.id !in gone {
          var k :| 0 <= k < |Subtree(Prune(ns[0], gone))| && Subtree(Prune(ns[0], gone))[k] == m;
        }
      }
    }
  }

  /** The children that stay keep their relative order: the top-level ids
      after removal are those before it, minus the removed ones. */
  lemma {:induction false} PruneSeqTopIds(ns: seq<Node>, gone: set<nat>)
    ensures IdsOf(PruneSeq(ns, gone)) == Without(IdsOf(ns), gone)
  {
    if ns != [] {
      PruneSeqTopIds(ns[1..], gone);
      assert IdsOf(ns) == [ns[0].id] + IdsOf(ns[1..]);
      IdsOfAppend(if ns[0].id in gone then [] else [Prune(ns[0], gone)], PruneSeq(ns[1..], gone));
    }
  }

  /** `xs` without the members of `gone`, order kept. */
  function Without(xs: seq<nat>, gone: set<nat>): (r: seq<nat>)
    ensures forall x :: x in r <==> x in xs && x !in gone
  {
    if xs == [] then []
    else (if xs[0] in gone then [] else [xs[0]]) + Without(xs[1..], gone)
  }

  /** Nodes none of whose ids are removed are kept as they are. */
  lemma PruneSeqLeaves(ns: seq<Node>, gone: set<nat>)
    requires forall k :: 0 <= k < |ns| ==> ns[k].Element? && ns[k].children == [] && ns[k].id !in gone
    ensures PruneSeq(ns, gone) == ns
  {
    if ns != [] {
      PruneSeqLeaves(ns[1..], gone);
    }
  }

  lemma FlattenAppend(a: seq<Node>, b: seq<Node>)
    ensures Flatten(a + b) == Flatten(a) + Flatten(b)
  {
    if a == [] {
      assert a + b == b;
    } else {
      assert (a + b)[1..] == a[1..] + b;
      FlattenAppend(a[1..], b);
    }
  }

  lemma FlattenSingle(n: Node)
    ensures Flatten([n]) == Subtree(n)
  {
    assert [n][1..] == [];
  }

  // ---------------------------------------------------------------------
  // Building the DOM: every node gets its own identity, in document order

  /** The DOM of `x`, its nodes numbered from `start` in document order. */
  function Build(x: Xml, start: nat): Node
    decreases x, 1
  {
    match x
    case XText(t) => Text(start, t)
    case XElement(tag, attrs, cs) => Element(start, tag, attrs, BuildSeq(cs, start + 1))
  }

  function BuildSeq(xs: seq<Xml>, start: nat): seq<Node>
    decreases xs, 0
  {
    if xs == [] then [] else [Build(xs[0], start)] + BuildSeq(xs[1..], start + Count(xs[0]))
  }

  /** The number of nodes of `x`. */
  function Count(x: Xml): nat
    decreases x, 1
  {
    match x
    case XText(_) => 1
    case XElement(_, _, cs) => 1 + CountSeq(cs)
  }

  function CountSeq(xs: seq<Xml>): nat
    decreases xs, 0
  {
    if xs == [] then 0 else Count(xs[0]) + CountSeq(xs[1..])
  }

  /** What serialization sees: the tree without identities. */
  function Erase(n: Node): Xml
    decreases n, 1
  {
    match n
    case Text(_, t) => XText(t)
    case Element(_, tag, attrs, cs) => XElement(tag, attrs, EraseSeq(cs))
  }

  function EraseSeq(ns: seq<Node>): (r: seq<Xml>)
    ensures |r| == |ns|
    decreases ns, 0
  {
    if ns == [] then [] else [Erase(ns[0])] + EraseSeq(ns[1..])
  }

  /** `[start, start + len)` in order. */
  function Range(start: nat, len: nat): (r: seq<nat>)
    ensures |r| == len && forall k :: 0 <= k < len ==> r[k] == start + k
  {
    seq(len, k requires 0 <= k < len => start + k)
  }

  /** Building and erasing gives back the parsed tree. */
  lemma {:induction false} EraseBuild(x: Xml, start: nat)
    ensures Erase(Build(x, start)) == x
    decreases x, 1
  {
    if x.XElement? {
      EraseBuildSeq(x.children, start + 1);
    }
  }

  lemma {:induction false} EraseBuildSeq(xs: seq<Xml>, start: nat)
    ensures EraseSeq(BuildSeq(xs, start)) == xs
    decreases xs, 0
  {
    if xs != [] {
      EraseBuild(xs[0], start);
      EraseBuildSeq(xs[1..], start + Count(xs[0]));
    }
  }

  /** The built nodes are numbered `start`, `start + 1`, ... in document
      order, so no two nodes share an identity. */
  lemma {:induction false} BuildIds(x: Xml, start: nat)
    ensures IdsOf(Subtree(Build(x, start))) == Range(start, Count(x))
    decreases x, 1
  {
    if x.XElement? {
      var cs := BuildSeq(x.children, start + 1);
      BuildSeqIds(x.children, start + 1);
      IdsOfAppend([Build(x, start)], Flatten(cs));
    }
  }

  lemma {:induction false} BuildSeqIds(xs: seq<Xml>, start: nat)
    ensures IdsOf(Flatten(BuildSeq(xs, start))) == Range(start, CountSeq(xs))
    decreases xs, 0
  {
    if xs != [] {
      var head := Build(xs[0], start);
      var rest := BuildSeq(xs[1..], start + Count(xs[0]));
      BuildIds(xs[0], start);
      BuildSeqIds(xs[1..], start + Count(xs[0]));
      assert BuildSeq(xs, start) == [head] + rest;
      FlattenAppend([head], rest);
      FlattenSingle(head);
      IdsOfAppend(Subtree(head), Flatten(rest));
      RangeAppend(start, Count(xs[0]), CountSeq(xs[1..]));
    }
  }

  lemma RangeAppend(start: nat, a: nat, b: nat)
    ensures Range(start, a) + Range(start + a, b) == Range(start, a + b)
  {
  }

  /** All identities in `n` are distinct. */
  ghost predicate UniqueIds(ns: seq<Node>) {
    forall j, k :: 0 <= j < k < |ns| ==> ns[j].id != ns[k].id
  }

  /** A built document has distinct identities, all below the next free one. */
  lemma BuiltDocument(x: Xml)
    ensures UniqueIds(Subtree(Build(x, 0)))
    ensures forall m :: m in Subtree(Build(x, 0)) ==> m.id < Count(x)
  {
    BuildIds(x, 0);
    var nodes := Subtree(Build(x, 0));
    assert forall k :: 0 <= k < |nodes| ==> nodes[k].id == k by {
      forall k | 0 <= k < |nodes| ensures nodes[k].id == k {
        assert IdsOf(nodes)[k] == nodes[k].id;
      }
    }
  }

  /** Identities strictly increase along a listing. */
  ghost predicate Increasing(ns: seq<Node>) {
    forall j, k :: 0 <= j < k < |ns| ==> ns[j].id < ns[k].id
  }

  lemma BuiltIncreasing(x: Xml, start: nat)
    ensures Increasing(Subtree(Build(x, start)))
    ensures forall m :: m in Subtree(Build(x, start)) ==> start <= m.id < start + Count(x)
  {
    BuildIds(x, start);
    var nodes := Subtree(Build(x, start));
    assert forall k :: 0 <= k < |nodes| ==> nodes[k].id == start + k by {
      forall k | 0 <= k < |nodes| ensures nodes[k].id == start + k {
        assert IdsOf(nodes)[k] == nodes[k].id;
      }
    }
  }

  lemma TaggedInIncreasing(ns: seq<Node>, tag: string)
    requires Increasing(ns)
    ensures Increasing(TaggedIn(ns, tag))
  {
    if ns != [] {
      TaggedInIncreasing(ns[1..], tag);
      HeadBelow(ns);
      if Tagged(ns[0], tag) {
        ConsIncreasing(ns[0], TaggedIn(ns[1..], tag));
      } else {
        assert TaggedIn(ns, tag) == TaggedIn(ns[1..], tag);
      }
    }
  }

  lemma HeadBelow(ns: seq<Node>)
    requires ns != [] && Increasing(ns)
    ensures forall m :: m in ns[1..] ==> ns[0].id < m.id
  {
    forall m | m in ns[1..] ensures ns[0].id < m.id {
      var k :| 0 <= k < |ns[1..]| && ns[1..][k] == m;
      assert ns[k + 1] == m;
    }
  }

  lemma ConsIncreasing(n: Node, rest: seq<Node>)
    requires Increasing(rest) && forall m :: m in rest ==> n.id < m.id
    ensures Increasing([n] + rest)
  {
    forall j, k | 0 <= j < k < |rest| + 1 ensures ([n] + rest)[j].id < ([n] + rest)[k].id {
      assert ([n] + rest)[k] == rest[k - 1];
      if j > 0 {
        assert ([n] + rest)[j] == rest[j - 1];
      }
    }
  }

  /** `small` occurs in `big` starting at `i`. */
  ghost predicate OccursAt(big: seq<Node>, small: seq<Node>, i: nat) {
    i + |small| <= |big| && big[i..i + |small|] == small
  }

  /** The subtree at a path is a contiguous stretch of the whole subtree. */
  lemma {:induction false} SubtreeWithin(n: Node, p: Path)
    requires ValidPath(n, p)
    ensures exists i: nat :: OccursAt(Subtree(n), Subtree(At(n, p)), i)
    decreases n, 1
  {
    if p == [] {
      assert At(n, p) == n;
      assert Subtree(n)[0..|Subtree(n)|] == Subtree(n);
      assert OccursAt(Subtree(n), Subtree(n), 0);
    } else {
      SubtreeWithinIn(n.children, p);
      var i: nat :| OccursAt(Flatten(n.children), Subtree(At(n, p)), i);
      OccursAfter([n], Flatten(n.children), Subtree(At(n, p)), i);
      assert Subtree(n) == [n] + Flatten(n.children);
    }
  }

  lemma {:induction false} SubtreeWithinIn(ns: seq<Node>, p: Path)
    requires ValidPathIn(ns, p)
    ensures exists i: nat :: OccursAt(Flatten(ns), Subtree(AtIn(ns, p)), i)
    decreases ns, 0
  {
    var k := p[0];
    var target := Subtree(AtIn(ns, p));
    var m := |target|;
    SubtreeWithin(ns[k], p[1..]);
    var i: nat :| OccursAt(Subtree(ns[k]), target, i);
    FlattenAround(ns, k);
    OccursInMiddle(Flatten(ns[..k]), Subtree(ns[k]), Flatten(ns[k + 1..]), target, i);
  }

  lemma FlattenAround(ns: seq<Node>, k: nat)
    requires k < |ns|
    ensures Flatten(ns) == Flatten(ns[..k]) + (Subtree(ns[k]) + Flatten(ns[k + 1..]))
  {
    var rest := ns[k..];
    assert ns == ns[..k] + rest;
    FlattenAppend(ns[..k], rest);
    assert rest[0] == ns[k] && rest[1..] == ns[k + 1..];
    assert Flatten(rest) == Subtree(ns[k]) + Flatten(ns[k + 1..]);
  }

  lemma OccursAfter(a: seq<Node>, b: seq<Node>, small: seq<Node>, i: nat)
    requires OccursAt(b, small, i)
    ensures OccursAt(a + b, small, |a| + i)
  {
    assert (a + b)[|a| + i..|a| + i + |small|] == b[i..i + |small|];
  }

  lemma OccursInMiddle(a: seq<Node>, b: seq<Node>, c: seq<Node>, small: seq<Node>, i: nat)
    requires OccursAt(b, small, i)
    ensures OccursAt(a + (b + c), small, |a| + i)
  {
    assert (a + (b + c))[|a| + i..|a| + i + |small|] == b[i..i + |small|];
  }

  /** What holds of every node and every ordered pair of a listing holds of
      the subtree at a path. */
  lemma SubtreeAtFacts(n: Node, p: Path)
    requires ValidPath(n, p)
    ensures forall m :: m in Subtree(At(n, p)) ==> m in Subtree(n)
    ensures Increasing(Subtree(n)) ==> Increasing(Subtree(At(n, p)))
  {
    SubtreeWithin(n, p);
    var len := |Subtree(At(n, p))|;
    var i: nat :| OccursAt(Subtree(n), Subtree(At(n, p)), i);
    forall m | m in Subtree(At(n, p)) ensures m in Subtree(n) {
      var k :| 0 <= k < len && Subtree(At(n, p))[k] == m;
      assert Subtree(n)[i + k] == m;
    }
  }

  /** The `<param>`-style descendants of the element at a path of a built
      document: identities increase and stay below the document's count. */
  lemma DescendantsOfBuilt(x: Xml, p: Path, tag: string)
    requires ValidPath(Build(x, 0), p)
    ensures Increasing(Descendants(At(Build(x, 0), p), tag))
    ensures forall m :: m in Descendants(At(Build(x, 0), p), tag) ==> m.id < Count(x)
  {
    var doc := Build(x, 0);
    var e := At(doc, p);
    BuiltIncreasing(x, 0);
    SubtreeAtFacts(doc, p);
    if e.Element? {
      BelowIncreasing(e);
      TaggedInIncreasing(Flatten(e.children), tag);
    }
  }

  /** The descendants of an element, listed below it in its subtree. */
  lemma BelowIncreasing(e: Node)
    requires e.Element? && Increasing(Subtree(e))
    ensures Increasing(Flatten(e.children))
    ensures forall m :: m in Flatten(e.children) ==> m in Subtree(e)
  {
    assert Subtree(e)[1..] == Flatten(e.children);
    TailIncreasing(Subtree(e));
  }

  lemma TailIncreasing(ns: seq<Node>)
    requires ns != [] && Increasing(ns)
    ensures Increasing(ns[1..])
    ensures forall m :: m in ns[1..] ==> m in ns
  {
    forall j, k | 0 <= j < k < |ns| - 1 ensures ns[1..][j].id < ns[1..][k].id {
      assert ns[1..][j] == ns[j + 1] && ns[1..][k] == ns[k + 1];
    }
  }

  // ---------------------------------------------------------------------
  // The `<defs>` element object, whose children the merger edits in place

  class DefsElement {
    const id: nat
    const attrs: seq<Attr>
    var children: seq<Node>
    /** Former descendants taken out with `removeChild`: their `parentNode`
        is null now. */
    var detached: set<nat>

    constructor (id: nat, attrs: seq<Attr>, children: seq<Node>)
      ensures this.id == id && this.attrs == attrs && this.children == children
      ensures detached == {}
    {
      this.id := id;
      this.attrs := attrs;
      this.children := children;
      detached := {};
    }

    /** The element as a tree value. */
    function ToNode(): (r: Node)
      reads this
      ensures r.Element? && r.tag == "defs" && r.id == id && r.attrs == attrs && r.children == children
    {
      Element(id, "defs", attrs, children)
    }

    /** `node.parentNode.removeChild(node)` for the descendant `target`:
        it throws when `target` was taken out before, since its parent is
        null; otherwise `target` leaves the tree. */
    method RemoveDescendant(target: nat) returns (thrown: bool)
      modifies this
      ensures thrown <==> target in old(detached)
      ensures thrown ==> children == old(children) && detached == old(detached)
      ensures !thrown ==> children == PruneSeq(old(children), {target}) && detached == old(detached) + {target}
    {
      if target in detached {
        thrown := true;
      } else {
        children := PruneSeq(children, {target});
        detached := detached + {target};
        thrown := false;
      }
    }

    /** `appendChild(node)`. */
    method AppendChild(node: Node)
      modifies this
      ensures children == old(children) + [node] && detached == old(detached)
    {
      children := children + [node];
    }
  }
}
