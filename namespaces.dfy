/**
 * Namespace completion, the string-level first stage of the merger
 * (serializeFileContents). For each required namespace declaration, in
 * order, the ORIGINAL markup is tested with
 *     RegExp(`<svg[^>]*\s${attribute}="`, 'i')
 * and, when the test fails, the RUNNING markup has its first match of
 *     /(<svg[^>]*?)(\/?>)/i
 * replaced by `$1 ${attribute}="${value}"$2`, i.e. the declaration is
 * inserted just before the `>` or `/>` that closes the first `<svg` tag.
 */
module Namespaces {
  import opened Wrappers
  import opened Text

  const SvgNamespace: string := "http://www.w3.org/2000/svg"
  const ParametricNamespace: string := "//parametric-svg.js.org/v1"

  datatype Namespace = Namespace(attribute: string, value: string)

  const Xmlns: Namespace := Namespace("xmlns", SvgNamespace)
  const XmlnsParametric: Namespace := Namespace("xmlns:parametric", ParametricNamespace)

  /** The declarations the merger completes, in the order it adds them. */
  const Required: seq<Namespace> := [Xmlns, XmlnsParametric]

  // ---------------------------------------------------------------------
  // The presence test  <svg[^>]*\s${attribute}="  (case-insensitive)
  // ---------------------------------------------------------------------

  /** From `lo` on, `[^>]*` runs up to `j`, where `\s${attribute}="` matches. */
  ghost predicate AttributeAt(s: string, lo: nat, j: nat, attribute: string) {
    && lo <= j < |s|
    && Avoids(s, lo, j, '>')
    && IsSpace(s[j])
    && StartsAtFolded(s, j + 1, attribute + "=\"")
  }

  /** The presence regex matches with its `<svg` at `i` and its `\s` at `j`. */
  ghost predicate DeclaresAt(s: string, i: nat, j: nat, attribute: string) {
    StartsAtFolded(s, i, "<svg") && AttributeAt(s, i + 4, j, attribute)
  }

  /** Backtracking search of `[^>]*\s${attribute}="` from `j`. */
  function ScanTag(s: string, j: nat, attribute: string): bool
    decreases |s| - j
  {
    if j >= |s| || s[j] == '>' then false
    else (IsSpace(s[j]) && StartsAtFolded(s, j + 1, attribute + "=\"")) || ScanTag(s, j + 1, attribute)
  }

  /** Tries every start position from `i` on, as `RegExp.prototype.test` does. */
  function ScanFrom(s: string, i: nat, attribute: string): bool
    decreases |s| - i
  {
    if i >= |s| then false
    else (StartsAtFolded(s, i, "<svg") && ScanTag(s, i + 4, attribute)) || ScanFrom(s, i + 1, attribute)
  }

  /** `hasNamespace`: the presence regex matches somewhere in `markup`. */
  function HasNamespace(markup: string, attribute: string): bool {
    ScanFrom(markup, 0, attribute)
  }

  lemma {:induction false} ScanTagMeans(s: string, lo: nat, attribute: string)
    ensures ScanTag(s, lo, attribute) <==> exists j: nat :: AttributeAt(s, lo, j, attribute)
    decreases |s| - lo
  {
    if lo >= |s| {
    } else if s[lo] == '>' {
      forall j: nat | lo <= j < |s| ensures !AttributeAt(s, lo, j, attribute) {
        if j > lo { assert s[lo] == '>'; }
      }
    } else {
      ScanTagMeans(s, lo + 1, attribute);
      if ScanTag(s, lo, attribute) {
        if IsSpace(s[lo]) && StartsAtFolded(s, lo + 1, attribute + "=\"") {
          assert AttributeAt(s, lo, lo, attribute);
        } else {
          var j: nat :| AttributeAt(s, lo + 1, j, attribute);
          assert AttributeAt(s, lo, j, attribute);
        }
      }
      forall j: nat | AttributeAt(s, lo, j, attribute) ensures ScanTag(s, lo, attribute) {
        if j > lo { assert AttributeAt(s, lo + 1, j, attribute); }
      }
    }
  }

  lemma {:induction false} ScanFromMeans(s: string, lo: nat, attribute: string)
    ensures ScanFrom(s, lo, attribute) <==> exists i: nat, j: nat :: lo <= i && DeclaresAt(s, i, j, attribute)
    decreases |s| - lo
  {
    if lo < |s| {
      ScanFromMeans(s, lo + 1, attribute);
      ScanTagMeans(s, lo + 4, attribute);
      if ScanFrom(s, lo, attribute) {
        if StartsAtFolded(s, lo, "<svg") && ScanTag(s, lo + 4, attribute) {
          var j: nat :| AttributeAt(s, lo + 4, j, attribute);
          assert DeclaresAt(s, lo, j, attribute);
        }
      }
      forall i: nat, j: nat | lo <= i && DeclaresAt(s, i, j, attribute) ensures ScanFrom(s, lo, attribute) {
        if i == lo {
          assert ScanTag(s, lo + 4, attribute);
        } else {
          assert lo + 1 <= i;
        }
      }
    } else {
      forall i: nat, j: nat | lo <= i ensures !DeclaresAt(s, i, j, attribute) {
      }
    }
  }

  /** The presence test holds exactly when some `<svg` tag (any of them)
      declares the attribute before its first `>`. */
  lemma HasNamespaceMeans(markup: string, attribute: string)
    ensures HasNamespace(markup, attribute) <==> exists i: nat, j: nat :: DeclaresAt(markup, i, j, attribute)
  {
    ScanFromMeans(markup, 0, attribute);
  }

  // ---------------------------------------------------------------------
  // The insertion regex  /(<svg[^>]*?)(\/?>)/i, first match only
  // ---------------------------------------------------------------------

  /** `\/?>` matches at `p`. */
  predicate ClosesAt(s: string, p: nat) {
    p < |s| && (s[p] == '>' || StartsAt(s, p, "/>"))
  }

  /** The lazy `[^>]*?` stops at the first `p >= j` where `\/?>` matches. */
  function CloseFrom(s: string, j: nat): Option<nat>
    decreases |s| - j
  {
    if j >= |s| then None
    else if ClosesAt(s, j) then Some(j)
    else CloseFrom(s, j + 1)
  }

  /** Leftmost match: the first `i` whose `<svg` is followed by a closing. */
  function MatchFrom(s: string, i: nat): Option<nat>
    decreases |s| - i
  {
    if i >= |s| then None
    else if StartsAtFolded(s, i, "<svg") && CloseFrom(s, i + 4).Some? then CloseFrom(s, i + 4)
    else MatchFrom(s, i + 1)
  }

  /** Where `$1` ends and `$2` begins in the first match, if there is one. */
  function InsertionPoint(s: string): Option<nat> {
    MatchFrom(s, 0)
  }

  /** `i` is the first `<svg` (ignoring case) of `s`. */
  ghost predicate FirstSvgAt(s: string, i: nat) {
    StartsAtFolded(s, i, "<svg") && forall k: nat :: k < i ==> !StartsAtFolded(s, k, "<svg")
  }

  /** `p` is the first position from `j` on where `\/?>` matches. */
  ghost predicate FirstCloseAt(s: string, j: nat, p: nat) {
    j <= p && ClosesAt(s, p) && forall k: nat :: j <= k < p ==> !ClosesAt(s, k)
  }

  /** `p` is just before the `>` or `/>` that closes the first `<svg` tag. */
  ghost predicate IsInsertionPoint(s: string, p: nat) {
    exists i: nat :: FirstSvgAt(s, i) && FirstCloseAt(s, i + 4, p)
  }

  lemma {:induction false} CloseFromMeans(s: string, j: nat)
    ensures CloseFrom(s, j).Some? ==> FirstCloseAt(s, j, CloseFrom(s, j).value)
    ensures CloseFrom(s, j).None? <==> forall q: nat :: j <= q ==> !ClosesAt(s, q)
    decreases |s| - j
  {
    if j < |s| && !ClosesAt(s, j) {
      CloseFromMeans(s, j + 1);
      forall q: nat | j <= q && ClosesAt(s, q) ensures CloseFrom(s, j).Some? {
        assert j + 1 <= q;
      }
    }
  }

  /** No `<svg` at `k` is followed by a closing. */
  ghost predicate Unmatched(s: string, k: nat) {
    !(StartsAtFolded(s, k, "<svg") && CloseFrom(s, k + 4).Some?)
  }

  lemma {:induction false} MatchFromMeans(s: string, lo: nat)
    requires forall k: nat :: k < lo ==> Unmatched(s, k)
    ensures MatchFrom(s, lo).Some? ==> IsInsertionPoint(s, MatchFrom(s, lo).value)
    ensures MatchFrom(s, lo).None? ==> forall k: nat :: Unmatched(s, k)
    decreases |s| - lo
  {
    if lo >= |s| {
      forall k: nat | lo <= k ensures Unmatched(s, k) {}
    } else if StartsAtFolded(s, lo, "<svg") && CloseFrom(s, lo + 4).Some? {
      var p := CloseFrom(s, lo + 4).value;
      CloseFromMeans(s, lo + 4);
      forall k: nat | k < lo ensures !StartsAtFolded(s, k, "<svg") {
        CloseFromMeans(s, k + 4);
        assert ClosesAt(s, p);
        assert Unmatched(s, k);
      }
      assert FirstSvgAt(s, lo);
    } else {
      MatchFromMeans(s, lo + 1);
    }
  }

  /** `InsertionPoint` finds exactly the point just before the `>` or `/>`
      closing the first `<svg` tag, and finds nothing exactly when no `>`
      follows any `<svg`. */
  lemma InsertionPointMeans(s: string)
    ensures InsertionPoint(s).Some? ==> IsInsertionPoint(s, InsertionPoint(s).value)
    ensures forall p: nat :: IsInsertionPoint(s, p) ==> InsertionPoint(s) == Some(p)
    ensures InsertionPoint(s).None? <==>
      forall i: nat, q: nat :: StartsAtFolded(s, i, "<svg") && i + 4 <= q < |s| ==> s[q] != '>'
  {
    MatchFromMeans(s, 0);
    forall p: nat | IsInsertionPoint(s, p) ensures InsertionPoint(s) == Some(p) {
      var i: nat :| FirstSvgAt(s, i) && FirstCloseAt(s, i + 4, p);
      CloseFromMeans(s, i + 4);
      assert !Unmatched(s, i);
      var p' := InsertionPoint(s).value;
      var i': nat :| FirstSvgAt(s, i') && FirstCloseAt(s, i' + 4, p');
      assert i == i';
      assert p == p';
    }
    if InsertionPoint(s).None? {
      forall i: nat, q: nat | StartsAtFolded(s, i, "<svg") && i + 4 <= q < |s| ensures s[q] != '>' {
        CloseFromMeans(s, i + 4);
        assert Unmatched(s, i);
        assert !ClosesAt(s, q);
      }
    } else {
      var p := InsertionPoint(s).value;
      var i: nat :| FirstSvgAt(s, i) && FirstCloseAt(s, i + 4, p);
      var q: nat := if s[p] == '>' then p else p + 1;
      assert StartsAtFolded(s, i, "<svg") && i + 4 <= q < |s| && s[q] == '>';
    }
  }

  // ---------------------------------------------------------------------
  // Completion
  // ---------------------------------------------------------------------

  /** The replacement text ` ${attribute}="${value}"` placed between `$1` and `$2`. */
  function Declaration(ns: Namespace): string {
    " " + ns.attribute + "=\"" + ns.value + "\""
  }

  /** `currentMarkup.replace(/(<svg[^>]*?)(\/?>)/i, ...)`. */
  function InsertDeclaration(s: string, ns: Namespace): string {
    match InsertionPoint(s)
    case None => s
    case Some(p) => if p <= |s| then s[..p] + Declaration(ns) + s[p..] else s
  }

  /** One step of the reduce: the presence test reads the ORIGINAL markup. */
  function AddNamespace(markup: string, current: string, ns: Namespace): string {
    if HasNamespace(markup, ns.attribute) then current else InsertDeclaration(current, ns)
  }

  /** The reduce over the namespace list, starting from `markup`. */
  function AddNamespaces(markup: string, current: string, nss: seq<Namespace>): string
    decreases |nss|
  {
    if nss == [] then current else AddNamespaces(markup, AddNamespace(markup, current, nss[0]), nss[1..])
  }

  /** `markupWithNamespaces`. */
  function CompleteNamespaces(markup: string): string {
    AddNamespaces(markup, markup, Required)
  }

  /** The declarations added to `markup`, in order. */
  function Missing(markup: string): string {
    (if HasNamespace(markup, Xmlns.attribute) then "" else Declaration(Xmlns))
    + (if HasNamespace(markup, XmlnsParametric.attribute) then "" else Declaration(XmlnsParametric))
  }

  lemma CompleteUnfolds(markup: string)
    ensures CompleteNamespaces(markup)
         == AddNamespace(markup, AddNamespace(markup, markup, Xmlns), XmlnsParametric)
  {
    var s1 := AddNamespace(markup, markup, Required[0]);
    assert AddNamespaces(markup, markup, Required) == AddNamespaces(markup, s1, Required[1..]);
    var s2 := AddNamespace(markup, s1, Required[1]);
    assert AddNamespaces(markup, s1, Required[1..]) == AddNamespaces(markup, s2, Required[2..]);
    assert Required[2..] == [];
  }

  /** Text containing no `>` and not ending in `/` cannot change where the
      first `<svg` tag closes when inserted at its insertion point. */
  predicate Inert(t: string) {
    '>' !in t && (|t| > 0 ==> t[|t| - 1] != '/')
  }

  lemma DeclarationInert(ns: Namespace)
    requires ns == Xmlns || ns == XmlnsParametric
    ensures Inert(Declaration(ns))
  {
    var d := Declaration(ns);
    if ns == Xmlns {
      NoCloseIn(Xmlns.attribute);
      NoCloseIn(SvgNamespace);
    } else {
      NoCloseIn(XmlnsParametric.attribute);
      NoCloseIn(ParametricNamespace);
    }
    assert d[|d| - 1] == '"';
  }

  lemma NoCloseIn(t: string)
    requires forall k :: 0 <= k < |t| ==> t[k] != '>'
    ensures '>' !in t
  {
  }

  /** A found insertion point lies inside the text, on a `>` or a `/`. */
  lemma InsertionPointInside(s: string)
    requires InsertionPoint(s).Some?
    ensures InsertionPoint(s).value < |s|
    ensures s[InsertionPoint(s).value] == '>' || s[InsertionPoint(s).value] == '/'
  {
    InsertionPointMeans(s);
  }

  /** The first `<svg` stays where it was when only text after it changes. */
  lemma FirstSvgKept(s: string, u: string, i: nat, p: nat)
    requires FirstSvgAt(s, i)
    requires i + 4 <= p <= |s| && p <= |u|
    requires forall k :: 0 <= k < p ==> u[k] == s[k]
    ensures FirstSvgAt(u, i)
  {
    forall k: nat | k <= i ensures StartsAtFolded(u, k, "<svg") == StartsAtFolded(s, k, "<svg") {
      Window(u, k, s, k, 4);
    }
  }

  /** The first closing after the tag moves by the length of inert text
      inserted right at it. */
  lemma FirstCloseShifts(s: string, u: string, lo: nat, p: nat, t: string)
    requires FirstCloseAt(s, lo, p)
    requires Inert(t)
    requires |u| == |s| + |t|
    requires forall k :: 0 <= k < p ==> u[k] == s[k]
    requires forall k :: 0 <= k < |t| ==> u[p + k] == t[k]
    requires forall k :: p <= k < |s| ==> u[k + |t|] == s[k]
    ensures FirstCloseAt(u, lo, p + |t|)
  {
    assert forall k :: 0 <= k < |t| ==> t[k] != '>' by {
      forall k | 0 <= k < |t| ensures t[k] != '>' { assert t[k] in t; }
    }
    assert ClosesAt(u, p + |t|) by {
      if s[p] != '>' {
        assert StartsAt(s, p, "/>");
        assert u[p + |t|] == s[p] && u[p + |t| + 1] == s[p + 1];
        assert u[p + |t|..p + |t| + 2] == "/>";
      }
    }
    forall k: nat | lo <= k < p + |t| ensures !ClosesAt(u, k) {
      if k < p {
        KeptNotClosing(s, u, p, t, k);
      } else {
        InsertedNotClosing(u, p, t, k);
      }
    }
  }

  /** Before the insertion point nothing new closes: a `/` just before it
      is followed by the inserted text, or by what followed it before. */
  lemma KeptNotClosing(s: string, u: string, p: nat, t: string, k: nat)
    requires Inert(t) && p < |s| && |u| == |s| + |t| && k < p
    requires !ClosesAt(s, k)
    requires forall k :: 0 <= k < p ==> u[k] == s[k]
    requires forall k :: 0 <= k < |t| ==> u[p + k] == t[k]
    requires forall k :: p <= k < |s| ==> u[k + |t|] == s[k]
    ensures !ClosesAt(u, k)
  {
    assert u[k] == s[k];
    if k + 1 < p || |t| == 0 {
      assert u[k + 1] == s[k + 1];
      assert u[k..k + 2] == [u[k], u[k + 1]];
      assert s[k..k + 2] == [s[k], s[k + 1]];
    } else {
      assert u[k + 1] == t[0];
      assert t[0] in t;
    }
  }

  /** Inside inert inserted text nothing closes. */
  lemma InsertedNotClosing(u: string, p: nat, t: string, k: nat)
    requires Inert(t) && p <= k < p + |t| && p + |t| <= |u|
    requires forall k :: 0 <= k < |t| ==> u[p + k] == t[k]
    ensures !ClosesAt(u, k)
  {
    assert u[p + (k - p)] == t[k - p];
    assert t[k - p] in t;
    if k + 1 < p + |t| {
      assert u[p + (k + 1 - p)] == t[k + 1 - p];
      assert u[k..k + 2] == [u[k], u[k + 1]];
    }
  }

  lemma {:induction false} InsertionPointShifts(s: string, p: nat, t: string)
    requires InsertionPoint(s) == Some(p)
    requires Inert(t)
    ensures p < |s|
    ensures InsertionPoint(s[..p] + t + s[p..]) == Some(p + |t|)
  {
    InsertionPointMeans(s);
    var i: nat :| FirstSvgAt(s, i) && FirstCloseAt(s, i + 4, p);
    var u := s[..p] + t + s[p..];
    InsertShape(s, p, t);
    FirstSvgKept(s, u, i, p);
    FirstCloseShifts(s, u, i + 4, p, t);
    InsertionPointMeans(u);
  }

  /** The inserted declaration satisfies the presence test afterwards. */
  lemma {:induction false} InsertedIsDeclared(s: string, p: nat, ns: Namespace)
    requires InsertionPoint(s) == Some(p)
    ensures p < |s|
    ensures HasNamespace(s[..p] + Declaration(ns) + s[p..], ns.attribute)
  {
    InsertionPointMeans(s);
    var i: nat :| FirstSvgAt(s, i) && FirstCloseAt(s, i + 4, p);
    var u := s[..p] + Declaration(ns) + s[p..];
    InsertShape(s, p, Declaration(ns));
    DeclaredAtInsertion(s, u, p, ns, i);
    HasNamespaceMeans(u, ns.attribute);
  }

  lemma DeclaredAtInsertion(s: string, u: string, p: nat, ns: Namespace, i: nat)
    requires FirstSvgAt(s, i) && FirstCloseAt(s, i + 4, p)
    requires InsertedInto(s, u, p, Declaration(ns))
    ensures DeclaresAt(u, i, p, ns.attribute)
  {
    var d := Declaration(ns);
    FoldedKept(s, u, p, d, i, "<svg");
    assert Avoids(s, i + 4, p, '>') by {
      forall k | i + 4 <= k < p ensures s[k] != '>' {
        assert !ClosesAt(s, k);
      }
    }
    AvoidsKept(s, u, p, d, i + 4, p);
    assert u[p] == ' ' by {
      assert u[p + 0] == d[0];
    }
    var a := ns.attribute + "=\"";
    assert StartsAtFolded(u, p + 1, a) by {
      assert d[1..1 + |a|] == a;
      InsertedWindow(s, u, p, d, 1, |a|);
    }
  }

  /** A window of the inserted text reads the same in the result. */
  lemma InsertedWindow(s: string, u: string, p: nat, t: string, lo: nat, m: nat)
    requires InsertedInto(s, u, p, t) && lo + m <= |t|
    ensures u[p + lo..p + lo + m] == t[lo..lo + m]
  {
    forall k | p + lo <= k < p + lo + m ensures u[k] == t[k - (p + lo) + lo] {
      assert u[p + (k - p)] == t[k - p];
    }
    Window(u, p + lo, t, lo, m);
  }

  /** The characters of `attribute` are neither `>` nor `/`. */
  predicate PlainAttribute(attribute: string) {
    '>' !in attribute && '/' !in attribute && forall c :: c in attribute ==> !('A' <= c <= 'Z')
  }

  lemma NoCloseInFolded(s: string, i: nat, lit: string, k: nat)
    requires StartsAtFolded(s, i, lit)
    requires i <= k < i + |lit|
    requires PlainAttribute(lit)
    ensures s[k] != '>' && s[k] != '/'
  {
    assert s[i..i + |lit|][k - i] == s[k];
    assert lit[k - i] in lit;
  }

  /** `u` is `s` with `t` inserted at `p`, character by character. */
  ghost predicate InsertedInto(s: string, u: string, p: nat, t: string) {
    && p <= |s| && |u| == |s| + |t|
    && (forall k :: 0 <= k < p ==> u[k] == s[k])
    && (forall k :: 0 <= k < |t| ==> u[p + k] == t[k])
    && (forall k :: p <= k < |s| ==> u[k + |t|] == s[k])
  }

  /** Three ways an insertion can fall relative to a match of the presence
      regex: after its end, before its `<svg`, or inside its `[^>]*`. */
  lemma DeclaresAfterInsert(s: string, u: string, p: nat, t: string, i: nat, j: nat, attribute: string)
    requires DeclaresAt(s, i, j, attribute)
    requires '>' !in t && InsertedInto(s, u, p, t)
    requires j + 1 + |attribute| + 2 <= p || p <= i || i + 4 <= p <= j
    ensures HasNamespace(u, attribute)
  {
    if j + 1 + |attribute| + 2 <= p {
      InsertAfterMatch(s, u, p, t, i, j, attribute);
    } else if p <= i {
      InsertBeforeMatch(s, u, p, t, i, j, attribute);
    } else {
      InsertWithinMatch(s, u, p, t, i, j, attribute);
    }
  }

  lemma InsertAfterMatch(s: string, u: string, p: nat, t: string, i: nat, j: nat, attribute: string)
    requires DeclaresAt(s, i, j, attribute)
    requires InsertedInto(s, u, p, t) && j + 1 + |attribute| + 2 <= p
    ensures HasNamespace(u, attribute)
  {
    FoldedKept(s, u, p, t, i, "<svg");
    FoldedKept(s, u, p, t, j + 1, attribute + "=\"");
    AvoidsKept(s, u, p, t, i + 4, j);
    assert u[j] == s[j];
    assert DeclaresAt(u, i, j, attribute);
    HasNamespaceMeans(u, attribute);
  }

  lemma InsertBeforeMatch(s: string, u: string, p: nat, t: string, i: nat, j: nat, attribute: string)
    requires DeclaresAt(s, i, j, attribute)
    requires InsertedInto(s, u, p, t) && p <= i
    ensures HasNamespace(u, attribute)
  {
    FoldedShifted(s, u, p, t, i, "<svg");
    FoldedShifted(s, u, p, t, j + 1, attribute + "=\"");
    AvoidsShifted(s, u, p, t, i + 4, j);
    assert u[j + |t|] == s[j];
    assert DeclaresAt(u, i + |t|, j + |t|, attribute);
    HasNamespaceMeans(u, attribute);
  }

  lemma InsertWithinMatch(s: string, u: string, p: nat, t: string, i: nat, j: nat, attribute: string)
    requires DeclaresAt(s, i, j, attribute)
    requires '>' !in t && InsertedInto(s, u, p, t) && i + 4 <= p <= j
    ensures HasNamespace(u, attribute)
  {
    FoldedKept(s, u, p, t, i, "<svg");
    FoldedShifted(s, u, p, t, j + 1, attribute + "=\"");
    AvoidsKept(s, u, p, t, i + 4, p);
    AvoidsShifted(s, u, p, t, p, j);
    assert Avoids(u, p, p + |t|, '>') by {
      forall k | p <= k < p + |t| ensures u[k] != '>' {
        assert u[k] == t[k - p];
        assert t[k - p] in t;
      }
    }
    assert u[j + |t|] == s[j];
    assert Avoids(u, i + 4, j + |t|, '>');
    assert DeclaresAt(u, i, j + |t|, attribute);
    HasNamespaceMeans(u, attribute);
  }

  /** A folded match wholly before the insertion stays where it was. */
  lemma FoldedKept(s: string, u: string, p: nat, t: string, i: nat, lit: string)
    requires InsertedInto(s, u, p, t) && StartsAtFolded(s, i, lit) && i + |lit| <= p
    ensures StartsAtFolded(u, i, lit)
  {
    Window(u, i, s, i, |lit|);
  }

  /** A folded match wholly after the insertion moves by `|t|`. */
  lemma FoldedShifted(s: string, u: string, p: nat, t: string, i: nat, lit: string)
    requires InsertedInto(s, u, p, t) && StartsAtFolded(s, i, lit) && p <= i
    ensures StartsAtFolded(u, i + |t|, lit)
  {
    forall k | i + |t| <= k < i + |t| + |lit| ensures u[k] == s[k - (i + |t|) + i] {
      assert u[(k - |t|) + |t|] == s[k - |t|];
    }
    Window(u, i + |t|, s, i, |lit|);
  }

  lemma AvoidsKept(s: string, u: string, p: nat, t: string, lo: nat, hi: nat)
    requires InsertedInto(s, u, p, t) && lo <= hi <= p && Avoids(s, lo, hi, '>')
    ensures Avoids(u, lo, hi, '>')
  {
  }

  lemma AvoidsShifted(s: string, u: string, p: nat, t: string, lo: nat, hi: nat)
    requires InsertedInto(s, u, p, t) && p <= lo <= hi <= |s| && Avoids(s, lo, hi, '>')
    ensures Avoids(u, lo + |t|, hi + |t|, '>')
  {
    forall k | lo + |t| <= k < hi + |t| ensures u[k] != '>' {
      assert u[(k - |t|) + |t|] == s[k - |t|];
    }
  }

  /** A declaration the presence test finds survives an insertion of `>`-free
      text at a position holding `>` or `/`. */
  lemma {:induction false} DeclarationSurvives(s: string, p: nat, t: string, attribute: string)
    requires p < |s| && (s[p] == '>' || s[p] == '/')
    requires '>' !in t
    requires PlainAttribute(attribute)
    requires HasNamespace(s, attribute)
    ensures HasNamespace(s[..p] + t + s[p..], attribute)
  {
    HasNamespaceMeans(s, attribute);
    var i: nat, j: nat :| DeclaresAt(s, i, j, attribute);
    var a := attribute + "=\"";
    assert PlainAttribute(a);
    if i < p < i + 4 {
      NoCloseInFolded(s, i, "<svg", p);
    }
    if j + 1 <= p < j + 1 + |a| {
      NoCloseInFolded(s, j + 1, a, p);
    }
    InsertShape(s, p, t);
    assert InsertedInto(s, s[..p] + t + s[p..], p, t);
    DeclaresAfterInsert(s, s[..p] + t + s[p..], p, t, i, j, attribute);
  }

  /** One step of the reduce, where the running markup has a closable tag. */
  lemma StepShape(markup: string, current: string, ns: Namespace, q: nat)
    requires InsertionPoint(current) == Some(q)
    ensures q < |current|
    ensures AddNamespace(markup, current, ns)
         == current[..q] + (if HasNamespace(markup, ns.attribute) then "" else Declaration(ns)) + current[q..]
  {
    InsertionPointInside(current);
    if HasNamespace(markup, ns.attribute) {
      assert current[..q] + "" + current[q..] == current;
    }
  }

  lemma SplitAfterInsert(s: string, p: nat, d: string)
    requires p <= |s|
    ensures (s[..p] + d + s[p..])[..p + |d|] == s[..p] + d
    ensures (s[..p] + d + s[p..])[p + |d|..] == s[p..]
  {
  }

  /** What completion does to the markup: with no closable `<svg` tag it is
      unchanged; otherwise the missing declarations (tested against the
      original markup) are inserted just before the tag's `>` or `/>`,
      `xmlns` before `xmlns:parametric`, and no other character changes. */
  lemma CompletionShape(markup: string)
    ensures InsertionPoint(markup).None? ==> CompleteNamespaces(markup) == markup
    ensures InsertionPoint(markup).Some? ==>
      var p := InsertionPoint(markup).value;
      p < |markup| && CompleteNamespaces(markup) == markup[..p] + Missing(markup) + markup[p..]
  {
    CompleteUnfolds(markup);
    if InsertionPoint(markup).Some? {
      CompletionShapeAt(markup, InsertionPoint(markup).value);
    }
  }

  lemma CompletionShapeAt(markup: string, p: nat)
    requires InsertionPoint(markup) == Some(p)
    ensures p < |markup| && CompleteNamespaces(markup) == markup[..p] + Missing(markup) + markup[p..]
  {
    var d1 := if HasNamespace(markup, Xmlns.attribute) then "" else Declaration(Xmlns);
    var d2 := if HasNamespace(markup, XmlnsParametric.attribute) then "" else Declaration(XmlnsParametric);
    var s1 := AddNamespace(markup, markup, Xmlns);
    var q := p + |d1|;
    assert p < |markup| && s1 == markup[..p] + d1 + markup[p..] by {
      StepShape(markup, markup, Xmlns, p);
    }
    assert InsertionPoint(s1) == Some(q) by {
      DeclarationInert(Xmlns);
      InsertionPointShifts(markup, p, d1);
    }
    assert AddNamespace(markup, s1, XmlnsParametric) == s1[..q] + d2 + s1[q..] by {
      StepShape(markup, s1, XmlnsParametric, q);
    }
    assert s1[..q] == markup[..p] + d1 && s1[q..] == markup[p..] by {
      SplitAfterInsert(markup, p, d1);
    }
    assert CompleteNamespaces(markup) == AddNamespace(markup, s1, XmlnsParametric) by {
      CompleteUnfolds(markup);
    }
    assert Missing(markup) == d1 + d2;
    Regroup(markup[..p], d1, d2, markup[p..], s1[..q], s1[q..]);
  }

  lemma Regroup(a: string, d1: string, d2: string, b: string, x: string, y: string)
    requires x == a + d1 && y == b
    ensures x + d2 + y == a + (d1 + d2) + b
  {
  }

  lemma PlainByCharacters(attribute: string)
    requires forall k :: 0 <= k < |attribute| ==>
      attribute[k] != '>' && attribute[k] != '/' && !('A' <= attribute[k] <= 'Z')
    ensures PlainAttribute(attribute)
  {
  }

  lemma RequiredArePlain()
    ensures PlainAttribute(Xmlns.attribute) && PlainAttribute(XmlnsParametric.attribute)
  {
    assert Xmlns.attribute == "xmlns";
    assert XmlnsParametric.attribute == "xmlns:parametric";
    PlainByCharacters("xmlns");
    PlainByCharacters("xmlns:parametric");
  }

  /** A step of the reduce keeps a declaration the presence test finds. */
  lemma StepKeeps(s: string, p: nat, t: string, attribute: string)
    requires InsertionPoint(s) == Some(p)
    requires Inert(t) && PlainAttribute(attribute)
    requires HasNamespace(s, attribute)
    ensures p < |s|
    ensures HasNamespace(s[..p] + t + s[p..], attribute)
  {
    InsertionPointInside(s);
    DeclarationSurvives(s, p, t, attribute);
  }

  /** After a step for `ns` the presence test finds `ns`, whether the step
      inserted its declaration or found it already present. */
  lemma StepEstablishes(s: string, p: nat, ns: Namespace, present: bool)
    requires InsertionPoint(s) == Some(p)
    requires ns == Xmlns || ns == XmlnsParametric
    requires present ==> HasNamespace(s, ns.attribute)
    ensures p < |s|
    ensures HasNamespace(s[..p] + (if present then "" else Declaration(ns)) + s[p..], ns.attribute)
  {
    InsertionPointInside(s);
    if present {
      RequiredArePlain();
      StepKeeps(s, p, "", ns.attribute);
    } else {
      InsertedIsDeclared(s, p, ns);
    }
  }

  /** After completion of markup with a closable `<svg` tag, the presence
      test finds both declarations. */
  lemma CompletionDeclaresBoth(markup: string)
    requires InsertionPoint(markup).Some?
    ensures HasNamespace(CompleteNamespaces(markup), Xmlns.attribute)
    ensures HasNamespace(CompleteNamespaces(markup), XmlnsParametric.attribute)
  {
    CompletionDeclaresXmlns(markup);
    CompletionDeclaresParametric(markup);
  }

  lemma CompletionDeclaresXmlns(markup: string)
    requires InsertionPoint(markup).Some?
    ensures HasNamespace(CompleteNamespaces(markup), Xmlns.attribute)
  {
    var p := InsertionPoint(markup).value;
    var has1 := HasNamespace(markup, Xmlns.attribute);
    var has2 := HasNamespace(markup, XmlnsParametric.attribute);
    var d1 := if has1 then "" else Declaration(Xmlns);
    var d2 := if has2 then "" else Declaration(XmlnsParametric);
    var s1 := AddNamespace(markup, markup, Xmlns);
    var q := p + |d1|;
    var done := CompleteNamespaces(markup);
    assert s1 == markup[..p] + d1 + markup[p..] by { StepShape(markup, markup, Xmlns, p); }
    assert InsertionPoint(s1) == Some(q) by {
      DeclarationInert(Xmlns);
      InsertionPointShifts(markup, p, d1);
    }
    assert done == s1[..q] + d2 + s1[q..] by {
      CompleteUnfolds(markup);
      StepShape(markup, s1, XmlnsParametric, q);
    }
    RequiredArePlain();
    assert Inert(d2) by { DeclarationInert(XmlnsParametric); }
    assert HasNamespace(s1, Xmlns.attribute) by { StepEstablishes(markup, p, Xmlns, has1); }
    StepKeeps(s1, q, d2, Xmlns.attribute);
  }

  lemma CompletionDeclaresParametric(markup: string)
    requires InsertionPoint(markup).Some?
    ensures HasNamespace(CompleteNamespaces(markup), XmlnsParametric.attribute)
  {
    var p := InsertionPoint(markup).value;
    var has1 := HasNamespace(markup, Xmlns.attribute);
    var has2 := HasNamespace(markup, XmlnsParametric.attribute);
    var d1 := if has1 then "" else Declaration(Xmlns);
    var d2 := if has2 then "" else Declaration(XmlnsParametric);
    var s1 := AddNamespace(markup, markup, Xmlns);
    var q := p + |d1|;
    var done := CompleteNamespaces(markup);
    assert s1 == markup[..p] + d1 + markup[p..] by { StepShape(markup, markup, Xmlns, p); }
    assert InsertionPoint(s1) == Some(q) by {
      DeclarationInert(Xmlns);
      InsertionPointShifts(markup, p, d1);
    }
    assert done == s1[..q] + d2 + s1[q..] by {
      CompleteUnfolds(markup);
      StepShape(markup, s1, XmlnsParametric, q);
    }
    RequiredArePlain();
    assert Inert(d1) by { DeclarationInert(Xmlns); }
    assert has2 ==> HasNamespace(s1, XmlnsParametric.attribute) by {
      if has2 {
        StepKeeps(markup, p, d1, XmlnsParametric.attribute);
      }
    }
    StepEstablishes(s1, q, XmlnsParametric, has2);
  }

  /** Completing already-completed markup changes nothing. */
  lemma CompletionIdempotent(markup: string)
    ensures CompleteNamespaces(CompleteNamespaces(markup)) == CompleteNamespaces(markup)
  {
    var done := CompleteNamespaces(markup);
    CompletionShape(markup);
    if InsertionPoint(markup).Some? {
      CompletionDeclaresBoth(markup);
      CompletionShape(done);
      assert Missing(done) == "";
      if InsertionPoint(done).Some? {
        var p := InsertionPoint(done).value;
        assert done[..p] + "" + done[p..] == done;
      }
    }
  }
}
