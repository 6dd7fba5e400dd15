/**
 * The regex-based stand-in for DOMParser used by the extractor's tests. It
 * answers only `parseFromString(source, 'image/svg+xml')` and then only
 * `querySelectorAll('defs param')`: it takes every one-line
 * `<defs>...</defs>` stretch of the source (`/<defs>.*<\/defs>/g`), every
 * self-closing `<param .../>` inside those (`/<param\b.*?\/>/g`), and reads
 * `name="..."` and `value="..."` off each (`\bkey="(.*?)"`).
 */
module MockDomParser {
  import opened Wrappers
  import opened Text

  // ---------------------------------------------------------------------
  // `.*` and `.*?` followed by a literal: `.` is any character but a line
  // terminator

  /** `lit` at `c`, reached from `j` over characters `.` matches. */
  ghost predicate ReachableOnLine(s: string, j: nat, c: nat, lit: string) {
    j <= c && StartsAt(s, c, lit) && OnOneLine(s, j, c)
  }

  predicate Plain(lit: string) {
    lit != [] && forall k :: 0 <= k < |lit| ==> !IsLineTerminator(lit[k])
  }

  /** Lazy `.*?lit` from `j`: the position of the nearest `lit`. */
  function FirstOnLine(s: string, j: nat, lit: string): (r: Option<nat>)
    requires Plain(lit)
    ensures r.Some? ==> j <= r.value && r.value + |lit| <= |s|
    decreases |s| - j
  {
    if j + |lit| > |s| then None
    else if StartsAt(s, j, lit) then Some(j)
    else if IsLineTerminator(s[j]) then None
    else FirstOnLine(s, j + 1, lit)
  }

  lemma {:induction false} FirstOnLineMeans(s: string, j: nat, lit: string)
    requires Plain(lit)
    ensures FirstOnLine(s, j, lit).Some? ==>
      var c := FirstOnLine(s, j, lit).value;
      ReachableOnLine(s, j, c, lit) && forall c' :: j <= c' < c ==> !StartsAt(s, c', lit)
    ensures FirstOnLine(s, j, lit).None? <==> forall c: nat :: !ReachableOnLine(s, j, c, lit)
    decreases |s| - j
  {
    if j + |lit| > |s| {
      assert forall c: nat :: j <= c ==> !StartsAt(s, c, lit);
    } else if StartsAt(s, j, lit) {
      assert ReachableOnLine(s, j, j, lit);
    } else if IsLineTerminator(s[j]) {
      forall c: nat ensures !ReachableOnLine(s, j, c, lit) {
        if j < c && StartsAt(s, c, lit) {
          assert IsLineTerminator(s[j]);
        }
      }
    } else {
      FirstOnLineMeans(s, j + 1, lit);
      forall c: nat | ReachableOnLine(s, j, c, lit) ensures ReachableOnLine(s, j + 1, c, lit) {
        assert c != j;
      }
      forall c: nat | ReachableOnLine(s, j + 1, c, lit) ensures ReachableOnLine(s, j, c, lit) {
      }
    }
  }

  /** The end of the line that holds position `j`. */
  function LineEnd(s: string, j: nat): (r: nat)
    requires j <= |s|
    ensures j <= r <= |s| && OnOneLine(s, j, r) && (r < |s| ==> IsLineTerminator(s[r]))
    decreases |s| - j
  {
    if j == |s| then j
    else if IsLineTerminator(s[j]) then j
    else LineEnd(s, j + 1)
  }

  /** The last `lit` lying wholly in `s[lo..hi]`. */
  function LastIn(s: string, lo: nat, hi: nat, lit: string): (r: Option<nat>)
    requires hi <= |s|
    ensures r.Some? ==> (lo <= r.value && r.value + |lit| <= hi && StartsAt(s, r.value, lit)
      && forall c :: r.value < c && c + |lit| <= hi ==> !StartsAt(s, c, lit))
    ensures r.None? ==> forall c :: lo <= c && c + |lit| <= hi ==> !StartsAt(s, c, lit)
    decreases hi
  {
    if hi < lo + |lit| then None
    else if StartsAt(s, hi - |lit|, lit) then Some(hi - |lit|)
    else LastIn(s, lo, hi - 1, lit)
  }

  /** Greedy `.*lit` from `j`: the position of the farthest `lit` on the line. */
  function LastOnLine(s: string, j: nat, lit: string): Option<nat>
    requires j <= |s|
  {
    LastIn(s, j, LineEnd(s, j), lit)
  }

  lemma LastOnLineMeans(s: string, j: nat, lit: string)
    requires j <= |s| && Plain(lit)
    ensures LastOnLine(s, j, lit).Some? ==>
      var c := LastOnLine(s, j, lit).value;
      ReachableOnLine(s, j, c, lit) && forall c': nat :: ReachableOnLine(s, j, c', lit) ==> c' <= c
    ensures LastOnLine(s, j, lit).None? <==> forall c: nat :: !ReachableOnLine(s, j, c, lit)
  {
    var e := LineEnd(s, j);
    forall c: nat | ReachableOnLine(s, j, c, lit) ensures c + |lit| <= e {
      forall k | j <= k < c + |lit| ensures !IsLineTerminator(s[k]) {
        if c <= k {
          assert s[k] == s[c..c + |lit|][k - c];
        }
      }
      LineEndBeyond(s, j, c + |lit|);
    }
  }

  /** A position reached from `j` without a line terminator is not past
      the end of the line. */
  lemma {:induction false} LineEndBeyond(s: string, j: nat, c: nat)
    requires j <= c <= |s| && OnOneLine(s, j, c)
    ensures c <= LineEnd(s, j)
    decreases |s| - j
  {
    if j < c {
      LineEndBeyond(s, j + 1, c);
    }
  }

  // ---------------------------------------------------------------------
  // The two global regexes

  datatype Pattern =
    | DefsPattern   // /<defs>.*<\/defs>/g
    | ParamPattern  // /<param\b.*?\/>/g

  const DefsOpen := "<defs>"
  const DefsClose := "</defs>"
  const ParamOpen := "<param"
  const SelfClose := "/>"

  /** Where a match of `pattern` starting at `i` ends, if there is one. */
  function MatchAt(pattern: Pattern, s: string, i: nat): (r: Option<nat>)
    ensures r.Some? ==> i < r.value <= |s|
  {
    match pattern
    case DefsPattern =>
      if !StartsAt(s, i, DefsOpen) then None
      else (match LastOnLine(s, i + |DefsOpen|, DefsClose)
        case Some(c) => Some(c + |DefsClose|)
        case None => None)
    case ParamPattern =>
      if !(StartsAt(s, i, ParamOpen) && WordBoundary(s, i + |ParamOpen|)) then None
      else (match FirstOnLine(s, i + |ParamOpen|, SelfClose)
        case Some(c) => Some(c + |SelfClose|)
        case None => None)
  }

  /** The `</defs>` at `c` is the last one reachable from `j` on its line. */
  ghost predicate LastCloseFrom(s: string, j: nat, c: nat) {
    ReachableOnLine(s, j, c, DefsClose)
    && forall c': nat :: ReachableOnLine(s, j, c', DefsClose) ==> c' <= c
  }

  /** A `<defs>` at `i` whose greedy match ends with the `</defs>` at `c`. */
  ghost predicate DefsMatch(s: string, i: nat, c: nat) {
    StartsAt(s, i, DefsOpen) && LastCloseFrom(s, i + |DefsOpen|, c)
  }

  /** A `<param` at `i`, followed by a word boundary, whose lazy match ends
      with the `/>` at `c`: the first one after it. */
  ghost predicate ParamMatch(s: string, i: nat, c: nat) {
    StartsAt(s, i, ParamOpen) && WordBoundary(s, i + |ParamOpen|)
    && ReachableOnLine(s, i + |ParamOpen|, c, SelfClose)
    && forall c' :: i + |ParamOpen| <= c' < c ==> !StartsAt(s, c', SelfClose)
  }

  lemma DefsMatchAtMeans(s: string, i: nat)
    ensures MatchAt(DefsPattern, s, i).Some? ==> DefsMatch(s, i, MatchAt(DefsPattern, s, i).value - |DefsClose|)
    ensures MatchAt(DefsPattern, s, i).None? ==> forall c: nat :: !DefsMatch(s, i, c)
  {
    if StartsAt(s, i, DefsOpen) {
      assert Plain(DefsClose);
      LastOnLineMeans(s, i + |DefsOpen|, DefsClose);
    }
  }

  lemma ParamMatchAtMeans(s: string, i: nat)
    ensures MatchAt(ParamPattern, s, i).Some? ==> ParamMatch(s, i, MatchAt(ParamPattern, s, i).value - |SelfClose|)
    ensures MatchAt(ParamPattern, s, i).None? ==> forall c: nat :: !ParamMatch(s, i, c)
  {
    if StartsAt(s, i, ParamOpen) && WordBoundary(s, i + |ParamOpen|) {
      assert Plain(SelfClose);
      FirstOnLineMeans(s, i + |ParamOpen|, SelfClose);
    }
  }

  /** `s.match(pattern) || []` from position `i`: the leftmost match, then
      the matches after its end. */
  function MatchAll(pattern: Pattern, s: string, i: nat): seq<string>
    decreases |s| - i
  {
    if i >= |s| then []
    else match MatchAt(pattern, s, i)
      case Some(e) => [s[i..e]] + MatchAll(pattern, s, e)
      case None => MatchAll(pattern, s, i + 1)
  }

  /** `i` is the leftmost position at or after `lo` where a match starts. */
  ghost predicate LeftmostFrom(pattern: Pattern, s: string, lo: nat, i: nat) {
    lo <= i < |s| && MatchAt(pattern, s, i).Some?
    && forall k :: lo <= k < i ==> MatchAt(pattern, s, k).None?
  }

  /** The global match finds nothing exactly when no match starts anywhere;
      otherwise it lists the leftmost match first and then goes on after
      its end, so the matches come left to right and do not overlap. */
  lemma {:induction false} MatchAllMeans(pattern: Pattern, s: string, lo: nat)
    ensures MatchAll(pattern, s, lo) == [] <==> forall i :: lo <= i < |s| ==> MatchAt(pattern, s, i).None?
    ensures MatchAll(pattern, s, lo) != [] ==>
      exists i: nat :: LeftmostFrom(pattern, s, lo, i)
        && MatchAll(pattern, s, lo) == [s[i..MatchAt(pattern, s, i).value]] + MatchAll(pattern, s, MatchAt(pattern, s, i).value)
    decreases |s| - lo
  {
    if lo < |s| {
      if MatchAt(pattern, s, lo).Some? {
        assert LeftmostFrom(pattern, s, lo, lo);
      } else {
        MatchAllMeans(pattern, s, lo + 1);
        if MatchAll(pattern, s, lo) != [] {
          var i: nat :| LeftmostFrom(pattern, s, lo + 1, i)
            && MatchAll(pattern, s, lo + 1) == [s[i..MatchAt(pattern, s, i).value]] + MatchAll(pattern, s, MatchAt(pattern, s, i).value);
          assert LeftmostFrom(pattern, s, lo, i);
        }
      }
    }
  }

  /** No one-line `<defs>...</defs>` stretch, no segments. */
  lemma NoDefsNoSegments(s: string)
    requires forall i: nat, c: nat :: !DefsMatch(s, i, c)
    ensures MatchAll(DefsPattern, s, 0) == []
  {
    forall i | 0 <= i < |s| ensures MatchAt(DefsPattern, s, i).None? {
      DefsMatchAtMeans(s, i);
    }
    MatchAllMeans(DefsPattern, s, 0);
  }

  /** A greedy `<defs>...</defs>` match never leaves its line. */
  lemma DefsMatchOnOneLine(s: string, i: nat, c: nat)
    requires DefsMatch(s, i, c)
    ensures c + |DefsClose| <= |s| && OnOneLine(s, i, c + |DefsClose|)
  {
    forall k | i <= k < c + |DefsClose| ensures !IsLineTerminator(s[k]) {
      if k < i + |DefsOpen| {
        assert s[k] == s[i..i + |DefsOpen|][k - i];
      } else if k >= c {
        assert s[k] == s[c..c + |DefsClose|][k - c];
      }
    }
  }

  /** Before the leftmost match, no `<defs>` has a `</defs>` on its line. */
  lemma BeforeLeftmostDefs(s: string, i: nat)
    requires LeftmostFrom(DefsPattern, s, 0, i)
    ensures forall k: nat, c: nat :: k < i ==> !DefsMatch(s, k, c)
  {
    forall k: nat, c: nat | k < i ensures !DefsMatch(s, k, c) {
      DefsMatchAtMeans(s, k);
    }
  }

  /** The first segment is greedy and stays on its line: it runs from the
      leftmost `<defs>` having a `</defs>` after it on its line to the last
      `</defs>` on that line. */
  lemma FirstSegmentGreedy(s: string)
    requires MatchAll(DefsPattern, s, 0) != []
    ensures exists i: nat, c: nat ::
      && DefsMatch(s, i, c)
      && (forall k: nat, c': nat :: k < i ==> !DefsMatch(s, k, c'))
      && MatchAll(DefsPattern, s, 0)[0] == s[i..c + |DefsClose|]
      && OnOneLine(s, i, c + |DefsClose|)
  {
    LeftmostSegment(DefsPattern, s);
    var i: nat :| LeftmostFrom(DefsPattern, s, 0, i) && MatchAll(DefsPattern, s, 0)[0] == s[i..MatchAt(DefsPattern, s, i).value];
    DefsMatchAtMeans(s, i);
    var c: nat := MatchAt(DefsPattern, s, i).value - |DefsClose|;
    assert DefsMatch(s, i, c);
    BeforeLeftmostDefs(s, i);
    DefsMatchOnOneLine(s, i, c);
  }

  /** The first match listed is the one at the leftmost position. */
  lemma LeftmostSegment(pattern: Pattern, s: string)
    requires MatchAll(pattern, s, 0) != []
    ensures exists i: nat :: LeftmostFrom(pattern, s, 0, i) && MatchAll(pattern, s, 0)[0] == s[i..MatchAt(pattern, s, i).value]
  {
    MatchAllMeans(pattern, s, 0);
  }

  // ---------------------------------------------------------------------
  // Stepping the scanners over stretches that cannot match

  /** A character that differs from `lit`'s rules out `lit` there. */
  lemma NotStartsAt(s: string, i: nat, lit: string, k: nat)
    requires k < |lit| && i + k < |s| && s[i + k] != lit[k]
    ensures !StartsAt(s, i, lit)
  {
    if i + |lit| <= |s| {
      assert s[i..i + |lit|][k] == s[i + k];
    }
  }

  /** Both patterns begin with `<`. */
  lemma NoOpenNoMatch(pattern: Pattern, s: string, i: nat)
    requires i < |s| && s[i] != '<'
    ensures MatchAt(pattern, s, i).None?
  {
    NotStartsAt(s, i, DefsOpen, 0);
    NotStartsAt(s, i, ParamOpen, 0);
  }

  /** The global match passes over positions where no match starts. */
  lemma {:induction false} MatchAllSkip(pattern: Pattern, s: string, lo: nat, hi: nat)
    requires lo <= hi <= |s|
    requires forall i :: lo <= i < hi ==> MatchAt(pattern, s, i).None?
    ensures MatchAll(pattern, s, lo) == MatchAll(pattern, s, hi)
    decreases hi - lo
  {
    if lo < hi {
      MatchAllSkip(pattern, s, lo + 1, hi);
    }
  }

  /** ... and over stretches without a `<`. */
  lemma MatchAllSkipText(pattern: Pattern, s: string, lo: nat, hi: nat)
    requires lo <= hi <= |s| && Avoids(s, lo, hi, '<')
    ensures MatchAll(pattern, s, lo) == MatchAll(pattern, s, hi)
  {
    forall i | lo <= i < hi ensures MatchAt(pattern, s, i).None? {
      NoOpenNoMatch(pattern, s, i);
    }
    MatchAllSkip(pattern, s, lo, hi);
  }

  /** The global match passes over a `<` that opens no match and the text
      after it up to the next `<`. */
  lemma MatchAllPast(pattern: Pattern, s: string, at: nat, hi: nat)
    requires at < hi <= |s| && MatchAt(pattern, s, at).None? && Avoids(s, at + 1, hi, '<')
    ensures MatchAll(pattern, s, at) == MatchAll(pattern, s, hi)
  {
    MatchAllSkipText(pattern, s, at + 1, hi);
  }

  /** The lazy scan passes over characters other than `lit`'s first one. */
  lemma {:induction false} FirstOnLineSkip(s: string, j: nat, j': nat, lit: string)
    requires Plain(lit) && j <= j' && j' + |lit| <= |s|
    requires forall k :: j <= k < j' ==> s[k] != lit[0] && !IsLineTerminator(s[k])
    ensures FirstOnLine(s, j, lit) == FirstOnLine(s, j', lit)
    decreases j' - j
  {
    if j < j' {
      NotStartsAt(s, j, lit, 0);
      FirstOnLineSkip(s, j + 1, j', lit);
    }
  }

  /** The lazy scan stops at `lit`. */
  lemma FirstOnLineHere(s: string, j: nat, lit: string)
    requires Plain(lit) && StartsAt(s, j, lit)
    ensures FirstOnLine(s, j, lit) == Some(j)
  {
  }

  /** The greedy scan reaches the line's end when there is no terminator. */
  lemma LineEndAtEnd(s: string, j: nat)
    requires j <= |s| && OnOneLine(s, j, |s|)
    ensures LineEnd(s, j) == |s|
  {
    LineEndBeyond(s, j, |s|);
  }

  /** The backward scan passes over `lit`s that cannot start in
      `(hi' - |lit|, hi - |lit|]`. */
  lemma {:induction false} LastInSkip(s: string, lo: nat, hi: nat, hi': nat, lit: string)
    requires lo + |lit| <= hi' <= hi <= |s|
    requires forall c :: hi' - |lit| < c <= hi - |lit| ==> !StartsAt(s, c, lit)
    ensures LastIn(s, lo, hi, lit) == LastIn(s, lo, hi', lit)
    decreases hi - hi'
  {
    if hi' < hi {
      LastInSkip(s, lo, hi - 1, hi', lit);
    }
  }

  /** A `<param ...>` at `at` whose first `/>` is at `close`. */
  lemma ParamMatchIs(s: string, at: nat, close: nat)
    requires StartsAt(s, at, ParamOpen) && WordBoundary(s, at + |ParamOpen|)
    requires at + |ParamOpen| <= close && StartsAt(s, close, SelfClose)
    requires forall k :: at + |ParamOpen| <= k < close ==> s[k] != '/' && !IsLineTerminator(s[k])
    ensures MatchAt(ParamPattern, s, at) == Some(close + |SelfClose|)
  {
    assert Plain(SelfClose);
    FirstOnLineSkip(s, at + |ParamOpen|, close, SelfClose);
  }

  /** A `<defs>` at `at` on a line that runs to the end of `s`, whose last
      `</defs>` is at `close`. */
  lemma DefsMatchIs(s: string, at: nat, close: nat)
    requires StartsAt(s, at, DefsOpen) && OnOneLine(s, at + |DefsOpen|, |s|)
    requires at + |DefsOpen| <= close && StartsAt(s, close, DefsClose)
    requires forall c :: close < c && c + |DefsClose| <= |s| ==> !StartsAt(s, c, DefsClose)
    ensures MatchAt(DefsPattern, s, at) == Some(close + |DefsClose|)
  {
    LineEndAtEnd(s, at + |DefsOpen|);
    LastInSkip(s, at + |DefsOpen|, |s|, close + |DefsClose|, DefsClose);
  }

  // ---------------------------------------------------------------------
  // Attributes: `param.match(new RegExp('\\b' + key + '="(.*?)"'))`

  /** A match of `\bkey="(.*?)"` starting at `i`, its group ending at `c`. */
  ghost predicate AttributeMatch(p: string, key: string, i: nat, c: nat) {
    i <= |p| && WordBoundary(p, i) && StartsAt(p, i, key + "=\"")
    && ReachableOnLine(p, i + |key| + 2, c, "\"")
    && forall c' :: i + |key| + 2 <= c' < c ==> !StartsAt(p, c', "\"")
  }

  /** The group of the leftmost match at or after `i`, or null. */
  function AttributeFrom(p: string, key: string, i: nat): Option<string>
    decreases |p| - i
  {
    if i + |key| + 2 > |p| then None
    else if WordBoundary(p, i) && StartsAt(p, i, key + "=\"") then
      match FirstOnLine(p, i + |key| + 2, "\"")
      case Some(c) => Some(p[i + |key| + 2..c])
      case None => AttributeFrom(p, key, i + 1)
    else AttributeFrom(p, key, i + 1)
  }

  /** The text between the first `key="` (at a word boundary) and the next
      `"` on its line; null when there is no such pair. */
  lemma {:induction false} AttributeFromMeans(p: string, key: string, lo: nat)
    ensures AttributeFrom(p, key, lo).None? <==> forall i: nat, c: nat :: lo <= i ==> !AttributeMatch(p, key, i, c)
    ensures AttributeFrom(p, key, lo).Some? ==>
      exists i: nat, c: nat :: lo <= i && AttributeMatch(p, key, i, c)
        && AttributeFrom(p, key, lo).value == p[i + |key| + 2..c]
        && forall k: nat, c': nat :: lo <= k < i ==> !AttributeMatch(p, key, k, c')
    decreases |p| - lo
  {
    assert Plain("\"");
    if lo + |key| + 2 > |p| {
      forall i: nat, c: nat | lo <= i ensures !AttributeMatch(p, key, i, c) {
        assert !StartsAt(p, i, key + "=\"");
      }
    } else {
      var found := WordBoundary(p, lo) && StartsAt(p, lo, key + "=\"");
      if found {
        FirstOnLineMeans(p, lo + |key| + 2, "\"");
      }
      if found && FirstOnLine(p, lo + |key| + 2, "\"").Some? {
        var c := FirstOnLine(p, lo + |key| + 2, "\"").value;
        assert AttributeMatch(p, key, lo, c);
      } else {
        AttributeFromMeans(p, key, lo + 1);
        forall c: nat ensures !AttributeMatch(p, key, lo, c) {
          if found {
            assert !ReachableOnLine(p, lo + |key| + 2, c, "\"");
          }
        }
        if AttributeFrom(p, key, lo).Some? {
          var i: nat, c: nat :| lo + 1 <= i && AttributeMatch(p, key, i, c)
            && AttributeFrom(p, key, lo).value == p[i + |key| + 2..c]
            && forall k: nat, c': nat :: lo + 1 <= k < i ==> !AttributeMatch(p, key, k, c');
          assert forall k: nat, c': nat :: lo <= k < i ==> !AttributeMatch(p, key, k, c');
        }
      }
    }
  }

  /** The attribute scan passes over characters other than `key`'s first. */
  lemma {:induction false} AttributeFromSkip(p: string, key: string, lo: nat, hi: nat)
    requires key != [] && lo <= hi <= |p|
    requires forall k :: lo <= k < hi ==> p[k] != key[0]
    ensures AttributeFrom(p, key, lo) == AttributeFrom(p, key, hi)
    decreases hi - lo
  {
    if lo < hi {
      assert (key + "=\"")[0] == key[0];
      NotStartsAt(p, lo, key + "=\"", 0);
      AttributeFromSkip(p, key, lo + 1, hi);
    }
  }

  /** The attribute found when `key="` first appears at `at`, and the value
      runs from there to the `"` at `close`. */
  lemma AttributeIs(p: string, key: string, at: nat, close: nat)
    requires key != [] && at + |key| + 2 <= close < |p|
    requires forall k :: 0 <= k < at ==> p[k] != key[0]
    requires WordBoundary(p, at) && StartsAt(p, at, key + "=\"")
    requires p[close] == '"'
    requires forall k :: at + |key| + 2 <= k < close ==> p[k] != '"' && !IsLineTerminator(p[k])
    ensures AttributeFrom(p, key, 0) == Some(p[at + |key| + 2..close])
  {
    AttributeFromSkip(p, key, 0, at);
    assert Plain("\"");
    FirstOnLineSkip(p, at + |key| + 2, close, "\"");
    StartsAtChars(p, close, "\"");
  }

  // ---------------------------------------------------------------------
  // The mock's objects

  /** What `parseFromString` returns: it only remembers the source. */
  datatype MockDocument = MockDocument(source: string)

  /** A matched param: the `name` and `value` it found. */
  datatype MockParam = MockParam(name: Option<string>, value: Option<string>) {
    /** `getAttribute(attribute)`: the found value for `name` and
        `value`, null for every other attribute. */
    function GetAttribute(attribute: string): (r: Option<string>)
      ensures attribute == "name" ==> r == name
      ensures attribute == "value" ==> r == value
      ensures attribute != "name" && attribute != "value" ==> r.None?
    {
      if attribute == "name" then name else if attribute == "value" then value else None
    }
  }

  function ReadParam(tag: string): MockParam {
    MockParam(AttributeFrom(tag, "name", 0), AttributeFrom(tag, "value", 0))
  }

  /** The `<param .../>` strings of every segment, segment after segment
      (the `flatten` of the per-segment matches). */
  function ParamStrings(segments: seq<string>): seq<string> {
    if segments == [] then []
    else MatchAll(ParamPattern, segments[0], 0) + ParamStrings(segments[1..])
  }

  function ReadParams(tags: seq<string>): (r: seq<MockParam>)
    ensures |r| == |tags| && forall k :: 0 <= k < |tags| ==> r[k] == ReadParam(tags[k])
  {
    if tags == [] then [] else [ReadParam(tags[0])] + ReadParams(tags[1..])
  }

  function ParseFromString(source: string, mimeType: string): (r: Result<MockDocument, string>)
    ensures r.Ok? <==> mimeType == "image/svg+xml"
    ensures r.Ok? ==> r.value.source == source
    ensures r.Err? ==> r.error == "only image/svg+xml supported"
  {
    if mimeType == "image/svg+xml" then Ok(MockDocument(source))
    else Err("only image/svg+xml supported")
  }

  /** `querySelectorAll(selector)` on a parsed document. */
  function QuerySelectorAll(doc: MockDocument, selector: string): Result<seq<MockParam>, string> {
    if selector != "defs param" then Err("only `defs param` supported")
    else
      Ok(ReadParams(ParamStrings(MatchAll(DefsPattern, doc.source, 0))))
  }

  /** Only `defs param` is accepted; the params are read off the param
      strings in order, one object per string. */
  lemma QuerySelectorAllMeans(doc: MockDocument, selector: string)
    ensures QuerySelectorAll(doc, selector).Err? <==> selector != "defs param"
    ensures QuerySelectorAll(doc, selector).Err? ==> QuerySelectorAll(doc, selector).error == "only `defs param` supported"
    ensures QuerySelectorAll(doc, selector).Ok? ==>
      var tags := ParamStrings(MatchAll(DefsPattern, doc.source, 0));
      var params := QuerySelectorAll(doc, selector).value;
      |params| == |tags|
      && forall k :: 0 <= k < |tags| ==>
           params[k].GetAttribute("name") == AttributeFrom(tags[k], "name", 0)
           && params[k].GetAttribute("value") == AttributeFrom(tags[k], "value", 0)
  {
  }

  /** A source without a one-line `<defs>...</defs>` yields no params. */
  lemma NoDefsNoParams(source: string)
    requires forall i: nat, c: nat :: !DefsMatch(source, i, c)
    ensures QuerySelectorAll(MockDocument(source), "defs param") == Ok([])
  {
    NoDefsNoSegments(source);
  }
}
