/**
 * The extractor's test documents run through the mock parser: the
 * width/height document and a document without `<defs>`. The documents
 * are assembled from short pieces, and the scan is followed one stretch
 * at a time, each stretch in a lemma of its own.
 */
module ExtractorExample {
  import opened Wrappers
  import opened Text
  import opened MockDomParser
  import opened ParseFileContents

  const Width := "<param name=\"width\" value=\"100\"/>"
  const Height := "<param name=\"height\" value=\"200\"/>"
  const Segment := "<defs>" + Width + Height + "</defs>"
  const RectStart := "<rect parametric:width=\"width\""
  const RectEnd := " parametric:height=\"height\"/>"
  const Document := "<svg>" + Segment + RectStart + RectEnd + "</svg>"

  // ---------------------------------------------------------------------
  // Where the pieces lie

  /** A stretch of the front piece of a concatenation. */
  lemma InFront(x: string, y: string, i: nat, j: nat)
    requires i <= j <= |x|
    ensures (x + y)[i..j] == x[i..j]
  {
    forall k | 0 <= k < j - i ensures (x + y)[i..j][k] == x[i..j][k] {
      assert (x + y)[i + k] == x[i + k];
    }
  }

  /** The back piece of a concatenation. */
  lemma AtBack(x: string, y: string)
    ensures (x + y)[|x|..|x| + |y|] == y
  {
    forall k | 0 <= k < |y| ensures (x + y)[|x|..|x| + |y|][k] == y[k] {
      assert (x + y)[|x| + k] == y[k];
    }
  }

  lemma SegmentPieces()
    ensures Segment[6..39] == Width && Segment[39..73] == Height
  {
    InFront(DefsOpen + Width + Height, DefsClose, 6, 39);
    InFront(DefsOpen + Width, Height, 6, 39);
    AtBack(DefsOpen, Width);
    InFront(DefsOpen + Width + Height, DefsClose, 39, 73);
    AtBack(DefsOpen + Width, Height);
  }

  lemma SegmentEnds()
    ensures StartsAt(Segment, 0, DefsOpen) && StartsAt(Segment, 73, DefsClose)
  {
    InFront(DefsOpen + Width + Height, DefsClose, 0, 6);
    InFront(DefsOpen + Width, Height, 0, 6);
    InFront(DefsOpen, Width, 0, 6);
    assert DefsOpen[0..6] == DefsOpen;
    AtBack(DefsOpen + Width + Height, DefsClose);
  }

  lemma DocumentPieces()
    ensures Document[5..85] == Segment
    ensures Document[85..115] == RectStart && Document[115..144] == RectEnd
  {
    DocumentHoldsSegment();
    DocumentHoldsRect();
  }

  lemma DocumentHoldsSegment()
    ensures Document[5..85] == Segment
  {
    var front := "<svg>" + Segment;
    InFront(front + RectStart + RectEnd, "</svg>", 5, 85);
    InFront(front + RectStart, RectEnd, 5, 85);
    InFront(front, RectStart, 5, 85);
    AtBack("<svg>", Segment);
  }

  lemma DocumentHoldsRect()
    ensures Document[85..115] == RectStart && Document[115..144] == RectEnd
  {
    var front := "<svg>" + Segment;
    InFront(front + RectStart + RectEnd, "</svg>", 85, 115);
    InFront(front + RectStart, RectEnd, 85, 115);
    AtBack(front, RectStart);
    InFront(front + RectStart + RectEnd, "</svg>", 115, 144);
    AtBack(front + RectStart, RectEnd);
  }

  /** A piece placed at `at` agrees with `s` character by character. */
  lemma Placed(s: string, at: nat, piece: string)
    requires at + |piece| <= |s| && s[at..at + |piece|] == piece
    ensures forall k :: 0 <= k < |piece| ==> s[at + k] == piece[k]
  {
    forall k | 0 <= k < |piece| ensures s[at + k] == piece[k] {
      assert s[at..at + |piece|][k] == s[at + k];
    }
  }

  /** A literal at `i` of a piece placed at `at` is at `at + i` of `s`. */
  lemma StartsAtPlaced(s: string, at: nat, piece: string, i: nat, lit: string)
    requires at + |piece| <= |s| && s[at..at + |piece|] == piece
    requires StartsAt(piece, i, lit)
    ensures StartsAt(s, at + i, lit)
  {
    Placed(s, at, piece);
    forall k | 0 <= k < |lit| ensures s[at + i + k] == lit[k] {
      assert piece[i..i + |lit|][k] == piece[i + k];
    }
    StartsAtChars(s, at + i, lit);
  }

  lemma AvoidsInside(s: string, at: nat, piece: string, lo: nat, c: char)
    requires at + |piece| <= |s| && s[at..at + |piece|] == piece
    requires lo <= |piece| && Avoids(piece, lo, |piece|, c)
    ensures Avoids(s, at + lo, at + |piece|, c)
  {
    Placed(s, at, piece);
    forall k | at + lo <= k < at + |piece| ensures s[k] != c {
      assert s[at + (k - at)] == piece[k - at];
    }
  }

  /** A self-closing param tag placed at `at` is matched exactly. */
  lemma ParamTagAt(s: string, at: nat, tag: string)
    requires at + |tag| <= |s| && s[at..at + |tag|] == tag
    requires |ParamOpen| < |tag| - |SelfClose|
    requires StartsAt(tag, 0, ParamOpen) && WordBoundary(tag, |ParamOpen|)
    requires StartsAt(tag, |tag| - |SelfClose|, SelfClose)
    requires forall k :: |ParamOpen| <= k < |tag| - |SelfClose| ==> tag[k] != '/' && !IsLineTerminator(tag[k])
    ensures MatchAt(ParamPattern, s, at) == Some(at + |tag|)
  {
    Placed(s, at, tag);
    StartsAtPlaced(s, at, tag, 0, ParamOpen);
    StartsAtPlaced(s, at, tag, |tag| - |SelfClose|, SelfClose);
    assert s[at + 5] == tag[5] && s[at + 6] == tag[6];
    var close := at + |tag| - |SelfClose|;
    forall k | at + |ParamOpen| <= k < close ensures s[k] != '/' && !IsLineTerminator(s[k]) {
      assert s[at + (k - at)] == tag[k - at];
    }
    ParamMatchIs(s, at, close);
  }

  /** A `<defs>...</defs>` segment placed at `at`, on a line running to the
      end of `s` with no `</defs>` after it, is matched exactly. */
  lemma DefsSegmentAt(s: string, at: nat, segment: string)
    requires at + |segment| <= |s| && s[at..at + |segment|] == segment
    requires |DefsOpen| + |DefsClose| <= |segment|
    requires StartsAt(segment, 0, DefsOpen) && StartsAt(segment, |segment| - |DefsClose|, DefsClose)
    requires OnOneLine(s, at + |DefsOpen|, |s|)
    requires forall c :: at + |segment| - |DefsClose| < c && c + |DefsClose| <= |s| ==> !StartsAt(s, c, DefsClose)
    ensures MatchAt(DefsPattern, s, at) == Some(at + |segment|)
  {
    StartsAtPlaced(s, at, segment, 0, DefsOpen);
    StartsAtPlaced(s, at, segment, |segment| - |DefsClose|, DefsClose);
    DefsMatchIs(s, at, at + |segment| - |DefsClose|);
  }

  lemma WidthTag()
    ensures StartsAt(Width, 0, ParamOpen) && WordBoundary(Width, 6)
    ensures StartsAt(Width, 31, SelfClose)
    ensures forall k :: 6 <= k < 31 ==> Width[k] != '/' && !IsLineTerminator(Width[k])
  {
    StartsAtChars(Width, 0, ParamOpen);
    StartsAtChars(Width, 31, SelfClose);
  }

  lemma HeightTag()
    ensures StartsAt(Height, 0, ParamOpen) && WordBoundary(Height, 6)
    ensures StartsAt(Height, 32, SelfClose)
    ensures forall k :: 6 <= k < 32 ==> Height[k] != '/' && !IsLineTerminator(Height[k])
  {
    StartsAtChars(Height, 0, ParamOpen);
    StartsAtChars(Height, 32, SelfClose);
  }

  // ---------------------------------------------------------------------
  // The attributes of the two tags

  lemma WidthName()
    ensures AttributeFrom(Width, "name", 0) == Some("width")
  {
    WidthNameKey();
    WidthNameText();
    AttributeIs(Width, "name", 7, 18);
  }

  lemma WidthNameKey()
    ensures forall k :: 0 <= k < 7 ==> Width[k] != 'n'
    ensures WordBoundary(Width, 7) && StartsAt(Width, 7, "name" + "=\"")
  {
    StartsAtChars(Width, 7, "name" + "=\"");
  }

  lemma WidthNameText()
    ensures Width[18] == '"'
    ensures forall k :: 13 <= k < 18 ==> Width[k] != '"' && !IsLineTerminator(Width[k])
    ensures Width[13..18] == "width"
  {
    StartsAtChars(Width, 13, "width");
  }

  lemma WidthValue()
    ensures AttributeFrom(Width, "value", 0) == Some("100")
  {
    WidthValueKey();
    WidthValueText();
    AttributeIs(Width, "value", 20, 30);
  }

  lemma WidthValueKey()
    ensures forall k :: 0 <= k < 20 ==> Width[k] != 'v'
    ensures WordBoundary(Width, 20) && StartsAt(Width, 20, "value" + "=\"")
  {
    StartsAtChars(Width, 20, "value" + "=\"");
  }

  lemma WidthValueText()
    ensures Width[30] == '"'
    ensures forall k :: 27 <= k < 30 ==> Width[k] != '"' && !IsLineTerminator(Width[k])
    ensures Width[27..30] == "100"
  {
    StartsAtChars(Width, 27, "100");
  }

  lemma HeightName()
    ensures AttributeFrom(Height, "name", 0) == Some("height")
  {
    HeightNameKey();
    HeightNameText();
    AttributeIs(Height, "name", 7, 19);
  }

  lemma HeightNameKey()
    ensures forall k :: 0 <= k < 7 ==> Height[k] != 'n'
    ensures WordBoundary(Height, 7) && StartsAt(Height, 7, "name" + "=\"")
  {
    StartsAtChars(Height, 7, "name" + "=\"");
  }

  lemma HeightNameText()
    ensures Height[19] == '"'
    ensures forall k :: 13 <= k < 19 ==> Height[k] != '"' && !IsLineTerminator(Height[k])
    ensures Height[13..19] == "height"
  {
    StartsAtChars(Height, 13, "height");
  }

  lemma HeightValue()
    ensures AttributeFrom(Height, "value", 0) == Some("200")
  {
    HeightValueKey();
    HeightValueText();
    AttributeIs(Height, "value", 21, 31);
  }

  lemma HeightValueKey()
    ensures forall k :: 0 <= k < 21 ==> Height[k] != 'v'
    ensures WordBoundary(Height, 21) && StartsAt(Height, 21, "value" + "=\"")
  {
    StartsAtChars(Height, 21, "value" + "=\"");
  }

  lemma HeightValueText()
    ensures Height[31] == '"'
    ensures forall k :: 28 <= k < 31 ==> Height[k] != '"' && !IsLineTerminator(Height[k])
    ensures Height[28..31] == "200"
  {
    StartsAtChars(Height, 28, "200");
  }

  // ---------------------------------------------------------------------
  // The param tags of the segment

  lemma SegmentOpening()
    ensures MatchAll(ParamPattern, Segment, 0) == MatchAll(ParamPattern, Segment, 6)
  {
    NotStartsAt(Segment, 0, ParamOpen, 1);
    MatchAllPast(ParamPattern, Segment, 0, 6);
  }

  lemma SegmentWidth()
    ensures MatchAt(ParamPattern, Segment, 6) == Some(39) && Segment[6..39] == Width
  {
    SegmentPieces();
    WidthTag();
    ParamTagAt(Segment, 6, Width);
  }

  lemma SegmentHeight()
    ensures MatchAt(ParamPattern, Segment, 39) == Some(73) && Segment[39..73] == Height
  {
    SegmentPieces();
    HeightTag();
    ParamTagAt(Segment, 39, Height);
  }

  lemma SegmentClosing()
    ensures MatchAll(ParamPattern, Segment, 73) == []
  {
    NotStartsAt(Segment, 73, ParamOpen, 1);
    MatchAllPast(ParamPattern, Segment, 73, 80);
  }

  /** `/<param\b.*?\/>/g` finds the two tags of the segment, in order. */
  lemma SegmentParams()
    ensures MatchAll(ParamPattern, Segment, 0) == [Width, Height]
  {
    SegmentOpening();
    SegmentWidth();
    SegmentHeight();
    SegmentClosing();
  }

  // ---------------------------------------------------------------------
  // The defs segment of the document

  lemma SegmentOnOneLine()
    ensures OnOneLine(Segment, 0, |Segment|)
  {
    assert OnOneLine(Width, 0, |Width|) && OnOneLine(Height, 0, |Height|);
    OnOneLineAppend("<defs>", Width);
    OnOneLineAppend("<defs>" + Width, Height);
    OnOneLineAppend("<defs>" + Width + Height, "</defs>");
  }

  lemma DocumentOnOneLine()
    ensures OnOneLine(Document, 0, |Document|)
  {
    SegmentOnOneLine();
    assert OnOneLine(RectStart, 0, |RectStart|) && OnOneLine(RectEnd, 0, |RectEnd|);
    OnOneLineAppend("<svg>", Segment);
    OnOneLineAppend("<svg>" + Segment, RectStart);
    OnOneLineAppend("<svg>" + Segment + RectStart, RectEnd);
    OnOneLineAppend("<svg>" + Segment + RectStart + RectEnd, "</svg>");
  }

  lemma RectText()
    ensures Avoids(Document, 86, 144, '<')
  {
    DocumentPieces();
    assert Avoids(RectStart, 1, |RectStart|, '<');
    assert Avoids(RectEnd, 0, |RectEnd|, '<');
    AvoidsInside(Document, 85, RectStart, 1, '<');
    AvoidsInside(Document, 115, RectEnd, 0, '<');
  }

  lemma DocumentOpening()
    ensures MatchAll(DefsPattern, Document, 0) == MatchAll(DefsPattern, Document, 5)
  {
    NotStartsAt(Document, 0, DefsOpen, 1);
    MatchAllPast(DefsPattern, Document, 0, 5);
  }

  /** No `</defs>` after the segment's own. */
  lemma NoLaterClose()
    ensures forall c :: 78 < c && c + |DefsClose| <= |Document| ==> !StartsAt(Document, c, DefsClose)
  {
    RectText();
    assert Avoids(Document, 79, 85, '<');
    forall c | 78 < c && c + |DefsClose| <= |Document| ensures !StartsAt(Document, c, DefsClose) {
      if c == 85 {
        NotStartsAt(Document, c, DefsClose, 1);
      } else {
        NotStartsAt(Document, c, DefsClose, 0);
      }
    }
  }

  lemma DocumentSegment()
    ensures MatchAt(DefsPattern, Document, 5) == Some(85) && Document[5..85] == Segment
  {
    DocumentPieces();
    SegmentEnds();
    DocumentOnOneLine();
    NoLaterClose();
    DefsSegmentAt(Document, 5, Segment);
  }

  lemma DocumentClosing()
    ensures MatchAll(DefsPattern, Document, 85) == []
  {
    RectText();
    NotStartsAt(Document, 85, DefsOpen, 1);
    MatchAllPast(DefsPattern, Document, 85, 144);
    NotStartsAt(Document, 144, DefsOpen, 1);
    MatchAllPast(DefsPattern, Document, 144, 150);
  }

  /** `/<defs>.*<\/defs>/g` finds the one segment of the document. */
  lemma DocumentSegments()
    ensures MatchAll(DefsPattern, Document, 0) == [Segment]
  {
    DocumentOpening();
    DocumentSegment();
    DocumentClosing();
  }

  // ---------------------------------------------------------------------
  // The tests

  lemma DocumentTags()
    ensures ParamStrings(MatchAll(DefsPattern, Document, 0)) == [Width, Height]
  {
    DocumentSegments();
    SegmentParams();
    assert [Segment][1..] == [];
  }

  lemma ReadTags()
    ensures ReadParams([Width, Height]) == [MockParam(Some("width"), Some("100")), MockParam(Some("height"), Some("200"))]
  {
    WidthName();
    WidthValue();
    HeightName();
    HeightValue();
  }

  /** The mock answers `defs param` on the width/height document with the
      two params, in document order. */
  lemma WidthHeightParams()
    ensures QuerySelectorAll(MockDocument(Document), "defs param")
      == Ok([MockParam(Some("width"), Some("100")), MockParam(Some("height"), Some("200"))])
  {
    DocumentTags();
    ReadTags();
  }

  lemma FoldWidthHeight()
    ensures Variables([ParamAttributes(Some("width"), Some("100")), ParamAttributes(Some("height"), Some("200"))])
      == map["width" := "100", "height" := "200"]
  {
    var params := [ParamAttributes(Some("width"), Some("100")), ParamAttributes(Some("height"), Some("200"))];
    assert params[..1] == [params[0]];
    assert [params[0]][..0] == [];
  }

  /** The width/height document yields width "100" and height "200". */
  lemma PullsVariables()
    ensures ParseFileContentsWithMock(Document)
      == Ok(FileContents(Document, map["width" := "100", "height" := "200"]))
  {
    WidthHeightParams();
    FoldWidthHeight();
    assert ReadMock([MockParam(Some("width"), Some("100")), MockParam(Some("height"), Some("200"))])
      == [ParamAttributes(Some("width"), Some("100")), ParamAttributes(Some("height"), Some("200"))];
  }

  const Circle := "<svg><circle r=\"5\"/></svg>"

  lemma CircleOpening()
    ensures MatchAll(DefsPattern, Circle, 0) == MatchAll(DefsPattern, Circle, 5)
  {
    NotStartsAt(Circle, 0, DefsOpen, 1);
    MatchAllPast(DefsPattern, Circle, 0, 5);
  }

  lemma CircleElement()
    ensures MatchAll(DefsPattern, Circle, 5) == MatchAll(DefsPattern, Circle, 20)
  {
    NotStartsAt(Circle, 5, DefsOpen, 1);
    MatchAllPast(DefsPattern, Circle, 5, 20);
  }

  lemma CircleClosing()
    ensures MatchAll(DefsPattern, Circle, 20) == []
  {
    NotStartsAt(Circle, 20, DefsOpen, 1);
    MatchAllPast(DefsPattern, Circle, 20, 26);
  }

  /** A document without `<defs>` yields no variables, and nothing is raised. */
  lemma NoDefsNoVariables()
    ensures ParseFileContentsWithMock(Circle) == Ok(FileContents(Circle, map[]))
  {
    CircleOpening();
    CircleElement();
    CircleClosing();
  }
}
