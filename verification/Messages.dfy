/**
 What a correct parse of a message body is, without saying how it is found
 (src/ui/styling.rs, `parse`): which spans each line gives, and where the line
 breaks go. The computed spans are the only correct ones.
 */
module Messages {
  import opened Wrappers
  import opened Chars
  import opened Text
  import opened Links
  import opened Inline
  import opened Styling

  function Flatten(pieces: seq<seq<Span>>): seq<Span> {
    if pieces == [] then [] else pieces[0] + Flatten(pieces[1..])
  }

  lemma {:induction false} FlattenSnoc(pieces: seq<seq<Span>>, last: seq<Span>)
    ensures Flatten(pieces + [last]) == Flatten(pieces) + last
  {
    if pieces == [] {
      assert Flatten([last]) == last + Flatten([]) by { assert [last][1..] == []; }
    } else {
      FlattenSnoc(pieces[1..], last);
      assert (pieces + [last])[1..] == pieces[1..] + [last];
    }
  }

  // ---------------------------------------------------------------------
  // One line
  // ---------------------------------------------------------------------

  predicate StartsAsQuote(line: string) {
    |line| >= 2 && line[0] == '>' && line[1] == ' '
  }

  /** A URL is one link; other text is styled. */
  predicate IsSegmentStyling(segment: Segment, spans: seq<Span>) {
    if segment.isUrl then spans == [Span(segment.text, Link)] else IsStyling(segment.text, 0, spans)
  }

  predicate AreSegmentStylings(segments: seq<Segment>, pieces: seq<seq<Span>>) {
    |pieces| == |segments| && forall k | 0 <= k < |segments| :: IsSegmentStyling(segments[k], pieces[k])
  }

  ghost predicate SplitAndStyled(line: string, spans: seq<Span>, segments: seq<Segment>, pieces: seq<seq<Span>>) {
    IsUrlSplit(line, 0, segments) && AreSegmentStylings(segments, pieces) && spans == Flatten(pieces)
  }

  /** A quoted line is one quote without its mark; any other line is split on URLs before it is styled. */
  ghost predicate IsLineStyling(line: string, spans: seq<Span>) {
    if StartsAsQuote(line) then spans == [Span(line[2..], Quote)]
    else exists segments, pieces :: SplitAndStyled(line, spans, segments, pieces)
  }

  lemma QuoteLineStart(line: string)
    ensures IsQuoteLine(line) <==> StartsAsQuote(line)
  {
    assert |line| >= 2 ==> line[..2] == [line[0], line[1]];
  }

  lemma SegmentCharacterised(segment: Segment, spans: seq<Span>)
    ensures IsSegmentStyling(segment, spans) <==> spans == SegmentSpans(segment)
  {
    StylingCharacterised(segment.text, spans);
    hide IsStyling, InlineSpans;
  }

  function SegmentPieces(segments: seq<Segment>): (r: seq<seq<Span>>)
    ensures |r| == |segments| && forall k | 0 <= k < |segments| :: r[k] == SegmentSpans(segments[k])
  {
    seq(|segments|, k requires 0 <= k < |segments| => SegmentSpans(segments[k]))
  }

  lemma {:induction false} SegmentsFlatten(segments: seq<Segment>)
    ensures SegmentsSpans(segments) == Flatten(SegmentPieces(segments))
  {
    hide SegmentSpans;
    if segments != [] {
      SegmentsFlatten(segments[1..]);
      assert SegmentPieces(segments)[1..] == SegmentPieces(segments[1..]);
    }
  }

  /** The spans of a line are the only ones that style it. */
  lemma LineCharacterised(line: string, spans: seq<Span>)
    ensures IsLineStyling(line, spans) <==> spans == LineSpans(line)
  {
    hide IsUrlSplit, IsSegmentStyling, Flatten, SegmentsSpans, SegmentPieces, IsQuoteLine, StartsAsQuote;
    QuoteLineStart(line);
    if !StartsAsQuote(line) {
      var segments := Segments(line);
      SplitCharacterised(line, segments);
      SegmentsFlatten(segments);
      PiecesCharacterised(segments, SegmentPieces(segments));
      assert spans == LineSpans(line) ==> SplitAndStyled(line, spans, segments, SegmentPieces(segments));
      if IsLineStyling(line, spans) {
        var others, pieces :| SplitAndStyled(line, spans, others, pieces);
        SplitCharacterised(line, others);
        PiecesCharacterised(others, pieces);
      }
    } else {
      QuoteWidth(line);
    }
  }

  lemma QuoteWidth(line: string)
    requires StartsAsQuote(line)
    ensures |line| >= 2
  {}

  lemma PiecesCharacterised(segments: seq<Segment>, pieces: seq<seq<Span>>)
    ensures AreSegmentStylings(segments, pieces) <==> pieces == SegmentPieces(segments)
  {
    hide IsSegmentStyling, SegmentSpans;
    forall segment, spans ensures IsSegmentStyling(segment, spans) <==> spans == SegmentSpans(segment) {
      SegmentCharacterised(segment, spans);
    }
  }

  /** A line becomes a quote exactly if it starts as one, and then is nothing else. */
  lemma QuotesAreQuotedLines(line: string)
    ensures StartsAsQuote(line) ==> LineSpans(line) == [Span(line[2..], Quote)]
    ensures !StartsAsQuote(line) ==> forall k | 0 <= k < |LineSpans(line)| :: LineSpans(line)[k].style != Quote
  {
    QuoteLineStart(line);
    SegmentsHaveNoQuote(Segments(line));
    hide SegmentsSpans, Segments;
  }

  lemma {:induction false} SegmentsHaveNoQuote(segments: seq<Segment>)
    ensures forall k | 0 <= k < |SegmentsSpans(segments)| :: SegmentsSpans(segments)[k].style != Quote
  {
    hide InlineSpans;
    if segments != [] {
      SegmentsHaveNoQuote(segments[1..]);
      InlineStylesOnly(segments[0].text);
    }
  }

  // ---------------------------------------------------------------------
  // Line breaks
  // ---------------------------------------------------------------------

  /** A span without the newlines at its end. */
  function CoreOf(span: Span): Span { Span(Core(span.text), span.style) }

  function CoresOf(spans: seq<Span>): (r: seq<Span>)
    ensures |r| == |spans| && forall k | 0 <= k < |spans| :: r[k] == CoreOf(spans[k])
  {
    seq(|spans|, k requires 0 <= k < |spans| => CoreOf(spans[k]))
  }

  function LinePieces(lines: seq<string>): (r: seq<seq<Span>>)
    ensures |r| == |lines| && forall k | 0 <= k < |lines| :: r[k] == LineSpans(lines[k])
  {
    seq(|lines|, k requires 0 <= k < |lines| => LineSpans(lines[k]))
  }

  /** The line break after an empty first line has no span to go to, and gets one of its own. */
  function Blank(lines: seq<string>): seq<Span> {
    if |lines| > 1 && lines[0] == "" then [Span("", Plain)] else []
  }

  lemma CoresOfPushed(spans: seq<Span>)
    ensures CoresOf(PushNewline(spans)) == if spans == [] then [Span("", Plain)] else CoresOf(spans)
  {
    if spans == [] {
      CorePushNewline("");
      assert "" + "\n" == "\n";
      assert Core("\n") == Core("") == "";
    } else {
      var n := |spans| - 1;
      CorePushNewline(spans[n].text);
    }
  }

  lemma CoresOfLine(line: string)
    requires !HasNewline(line)
    ensures CoresOf(LineSpans(line)) == LineSpans(line)
    ensures LineSpans(line) == [] <==> line == ""
  {
    LineRendersBack(line);
    EmptyLineHasNoSpans();
    RenderNothing();
    var spans := LineSpans(line);
    assert [""][..0] == [] && LinesSpans([""]) == LineSpans("");
    hide LineSpans, LinesSpans;
    forall k | 0 <= k < |spans| ensures CoreOf(spans[k]) == spans[k] {
      CoreNoNewline(spans[k].text);
    }
  }

  lemma CoresOfAppend(a: seq<Span>, b: seq<Span>)
    ensures CoresOf(a + b) == CoresOf(a) + CoresOf(b)
  {
    hide CoreOf;
  }

  lemma LinePiecesSnoc(lines: seq<string>, last: string)
    ensures LinePieces(lines + [last]) == LinePieces(lines) + [LineSpans(last)]
    ensures LinePieces([]) == []
  {
    hide LineSpans;
  }

  lemma LinesSpansOne(line: string)
    ensures LinesSpans([line]) == LineSpans(line) && LinesSpans([]) == []
  {
    hide LineSpans;
    assert [line][..0] == [];
  }

  lemma LinesSpansSnoc(lines: seq<string>, last: string)
    requires lines != []
    ensures LinesSpans(lines + [last]) == PushNewline(LinesSpans(lines)) + LineSpans(last)
  {
    hide LineSpans, PushNewline;
    assert (lines + [last])[..|lines|] == lines;
  }

  lemma {:induction false} CoresOfLines(lines: seq<string>)
    requires forall k | 0 <= k < |lines| :: !HasNewline(lines[k])
    ensures CoresOf(LinesSpans(lines)) == Blank(lines) + Flatten(LinePieces(lines))
    ensures LinesSpans(lines) == [] <==> lines == [] || lines == [""]
  {
    hide LineSpans, LinesSpans, PushNewline, Flatten, LinePieces, CoresOf, HasNewline, Blank;
    if lines == [] {
      CoresOfNoLine();
    } else if |lines| == 1 {
      CoresOfOneLine(lines[0]);
      assert lines == [lines[0]];
    } else {
      var n := |lines| - 1;
      assert lines == lines[..n] + [lines[n]];
      CoresOfLines(lines[..n]);
      CoresOfMoreLines(lines[..n], lines[n]);
    }
  }

  lemma CoresOfNoLine()
    ensures CoresOf(LinesSpans([])) == Blank([]) + Flatten(LinePieces([])) && LinesSpans([]) == []
  {
    NoCores();
    FlattenNothing();
    LinesSpansOne("");
    LinePiecesSnoc([], "");
  }

  lemma CoresOfOneLine(line: string)
    requires !HasNewline(line)
    ensures CoresOf(LinesSpans([line])) == Blank([line]) + Flatten(LinePieces([line]))
    ensures LinesSpans([line]) == [] <==> line == ""
  {
    hide LineSpans, LinesSpans, Flatten, LinePieces, CoresOf, HasNewline;
    CoresOfLine(line);
    LinesSpansOne(line);
    LinePiecesSnoc([], line);
    FlattenNothing();
    FlattenSnoc([], LineSpans(line));
    assert [] + [line] == [line];
    assert [] + [LineSpans(line)] == [LineSpans(line)] && [] + LineSpans(line) == LineSpans(line);
  }

  lemma CoresOfMoreLines(before: seq<string>, last: string)
    requires before != [] && !HasNewline(last)
    requires CoresOf(LinesSpans(before)) == Blank(before) + Flatten(LinePieces(before))
    requires LinesSpans(before) == [] <==> before == [""]
    ensures CoresOf(LinesSpans(before + [last])) == Blank(before + [last]) + Flatten(LinePieces(before + [last]))
    ensures LinesSpans(before + [last]) != []
  {
    hide LineSpans, LinesSpans, PushNewline, Flatten, LinePieces, CoresOf, HasNewline, Blank;
    var pushed, pieces, spans := PushNewline(LinesSpans(before)), Flatten(LinePieces(before)), LineSpans(last);
    CoresOfLine(last);
    CoresOfPushed(LinesSpans(before));
    PushedIsNotEmpty(LinesSpans(before));
    LinesSpansSnoc(before, last);
    CoresOfAppend(pushed, spans);
    LinePiecesSnoc(before, last);
    FlattenSnoc(LinePieces(before), spans);
    BlankSnoc(before, last);
    NoCores();
    assert CoresOf(pushed) == Blank(before + [last]) + pieces;
    Associative(Blank(before + [last]), pieces, spans);
  }

  lemma Associative(a: seq<Span>, b: seq<Span>, c: seq<Span>)
    ensures (a + b) + c == a + (b + c)
  {}

  lemma NoCores()
    ensures CoresOf([]) == []
  {}

  /** Only the line break after an empty first line is blank. */
  lemma BlankSnoc(lines: seq<string>, last: string)
    requires lines != []
    ensures Blank(lines + [last]) == if lines == [""] then [Span("", Plain)] else Blank(lines)
  {
    assert |lines| == 1 ==> lines == [lines[0]];
    assert (lines + [last])[0] == lines[0];
  }

  lemma FlattenNothing()
    ensures Flatten([]) == []
  {}

  lemma PushedIsNotEmpty(spans: seq<Span>)
    ensures PushNewline(spans) != []
  {}

  // ---------------------------------------------------------------------
  // Uniqueness
  // ---------------------------------------------------------------------

  /** The core takes space in the message and has no line break in it. */
  predicate IsVisible(core: Span) {
    Marked(core) != "" && !HasNewline(core.text)
  }

  lemma {:induction false} TailIsNewlines(text: string)
    ensures forall k | CoreLength(text) <= k < |text| :: text[k] == '\n'
  {
    if text != "" && text[|text| - 1] == '\n' {
      TailIsNewlines(text[..|text| - 1]);
    }
  }

  /** Newlines in front of something that begins otherwise are determined by the whole. */
  lemma NewlinesMatch(x: string, y: string, a: string, b: string)
    requires x + a == y + b
    requires forall k | 0 <= k < |x| :: x[k] == '\n'
    requires forall k | 0 <= k < |y| :: y[k] == '\n'
    requires a == "" || a[0] != '\n'
    requires b == "" || b[0] != '\n'
    ensures x == y && a == b
  {
    var whole := x + a;
    assert |x| < |whole| ==> whole[|x|] == a[0];
    assert |y| < |whole| ==> whole[|y|] == (y + b)[|y|] == b[0];
    assert |x| == |y|;
    assert x == whole[..|x|] == y && a == whole[|x|..] == b;
  }

  lemma RenderedHead(span: Span)
    requires IsVisible(CoreOf(span))
    ensures Rendered(span) != "" && Rendered(span)[0] != '\n'
  {
    var core := CoreOf(span);
    assert core.style == Plain || core.style == Link ==> Marked(core) == core.text;
    assert Marked(core)[0] != '\n';
  }

  lemma RenderCons(first: Span, rest: seq<Span>)
    ensures Render([first] + rest) == Marked(CoreOf(first)) + (first.text[CoreLength(first.text)..] + Render(rest))
  {
    RenderAppend([first], rest);
    RenderOne(first);
    hide Render, Core, CoreLength;
  }

  lemma RenderedFirst(spans: seq<Span>)
    requires spans != [] ==> IsVisible(CoreOf(spans[0]))
    ensures Render(spans) == "" || Render(spans)[0] != '\n'
  {
    RenderNothing();
    if spans != [] {
      RenderedHead(spans[0]);
      RenderAppend([spans[0]], spans[1..]);
      RenderOne(spans[0]);
      assert [spans[0]] + spans[1..] == spans;
      hide Render, Rendered, IsVisible;
    }
  }

  /** Spans are determined by their cores and by the text they render to. */
  lemma {:induction false} CoresAndTextDetermine(a: seq<Span>, b: seq<Span>)
    requires CoresOf(a) == CoresOf(b) && Render(a) == Render(b)
    requires forall k | 0 < k < |a| :: IsVisible(CoreOf(a[k]))
    ensures a == b
  {
    hide Render, IsVisible, Core, CoreLength, Marked;
    assert |a| == |CoresOf(a)| == |b|;
    if a != [] {
      var ra, rb := a[1..], b[1..];
      assert a == [a[0]] + ra && b == [b[0]] + rb;
      forall k | 0 <= k < |a| ensures CoreOf(a[k]) == CoreOf(b[k]) {
        assert CoresOf(a)[k] == CoresOf(b)[k];
      }
      RenderCons(a[0], ra);
      RenderCons(b[0], rb);
      RenderedFirst(ra);
      RenderedFirst(rb);
      TailIsNewlines(a[0].text);
      TailIsNewlines(b[0].text);
      var x, y := a[0].text[CoreLength(a[0].text)..], b[0].text[CoreLength(b[0].text)..];
      AfterPrefix(Marked(CoreOf(a[0])), x + Render(ra), y + Render(rb));
      NewlinesMatch(x, y, Render(ra), Render(rb));
      TextIsCoreAndTail(a[0]);
      TextIsCoreAndTail(b[0]);
      assert CoresOf(ra) == CoresOf(rb);
      CoresAndTextDetermine(ra, rb);
    }
  }

  lemma AfterPrefix(prefix: string, a: string, b: string)
    requires prefix + a == prefix + b
    ensures a == b
  {
    assert (prefix + a)[|prefix|..] == a && (prefix + b)[|prefix|..] == b;
  }

  lemma TextIsCoreAndTail(span: Span)
    ensures span.text == CoreOf(span).text + span.text[CoreLength(span.text)..]
  {}

  // ---------------------------------------------------------------------
  // Whole messages
  // ---------------------------------------------------------------------

  ghost predicate AreLineStylings(lines: seq<string>, pieces: seq<seq<Span>>) {
    |pieces| == |lines| && forall k | 0 <= k < |lines| :: IsLineStyling(lines[k], pieces[k])
  }

  /**
   The spans render to the text of the message, and without the newlines at their ends
   they are the spans of its lines, after one for the break of an empty first line.
   */
  ghost predicate IsParse(input: string, spans: seq<Span>) {
    && Render(spans) == Normalise(input)
    && exists pieces :: AreLineStylings(Lines(input), pieces) && CoresOf(spans) == Blank(Lines(input)) + Flatten(pieces)
  }

  lemma LinesCharacterised(lines: seq<string>, pieces: seq<seq<Span>>)
    ensures AreLineStylings(lines, pieces) <==> pieces == LinePieces(lines)
  {
    hide IsLineStyling, LineSpans;
    forall line, spans ensures IsLineStyling(line, spans) <==> spans == LineSpans(line) {
      LineCharacterised(line, spans);
    }
  }

  /** The parser computes the one and only correct list of spans, for every message. */
  lemma ParseCharacterised(input: string, spans: seq<Span>)
    ensures IsParse(input, spans) <==> spans == Spans(input)
  {
    hide Render, Normalise, Lines, CoresOf, Blank, Flatten, LinesSpans, AreLineStylings, LinePieces, IsVisible;
    var lines := Lines(input);
    ParseIsLossless(input);
    CoresOfLines(lines);
    LinesCharacterised(lines, LinePieces(lines));
    if IsParse(input, spans) {
      var pieces :| AreLineStylings(lines, pieces) && CoresOf(spans) == Blank(lines) + Flatten(pieces);
      LinesCharacterised(lines, pieces);
      SpansAreVisible(input);
      CoresAndTextDetermine(Spans(input), spans);
    }
  }

  lemma SpansAreVisible(input: string)
    ensures forall k | 0 < k < |Spans(input)| :: IsVisible(CoreOf(Spans(input)[k]))
  {
    var lines := Lines(input);
    CoresOfLines(lines);
    PiecesAreVisible(lines);
    hide IsVisible, LinesSpans, LinePieces, Flatten;
    var spans, cores := Spans(input), CoresOf(Spans(input));
    forall k | 0 < k < |spans| ensures IsVisible(CoreOf(spans[k])) {
      assert cores[k] == CoreOf(spans[k]);
      assert cores[k] == Flatten(LinePieces(lines))[k - |Blank(lines)|];
    }
  }

  lemma {:induction false} PiecesAreVisible(lines: seq<string>)
    requires forall k | 0 <= k < |lines| :: !HasNewline(lines[k])
    ensures forall k | 0 <= k < |Flatten(LinePieces(lines))| :: IsVisible(Flatten(LinePieces(lines))[k])
  {
    hide IsVisible, LineSpans;
    if lines != [] {
      PiecesAreVisible(lines[1..]);
      LineIsVisible(lines[0]);
      assert LinePieces(lines)[1..] == LinePieces(lines[1..]);
    }
  }

  lemma LineIsVisible(line: string)
    requires !HasNewline(line)
    ensures forall k | 0 <= k < |LineSpans(line)| :: IsVisible(LineSpans(line)[k])
  {
    LineRendersBack(line);
    if !IsQuoteLine(line) {
      SplitCharacterised(line, Segments(line));
      SegmentsAreMarked(line, 0, Segments(line));
    }
    hide Render, Marked, HasNewline, SegmentsSpans;
    assert IsQuoteLine(line) ==> Marked(Span(line[2..], Quote)) != "" by { QuoteIsMarked(line); }
  }

  lemma QuoteIsMarked(line: string)
    ensures IsQuoteLine(line) ==> Marked(Span(line[2..], Quote)) != ""
  {}

  lemma {:induction false} SegmentsAreMarked(line: string, at: nat, segments: seq<Segment>)
    requires IsUrlSplit(line, at, segments)
    ensures forall k | 0 <= k < |SegmentsSpans(segments)| :: Marked(SegmentsSpans(segments)[k]) != ""
    decreases |segments|
  {
    hide Marked, SegmentSpans;
    if segments != [] {
      SegmentsAreMarked(line, at + |segments[0].text|, segments[1..]);
      SegmentIsMarked(segments[0]);
    }
  }

  lemma SegmentIsMarked(segment: Segment)
    requires segment.text != ""
    ensures forall k | 0 <= k < |SegmentSpans(segment)| :: Marked(SegmentSpans(segment)[k]) != ""
  {
    if segment.isUrl {
      assert Marked(Span(segment.text, Link)) == segment.text;
    } else {
      InlineIsAStyling(segment.text, 0);
      StylingIsMarked(segment.text, 0, InlineSpans(segment.text));
    }
  }

  lemma {:induction false} StylingIsMarked(chars: string, at: nat, spans: seq<Span>)
    requires IsStyling(chars, at, spans)
    ensures forall k | 0 <= k < |spans| :: Marked(spans[k]) != ""
    decreases |spans|
  {
    hide Marked, SpanOk;
    if spans != [] {
      SpanOkOccurs(chars, at, spans[0]);
      StylingIsMarked(chars, at + |Marked(spans[0])|, spans[1..]);
      assert forall k | 0 < k < |spans| :: spans[k] == spans[1..][k - 1];
    }
  }

  // ---------------------------------------------------------------------
  // Quotes
  // ---------------------------------------------------------------------

  function QuoteTexts(spans: seq<Span>): seq<string> {
    if spans == [] then []
    else QuoteText(spans[0]) + QuoteTexts(spans[1..])
  }

  /** The lines that start as quotes, without their marks. */
  function QuotedTexts(lines: seq<string>): seq<string> {
    if lines == [] then []
    else (if StartsAsQuote(lines[0]) then [lines[0][2..]] else []) + QuotedTexts(lines[1..])
  }

  function QuoteText(span: Span): seq<string> {
    if span.style == Quote then [span.text] else []
  }

  lemma QuoteTextsCons(first: Span, rest: seq<Span>)
    ensures QuoteTexts([first] + rest) == QuoteText(first) + QuoteTexts(rest)
  {
    assert ([first] + rest)[1..] == rest;
  }

  lemma NoneQuoted()
    ensures QuoteTexts([]) == []
  {}

  lemma {:induction false} QuoteTextsAppend(a: seq<Span>, b: seq<Span>)
    ensures QuoteTexts(a + b) == QuoteTexts(a) + QuoteTexts(b)
  {
    hide QuoteTexts, QuoteText;
    if a == [] {
      NoneQuoted();
      assert a + b == b;
    } else {
      QuoteTextsAppend(a[1..], b);
      QuoteTextsCons(a[0], a[1..]);
      QuoteTextsCons(a[0], a[1..] + b);
      assert a == [a[0]] + a[1..] && a + b == [a[0]] + (a[1..] + b);
    }
  }

  lemma {:induction false} NoQuoteTexts(spans: seq<Span>)
    requires forall k | 0 <= k < |spans| :: spans[k].style != Quote
    ensures QuoteTexts(spans) == []
  {
    if spans != [] {
      NoQuoteTexts(spans[1..]);
    }
  }

  lemma {:induction false} QuotesOfLines(lines: seq<string>)
    ensures QuoteTexts(Flatten(LinePieces(lines))) == QuotedTexts(lines)
  {
    hide LineSpans;
    if lines != [] {
      QuotesOfLines(lines[1..]);
      assert LinePieces(lines)[1..] == LinePieces(lines[1..]);
      QuoteTextsAppend(LineSpans(lines[0]), Flatten(LinePieces(lines[1..])));
      QuotesAreQuotedLines(lines[0]);
      if StartsAsQuote(lines[0]) {
        var quote := Span(lines[0][2..], Quote);
        assert QuoteTexts([quote]) == [quote.text] + QuoteTexts([quote][1..]) == [quote.text];
      } else {
        NoQuoteTexts(LineSpans(lines[0]));
      }
    }
  }

  /** The quotes of a message are its quoted lines, in order, each without its mark. */
  lemma QuotesAreExact(input: string)
    ensures QuoteTexts(CoresOf(Spans(input))) == QuotedTexts(Lines(input))
  {
    hide Flatten, LinePieces, LinesSpans, Lines, QuotedTexts;
    CoresOfLines(Lines(input));
    QuotesOfLines(Lines(input));
    QuoteTextsAppend(Blank(Lines(input)), Flatten(LinePieces(Lines(input))));
    NoQuoteTexts(Blank(Lines(input)));
  }
}
