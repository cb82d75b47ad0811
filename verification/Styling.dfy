/**
 Parsing a message body into styled spans (src/ui/styling.rs, `parse`), and the
 theorems about the whole parser: nothing is lost, and URLs are opaque.
 */
module Styling {
  import opened Wrappers
  import opened Chars
  import opened Text
  import opened Links
  import opened Inline

  // ---------------------------------------------------------------------
  // Lines
  // ---------------------------------------------------------------------

  function SegmentSpans(segment: Segment): seq<Span> {
    if segment.isUrl then [Span(segment.text, Link)] else InlineSpans(segment.text)
  }

  function SegmentsSpans(segments: seq<Segment>): seq<Span> {
    if segments == [] then [] else SegmentSpans(segments[0]) + SegmentsSpans(segments[1..])
  }

  predicate IsQuoteLine(line: string) { "> " <= line }

  function LineSpans(line: string): seq<Span> {
    if IsQuoteLine(line) then [Span(line[2..], Quote)] else SegmentsSpans(Segments(line))
  }

  /** The newline between two lines goes to the last span, or to a span of its own. */
  function PushNewline(spans: seq<Span>): seq<Span> {
    if spans == [] then [Span("\n", Plain)]
    else
      var n := |spans| - 1;
      spans[..n] + [spans[n].(text := spans[n].text + "\n")]
  }

  function LinesSpans(lines: seq<string>): seq<Span> {
    if lines == [] then []
    else
      var n := |lines| - 1;
      (if n > 0 then PushNewline(LinesSpans(lines[..n])) else []) + LineSpans(lines[n])
  }

  /** What `Parse` computes. */
  function Spans(input: string): seq<Span> {
    LinesSpans(Lines(input))
  }

  method Parse(input: string) returns (result: seq<Span>)
    ensures result == Spans(input)
  {
    hide LinesSpans, LineSpans, Lines;
    NoLinesNoSpans();
    if input == "" {
      return [];
    }
    var out := new SpanList();
    var lines := Lines(input);
    for lineIdx := 0 to |lines|
      invariant out.spans == LinesSpans(lines[..lineIdx])
      invariant fresh(out)
    {
      var line := lines[lineIdx];
      LinesSpansStep(lines, lineIdx);
      if lineIdx > 0 {
        var last := |out.spans| - 1;
        if out.spans != [] {
          out.spans := out.spans[last := out.spans[last].(text := out.spans[last].text + "\n")];
        } else {
          out.Push(Span("\n", Plain));
        }
        assert out.spans == PushNewline(LinesSpans(lines[..lineIdx]));
      }
      ParseLine(line, out);
    }
    assert lines[..|lines|] == lines;
    result := out.spans;
  }

  lemma NoLinesNoSpans()
    ensures LinesSpans([]) == []
  {}

  lemma LinesSpansStep(lines: seq<string>, n: nat)
    requires n < |lines|
    ensures LinesSpans(lines[..n + 1])
         == (if n > 0 then PushNewline(LinesSpans(lines[..n])) else LinesSpans(lines[..n])) + LineSpans(lines[n])
  {
    assert lines[..n + 1][..n] == lines[..n];
  }

  /** The body of the loop over lines: one quoted line, or URLs first and styling between them. */
  method ParseLine(line: string, out: SpanList)
    modifies out
    ensures out.spans == old(out.spans) + LineSpans(line)
  {
    hide SegmentSpans, Segments;
    if "> " <= line {
      out.Push(Span(line[2..], Quote));
      return;
    }
    var segments := SplitUrls(line);
    for i := 0 to |segments|
      invariant out.spans + SegmentsSpans(segments[i..]) == old(out.spans) + SegmentsSpans(segments)
    {
      ghost var before := out.spans;
      PushSegment(segments[i], out);
      assert segments[i..][0] == segments[i] && segments[i..][1..] == segments[i + 1..];
      assert out.spans + SegmentsSpans(segments[i + 1..])
          == before + (SegmentSpans(segments[i]) + SegmentsSpans(segments[i + 1..]));
    }
  }

  method PushSegment(segment: Segment, out: SpanList)
    modifies out
    ensures out.spans == old(out.spans) + SegmentSpans(segment)
  {
    hide InlineSpans;
    if segment.isUrl {
      out.Push(Span(segment.text, Link));
    } else {
      ParseInline(segment.text, out);
    }
  }

  // ---------------------------------------------------------------------
  // Rendering: the inverse
  // ---------------------------------------------------------------------

  /** The length of a text without its trailing newlines. */
  function CoreLength(text: string): (n: nat)
    ensures n <= |text|
  {
    if text != "" && text[|text| - 1] == '\n' then CoreLength(text[..|text| - 1]) else |text|
  }

  function Core(text: string): string { text[..CoreLength(text)] }

  /** The source of a span: its core between its markers, then its newlines. */
  function Rendered(span: Span): string {
    Marked(Span(Core(span.text), span.style)) + span.text[CoreLength(span.text)..]
  }

  function RenderedAll(spans: seq<Span>): (r: seq<string>)
    ensures |r| == |spans| && forall k | 0 <= k < |spans| :: r[k] == Rendered(spans[k])
  {
    seq(|spans|, k requires 0 <= k < |spans| => Rendered(spans[k]))
  }

  function Render(spans: seq<Span>): string { Concat(RenderedAll(spans)) }

  lemma RenderAppend(a: seq<Span>, b: seq<Span>)
    ensures Render(a + b) == Render(a) + Render(b)
  {
    hide Rendered, Concat;
    assert RenderedAll(a + b) == RenderedAll(a) + RenderedAll(b);
    ConcatAppend(RenderedAll(a), RenderedAll(b));
  }

  lemma CorePushNewline(text: string)
    ensures CoreLength(text + "\n") == CoreLength(text) && Core(text + "\n") == Core(text)
  {
    assert (text + "\n")[..|text|] == text;
  }

  lemma CoreNoNewline(text: string)
    requires !HasNewline(text)
    ensures Core(text) == text && CoreLength(text) == |text|
  {}

  lemma RenderedPushNewline(span: Span)
    ensures Rendered(span.(text := span.text + "\n")) == Rendered(span) + "\n"
  {
    CorePushNewline(span.text);
    var n := CoreLength(span.text);
    assert (span.text + "\n")[n..] == span.text[n..] + "\n";
  }

  lemma RenderNothing()
    ensures Render([]) == ""
  {}

  lemma RenderOne(span: Span)
    ensures Render([span]) == Rendered(span)
  {
    assert RenderedAll([span]) == [Rendered(span)];
    ConcatOne(Rendered(span));
  }

  lemma RenderPushNewline(spans: seq<Span>)
    ensures Render(PushNewline(spans)) == Render(spans) + "\n"
  {
    hide Rendered;
    if spans == [] {
      RenderOne(Span("\n", Plain));
      RenderedPushNewline(Span("", Plain));
      assert "" + "\n" == "\n";
      RenderedEmpty();
    } else {
      var n := |spans| - 1;
      var last := spans[n];
      assert spans == spans[..n] + [last];
      RenderAppend(spans[..n], [last]);
      RenderAppend(spans[..n], [last.(text := last.text + "\n")]);
      RenderOne(last);
      RenderOne(last.(text := last.text + "\n"));
      RenderedPushNewline(last);
    }
  }

  lemma RenderedEmpty()
    ensures Rendered(Span("", Plain)) == ""
  {}

  // ---------------------------------------------------------------------
  // Nothing is lost
  // ---------------------------------------------------------------------

  predicate NewlineFree(spans: seq<Span>) {
    forall k | 0 <= k < |spans| :: !HasNewline(spans[k].text)
  }

  /** Without newlines in it, rendering a span is putting its markers back. */
  lemma RenderIsMarked(spans: seq<Span>)
    requires NewlineFree(spans)
    ensures Render(spans) == Concat(MarkedAll(spans))
  {
    forall k | 0 <= k < |spans| ensures Rendered(spans[k]) == Marked(spans[k]) {
      CoreNoNewline(spans[k].text);
    }
    assert RenderedAll(spans) == MarkedAll(spans);
  }

  lemma PartOfLineNewlineFree(line: string, part: string)
    requires !HasNewline(line) && Contains(line, part)
    ensures !HasNewline(part)
  {
    var i :| 0 <= i <= |line| && OccursAt(line, part, i);
    assert forall k | 0 <= k < |part| :: part[k] == line[i + k];
  }

  lemma SegmentRendersBack(segment: Segment)
    requires !HasNewline(segment.text)
    ensures NewlineFree(SegmentSpans(segment)) && Render(SegmentSpans(segment)) == segment.text
  {
    if segment.isUrl {
      RenderOne(Span(segment.text, Link));
      CoreNoNewline(segment.text);
    } else {
      var spans := InlineSpans(segment.text);
      InlineShape(segment.text);
      forall k | 0 <= k < |spans| ensures !HasNewline(spans[k].text) {
        PartOfLineNewlineFree(segment.text, spans[k].text);
      }
      RenderIsMarked(spans);
    }
  }

  lemma {:induction false} SegmentsRenderBack(line: string, at: nat, segments: seq<Segment>)
    requires !HasNewline(line) && at <= |line| && IsUrlSplit(line, at, segments)
    ensures NewlineFree(SegmentsSpans(segments)) && Render(SegmentsSpans(segments)) == line[at..]
    decreases |segments|
  {
    hide SegmentSpans, SchemeAt, UrlAt, Rendered, Render, HasNewline;
    RenderNothing();
    if segments != [] {
      var first := segments[0];
      var next := at + |first.text|;
      assert first.text == line[at..next];
      assert OccursAt(line, first.text, at) && Contains(line, first.text);
      PartOfLineNewlineFree(line, first.text);
      SegmentRendersBack(first);
      SegmentsRenderBack(line, next, segments[1..]);
      RenderAppend(SegmentSpans(first), SegmentsSpans(segments[1..]));
      assert line[at..] == line[at..next] + line[next..];
    }
  }

  lemma {:induction false} LineRendersBack(line: string)
    requires !HasNewline(line)
    ensures NewlineFree(LineSpans(line)) && Render(LineSpans(line)) == line
  {
    if IsQuoteLine(line) {
      CoreNoNewline(line[2..]);
      RenderOne(Span(line[2..], Quote));
      assert line == "> " + line[2..];
    } else {
      SplitCharacterised(line, Segments(line));
      SegmentsRenderBack(line, 0, Segments(line));
      assert line[0..] == line;
    }
  }

  lemma {:induction false} LinesRenderBack(lines: seq<string>)
    requires forall k | 0 <= k < |lines| :: !HasNewline(lines[k])
    ensures Render(LinesSpans(lines)) == Join(lines)
  {
    hide LineSpans, Rendered;
    if lines != [] {
      var n := |lines| - 1;
      var before := lines[..n];
      assert lines == before + [lines[n]];
      LinesRenderBack(before);
      LineRendersBack(lines[n]);
      JoinSnoc(before, lines[n]);
      RenderPushNewline(LinesSpans(before));
      RenderAppend(if n > 0 then PushNewline(LinesSpans(before)) else [], LineSpans(lines[n]));
    }
  }

  /** The parser has an inverse: rendering its output gives the message text back. */
  lemma {:induction false} ParseIsLossless(input: string)
    ensures Render(Spans(input)) == Normalise(input)
  {
    LinesRenderBack(Lines(input));
    JoinLinesIsNormalise(input);
  }

  /** Two messages are parsed alike exactly when they are the same text. */
  lemma {:induction false} ParsedAlikeIffSameText(a: string, b: string)
    ensures Spans(a) == Spans(b) <==> Normalise(a) == Normalise(b)
  {
    hide LineSpans, Rendered;
    ParseIsLossless(a);
    ParseIsLossless(b);
    if Normalise(a) == Normalise(b) {
      JoinLinesIsNormalise(a);
      JoinLinesIsNormalise(b);
      JoinInjective(Lines(a), Lines(b));
      EmptyLineHasNoSpans();
    }
  }

  lemma EmptyLineHasNoSpans()
    ensures LinesSpans([]) == LinesSpans([""]) == []
  {
    assert LineSpans("") == [];
    assert [""][..0] == [];
  }

  // ---------------------------------------------------------------------
  // URLs are opaque
  // ---------------------------------------------------------------------

  ghost predicate HasScheme(text: string) {
    exists p | 0 <= p <= |text| :: SchemeAt(text, p)
  }

  ghost predicate StartsWithScheme(text: string) {
    exists scheme | IsScheme(scheme) :: |scheme| <= |text| && text[..|scheme|] == scheme
  }

  /** A link is a URL without whitespace; a span that is neither link nor quote has no scheme in it. */
  ghost predicate RespectsUrls(span: Span) {
    match span.style
    case Quote => true
    case Link =>
      && StartsWithScheme(Core(span.text))
      && forall k | 0 <= k < |Core(span.text)| :: !IsWhitespace(Core(span.text)[k])
    case _ => !HasScheme(span.text)
  }

  ghost predicate AllRespectUrls(spans: seq<Span>) {
    forall k | 0 <= k < |spans| :: RespectsUrls(spans[k])
  }

  lemma PartHasNoScheme(text: string, part: string)
    requires Contains(text, part) && !HasScheme(text)
    ensures !HasScheme(part)
  {
    var i :| 0 <= i <= |text| && OccursAt(text, part, i);
    forall p, scheme | 0 <= p <= |part| && IsScheme(scheme) ensures !OccursAt(part, scheme, p) {
      assert !SchemeAt(text, i + p);
      if p + |scheme| <= |part| {
        SliceOfSlice(text, i, i + |part|, p, p + |scheme|);
      }
    }
  }

  lemma PlainSegmentHasNoScheme(line: string, at: nat, segment: Segment)
    requires SegmentOk(line, at, segment) && !segment.isUrl
    ensures !HasScheme(segment.text)
  {
    var text := segment.text;
    forall p | 0 <= p <= |text| ensures !SchemeAt(text, p) {
      SchemeInPart(line, text, at, p);
      hide OccursAt, SchemeAt;
    }
  }

  lemma SchemeInPart(line: string, part: string, at: nat, p: nat)
    requires OccursAt(line, part, at)
    ensures SchemeAt(part, p) ==> p < |part| && SchemeAt(line, at + p)
  {
    if SchemeAt(part, p) {
      var scheme :| IsScheme(scheme) && OccursAt(part, scheme, p);
      SchemeEnds(scheme);
      OccursInside(line, part, at, scheme, p);
    }
  }

  lemma SchemeEnds(scheme: string)
    requires IsScheme(scheme)
    ensures scheme != "" && scheme[|scheme| - 1] != '\n'
  {}

  lemma LinkRespectsUrls(line: string, at: nat, segment: Segment)
    requires !HasNewline(line) && SegmentOk(line, at, segment) && segment.isUrl
    ensures RespectsUrls(Span(segment.text, Link))
  {
    LinkIsUrl(line, at, segment);
    assert Contains(line, segment.text);
    hide SchemeAt, IsWhitespace, UrlAt, HasNewline, OccursAt, StartsWithScheme, CoreLength, Contains, SegmentOk;
    PartOfLineNewlineFree(line, segment.text);
    CoreNoNewline(segment.text);
  }

  lemma LinkIsUrl(line: string, at: nat, segment: Segment)
    requires SegmentOk(line, at, segment) && segment.isUrl
    ensures StartsWithScheme(segment.text)
    ensures forall k | 0 <= k < |segment.text| :: !IsWhitespace(segment.text[k])
  {
    hide SchemeAt, IsWhitespace, UrlAt;
    SchemeAtSuffix(line, at);
    assert SchemeAt(line[at..], at - at);
    UrlAtExtent(line[at..]);
  }

  lemma InlineRespectsUrls(text: string)
    requires !HasScheme(text)
    ensures AllRespectUrls(InlineSpans(text))
  {
    hide HasScheme, InlineSpans;
    var spans := InlineSpans(text);
    InlineShape(text);
    InlineStylesOnly(text);
    forall k | 0 <= k < |spans| ensures RespectsUrls(spans[k]) {
      PartHasNoScheme(text, spans[k].text);
    }
  }

  lemma SegmentSpansRespectUrls(line: string, at: nat, segment: Segment)
    requires !HasNewline(line) && SegmentOk(line, at, segment)
    ensures AllRespectUrls(SegmentSpans(segment))
  {
    hide SegmentOk, RespectsUrls;
    if segment.isUrl {
      LinkRespectsUrls(line, at, segment);
    } else {
      PlainSegmentHasNoScheme(line, at, segment);
      InlineRespectsUrls(segment.text);
    }
  }

  lemma InlineStylesOnly(text: string)
    ensures forall k | 0 <= k < |InlineSpans(text)| :: InlineSpans(text)[k].style !in {Quote, Link}
  {
    InlineIsAStyling(text, 0);
    StylingStylesOnly(text, 0, InlineSpans(text));
  }

  lemma {:induction false} StylingStylesOnly(chars: string, at: nat, spans: seq<Span>)
    requires IsStyling(chars, at, spans)
    ensures forall k | 0 <= k < |spans| :: spans[k].style !in {Quote, Link}
    decreases |spans|
  {
    hide Opens, Marked, IsFirstClose;
    if spans != [] {
      StylingStylesOnly(chars, at + |Marked(spans[0])|, spans[1..]);
      assert forall k | 0 < k < |spans| :: spans[k] == spans[1..][k - 1];
    }
  }

  lemma {:induction false} SegmentsSpansRespectUrls(line: string, at: nat, segments: seq<Segment>)
    requires !HasNewline(line) && IsUrlSplit(line, at, segments)
    ensures AllRespectUrls(SegmentsSpans(segments))
    decreases |segments|
  {
    hide SegmentSpans, SchemeAt, UrlAt, RespectsUrls;
    if segments != [] {
      SegmentSpansRespectUrls(line, at, segments[0]);
      SegmentsSpansRespectUrls(line, at + |segments[0].text|, segments[1..]);
    }
  }

  lemma LineSpansRespectUrls(line: string)
    requires !HasNewline(line)
    ensures AllRespectUrls(LineSpans(line))
  {
    if !IsQuoteLine(line) {
      SplitCharacterised(line, Segments(line));
      SegmentsSpansRespectUrls(line, 0, Segments(line));
    }
  }

  lemma NewlineAddsNoScheme(span: Span)
    requires RespectsUrls(span)
    ensures RespectsUrls(span.(text := span.text + "\n"))
  {
    CorePushNewline(span.text);
    if span.style !in {Quote, Link} {
      NewlineStartsNoScheme(span.text);
    }
  }

  lemma NewlineStartsNoScheme(text: string)
    requires !HasScheme(text)
    ensures !HasScheme(text + "\n")
  {
    hide SchemeAt;
    forall p | 0 <= p <= |text| + 1 ensures !SchemeAt(text + "\n", p) {
      SchemeBeforeNewline(text, p);
    }
  }

  lemma SchemeBeforeNewline(text: string, p: nat)
    ensures SchemeAt(text + "\n", p) ==> p <= |text| && SchemeAt(text, p)
  {
    if SchemeAt(text + "\n", p) {
      var scheme :| IsScheme(scheme) && OccursAt(text + "\n", scheme, p);
      SchemeEnds(scheme);
      assert scheme[|scheme| - 1] == (text + "\n")[p + |scheme| - 1];
      assert (text + "\n")[p..p + |scheme|] == text[p..p + |scheme|];
    }
  }

  lemma {:induction false} LinesSpansRespectUrls(lines: seq<string>)
    requires forall k | 0 <= k < |lines| :: !HasNewline(lines[k])
    ensures AllRespectUrls(LinesSpans(lines))
  {
    hide LineSpans, RespectsUrls;
    if lines != [] {
      var n := |lines| - 1;
      LinesSpansRespectUrls(lines[..n]);
      LineSpansRespectUrls(lines[n]);
      var before := LinesSpans(lines[..n]);
      if n > 0 {
        if before == [] {
          PlainNewlineRespectsUrls();
        } else {
          NewlineAddsNoScheme(before[|before| - 1]);
        }
      }
    }
  }

  lemma PlainNewlineRespectsUrls()
    ensures RespectsUrls(Span("\n", Plain))
  {
    assert forall scheme | IsScheme(scheme) :: |scheme| > 1;
  }

  /** In every message, every link is a URL, and only links and quotes contain a scheme. */
  lemma {:induction false} ParseRespectsUrls(input: string)
    ensures AllRespectUrls(Spans(input))
  {
    LinesSpansRespectUrls(Lines(input));
  }

  /**
   Every occurrence of a scheme in a line that is not a quote lies wholly inside
   one link, and the link is the stretch of the line at its offset.
   */
  lemma {:induction false} SchemesLieInLinks(line: string, scheme: string, p: nat) returns (k: nat)
    requires !IsQuoteLine(line) && IsScheme(scheme) && OccursAt(line, scheme, p)
    ensures var spans := LineSpans(line); var sources := MarkedAll(spans);
      && k < |spans| && spans[k].style == Link
      && Offset(sources, k) <= p && p + |scheme| <= Offset(sources, k) + |spans[k].text|
      && OccursAt(line, spans[k].text, Offset(sources, k))
  {
    SplitCharacterised(line, Segments(line));
    k := SchemeInSegments(line, 0, Segments(line), scheme, p);
    SegmentsSource(line, 0, Segments(line));
    LinkAt(line, LineSpans(line), k);
  }

  /** A link among spans that make up a line is the stretch of the line at its offset. */
  lemma LinkAt(line: string, spans: seq<Span>, k: nat)
    requires Concat(MarkedAll(spans)) == line
    requires k < |spans| && spans[k].style == Link
    ensures OccursAt(line, spans[k].text, Offset(MarkedAll(spans), k))
  {
    hide Concat, Offset;
    PartAt(MarkedAll(spans), k);
  }

  lemma {:induction false} SegmentsSource(line: string, at: nat, segments: seq<Segment>)
    requires at <= |line| && IsUrlSplit(line, at, segments)
    ensures Concat(MarkedAll(SegmentsSpans(segments))) == line[at..]
    decreases |segments|
  {
    hide SegmentSpans, SchemeAt, UrlAt, Marked, Concat;
    ConcatNone();
    if segments != [] {
      var first, next := segments[0], at + |segments[0].text|;
      var head, tail := SegmentSpans(first), SegmentsSpans(segments[1..]);
      assert first.text == line[at..next];
      SegmentSource(first);
      SegmentsSource(line, next, segments[1..]);
      assert MarkedAll(head + tail) == MarkedAll(head) + MarkedAll(tail);
      ConcatAppend(MarkedAll(head), MarkedAll(tail));
      assert line[at..] == line[at..next] + line[next..];
    }
  }

  lemma {:induction false} SchemeInSegments(line: string, at: nat, segments: seq<Segment>, scheme: string, p: nat)
    returns (k: nat)
    requires IsUrlSplit(line, at, segments)
    requires IsScheme(scheme) && OccursAt(line, scheme, p) && at <= p
    ensures var spans := SegmentsSpans(segments); var sources := MarkedAll(spans);
      && k < |spans| && spans[k].style == Link
      && at + Offset(sources, k) <= p && p + |scheme| <= at + Offset(sources, k) + |spans[k].text|
    decreases |segments|
  {
    hide SegmentOk, IsUrlSplit, SegmentSpans, SegmentsSpans, OccursAt, MarkedAll, Offset, Concat;
    SchemeIsNotEmpty(line, scheme, p);
    FirstSegment(line, at, segments);
    var first := segments[0];
    var next := at + |first.text|;
    var head, tail := SegmentSpans(first), SegmentsSpans(segments[1..]);
    if p < next {
      SchemeLiesInUrl(line, at, first, scheme, p);
      UrlSpan(first);
      k := 0;
      OffsetOfFirst(MarkedAll(head + tail));
    } else {
      var j := SchemeInSegments(line, next, segments[1..], scheme, p);
      k := |head| + j;
      SegmentSource(first);
      OffsetAfter(head, tail, j);
    }
  }

  lemma FirstSegment(line: string, at: nat, segments: seq<Segment>)
    requires IsUrlSplit(line, at, segments) && at < |line|
    ensures segments != [] && SegmentOk(line, at, segments[0])
    ensures IsUrlSplit(line, at + |segments[0].text|, segments[1..])
    ensures SegmentsSpans(segments) == SegmentSpans(segments[0]) + SegmentsSpans(segments[1..])
  {
    hide SegmentOk, SegmentSpans;
  }

  lemma SchemeIsNotEmpty(line: string, scheme: string, p: nat)
    requires IsScheme(scheme) && OccursAt(line, scheme, p)
    ensures p < |line|
  {}

  lemma OffsetOfFirst(sources: seq<string>)
    ensures Offset(sources, 0) == 0
  {
    assert sources[..0] == [];
  }

  lemma UrlSpan(segment: Segment)
    requires segment.isUrl
    ensures SegmentSpans(segment) == [Span(segment.text, Link)]
  {}

  lemma SegmentSource(segment: Segment)
    ensures Concat(MarkedAll(SegmentSpans(segment))) == segment.text
  {
    if segment.isUrl {
      assert Marked(Span(segment.text, Link)) == segment.text;
      assert MarkedAll([Span(segment.text, Link)]) == [segment.text];
      ConcatOne(segment.text);
    } else {
      InlineShape(segment.text);
    }
  }

  lemma OffsetAfter(head: seq<Span>, tail: seq<Span>, j: nat)
    requires j < |tail|
    ensures Offset(MarkedAll(head + tail), |head| + j) == |Concat(MarkedAll(head))| + Offset(MarkedAll(tail), j)
    ensures (head + tail)[|head| + j] == tail[j]
  {
    hide Marked, Concat;
    assert MarkedAll(head + tail)[..|head| + j] == MarkedAll(head) + MarkedAll(tail)[..j];
    ConcatAppend(MarkedAll(head), MarkedAll(tail)[..j]);
  }
}
