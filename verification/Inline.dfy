/**
 Inline message styling on one stretch of text without URLs
 (src/ui/styling.rs, `parse_inline` and `find_close`).
 */
module Inline {
  import opened Wrappers
  import opened Chars
  import opened Text

  datatype SpanStyle = Plain | Bold | Italic | Code | Strike | Quote | Link

  datatype Span = Span(text: string, style: SpanStyle)

  /** The growing list of spans that the parsing functions push to. */
  class SpanList {
    var spans: seq<Span>

    constructor ()
      ensures spans == []
    {
      spans := [];
    }

    method Push(span: Span)
      modifies this
      ensures spans == old(spans) + [span]
    {
      spans := spans + [span];
    }
  }

  // ---------------------------------------------------------------------
  // Delimiters
  // ---------------------------------------------------------------------

  function StyleForDelimiter(c: char): Option<SpanStyle> {
    match c
    case '*' => Some(Bold)
    case '_' => Some(Italic)
    case '`' => Some(Code)
    case '~' => Some(Strike)
    case _ => None
  }

  function DelimiterOf(style: SpanStyle): string {
    match style
    case Bold => "*"
    case Italic => "_"
    case Code => "`"
    case Strike => "~"
    case _ => ""
  }

  /** The source text of a span: its text with its markers put back. */
  function Marked(span: Span): string {
    if span.style == Quote then "> " + span.text
    else DelimiterOf(span.style) + span.text + DelimiterOf(span.style)
  }

  function MarkedAll(spans: seq<Span>): (r: seq<string>)
    ensures |r| == |spans| && forall k | 0 <= k < |spans| :: r[k] == Marked(spans[k])
  {
    seq(|spans|, k requires 0 <= k < |spans| => Marked(spans[k]))
  }

  predicate IsAfterClose(c: char) {
    IsWhitespace(c) || IsAsciiPunctuation(c)
  }

  /** `pos` can close a span whose text starts at `start`. */
  predicate ValidClose(chars: string, start: nat, delim: char, pos: nat) {
    && start < pos < |chars|
    && chars[pos] == delim
    && !IsWhitespace(chars[pos - 1])
    && (pos + 1 < |chars| ==> IsAfterClose(chars[pos + 1]))
  }

  predicate IsFirstClose(chars: string, start: nat, delim: char, pos: nat) {
    && ValidClose(chars, start, delim, pos)
    && forall q | start <= q < pos :: !ValidClose(chars, start, delim, q)
  }

  predicate CanClose(chars: string, start: nat, delim: char) {
    exists pos | 0 <= pos < |chars| :: ValidClose(chars, start, delim, pos)
  }

  method FindClose(chars: string, start: nat, delim: char) returns (r: Option<nat>)
    ensures r.Some? ==> IsFirstClose(chars, start, delim, r.value)
    ensures r.None? ==> !CanClose(chars, start, delim)
  {
    var pos := start;
    while pos < |chars|
      invariant start <= pos
      invariant forall q | start <= q < pos :: !ValidClose(chars, start, delim, q)
    {
      if chars[pos] == delim && pos != start && !IsWhitespace(chars[pos - 1]) {
        if pos + 1 == |chars| || IsAfterClose(chars[pos + 1]) {
          return Some(pos);
        }
      }
      pos := pos + 1;
    }
    return None;
  }

  /** A delimiter at a boundary, followed by something that is not whitespace. */
  predicate IsOpener(chars: string, i: nat) {
    && i + 1 < |chars|
    && StyleForDelimiter(chars[i]).Some?
    && (i == 0 || IsWhitespace(chars[i - 1]))
    && !IsWhitespace(chars[i + 1])
  }

  /** A span opens at `i`: an opener there can be closed. */
  predicate Opens(chars: string, i: nat) {
    IsOpener(chars, i) && CanClose(chars, i + 1, chars[i])
  }

  // ---------------------------------------------------------------------
  // Leftmost opener, first valid close
  // ---------------------------------------------------------------------

  function FirstOpener(chars: string, from: nat): (r: Option<nat>)
    requires from <= |chars|
    ensures r.Some? ==> from <= r.value < |chars| && Opens(chars, r.value)
    ensures forall p | from <= p < (if r.Some? then r.value else |chars|) :: !Opens(chars, p)
    decreases |chars| - from
  {
    if from == |chars| then None
    else if Opens(chars, from) then Some(from)
    else FirstOpener(chars, from + 1)
  }

  function FirstClose(chars: string, start: nat, delim: char, from: nat): (r: nat)
    requires start <= from <= |chars| && CanClose(chars, start, delim)
    requires forall q | start <= q < from :: !ValidClose(chars, start, delim, q)
    ensures IsFirstClose(chars, start, delim, r)
    decreases |chars| - from
  {
    if ValidClose(chars, start, delim, from) then from
    else FirstClose(chars, start, delim, from + 1)
  }

  function InlineFrom(chars: string, at: nat): seq<Span>
    requires at <= |chars|
    decreases |chars| - at, FirstOpener(chars, at) != Some(at)
  {
    if at == |chars| then []
    else
      match FirstOpener(chars, at)
      case None => [Span(chars[at..], Plain)]
      case Some(open) =>
        if open > at then [Span(chars[at..open], Plain)] + InlineFrom(chars, open)
        else
          var close := FirstClose(chars, at + 1, chars[at], at + 1);
          [Span(chars[at + 1..close], StyleForDelimiter(chars[at]).value)] + InlineFrom(chars, close + 1)
  }

  function InlineSpans(line: string): seq<Span> {
    InlineFrom(line, 0)
  }

  method ParseInline(line: string, out: SpanList)
    modifies out
    ensures out.spans == old(out.spans) + InlineSpans(line)
  {
    hide Opens, FirstOpener, InlineFrom, FirstClose, CanClose, IsFirstClose, IsWhitespace, StyleForDelimiter;
    var len := |line|;
    var plainBuf := "";
    var i := 0;
    ghost var flushed := 0;
    while i < len
      invariant 0 <= flushed <= i <= len
      invariant plainBuf == line[flushed..i]
      invariant forall p | flushed <= p < i :: !Opens(line, p)
      invariant out.spans + InlineFrom(line, flushed) == old(out.spans) + InlineSpans(line)
    {
      var ch := line[i];
      if StyleForDelimiter(ch).Some? {
        var style := StyleForDelimiter(ch).value;
        var precededByBoundary := i == 0 || IsWhitespace(line[i - 1]);
        var followedByNonws := i + 1 < len && !IsWhitespace(line[i + 1]);
        if precededByBoundary && followedByNonws {
          var close := FindClose(line, i + 1, ch);
          if close.Some? {
            FirstCloseBounds(line, i + 1, ch, close.value);
            StyledStep(line, flushed, i, close.value);
            if plainBuf != "" {
              out.Push(Span(plainBuf, Plain));
              plainBuf := "";
            }
            out.Push(Span(line[i + 1..close.value], style));
            i := close.value + 1;
            flushed := i;
            continue;
          }
        }
        NotAnOpener(line, i);
        SliceSnoc(line, flushed, i);
        plainBuf := plainBuf + [ch];
        i := i + 1;
      } else {
        NotAnOpener(line, i);
        SliceSnoc(line, flushed, i);
        plainBuf := plainBuf + [ch];
        i := i + 1;
      }
    }
    PlainTail(line, flushed);
    assert line[flushed..len] == line[flushed..];
    if plainBuf != "" {
      out.Push(Span(plainBuf, Plain));
    }
  }

  lemma SliceSnoc(s: string, a: nat, b: nat)
    requires a <= b < |s|
    ensures s[a..b + 1] == s[a..b] + [s[b]]
  {}

  lemma NotAnOpener(line: string, i: nat)
    requires i < |line|
    requires !IsOpener(line, i) || !CanClose(line, i + 1, line[i])
    ensures !Opens(line, i)
  {}

  lemma PlainTail(line: string, at: nat)
    requires at <= |line|
    requires forall p | at <= p < |line| :: !Opens(line, p)
    ensures InlineFrom(line, at) == if at == |line| then [] else [Span(line[at..], Plain)]
  {}

  lemma PlainStep(line: string, at: nat, open: nat)
    requires at < open && Opens(line, open)
    requires forall p | at <= p < open :: !Opens(line, p)
    ensures InlineFrom(line, at) == [Span(line[at..open], Plain)] + InlineFrom(line, open)
  {
    assert FirstOpener(line, at) == Some(open);
  }

  lemma OpenStep(line: string, at: nat, close: nat)
    requires IsOpener(line, at) && IsFirstClose(line, at + 1, line[at], close)
    ensures InlineFrom(line, at)
         == [Span(line[at + 1..close], StyleForDelimiter(line[at]).value)] + InlineFrom(line, close + 1)
  {
    hide FirstOpener, FirstClose, IsFirstClose, CanClose, ValidClose, StyleForDelimiter, InlineFrom;
    FirstCloseBounds(line, at + 1, line[at], close);
    assert Opens(line, at);
    OpenerIsFirst(line, at);
    FirstCloseUnique(line, at + 1, line[at], close, FirstClose(line, at + 1, line[at], at + 1));
    InlineAtOpener(line, at);
  }

  lemma OpenerIsFirst(line: string, at: nat)
    requires at < |line| && Opens(line, at)
    ensures FirstOpener(line, at) == Some(at) && CanClose(line, at + 1, line[at])
    ensures StyleForDelimiter(line[at]).Some?
  {}

  lemma InlineAtOpener(line: string, at: nat)
    requires at < |line| && FirstOpener(line, at) == Some(at)
    requires StyleForDelimiter(line[at]).Some? && CanClose(line, at + 1, line[at])
    ensures var close := FirstClose(line, at + 1, line[at], at + 1);
      close < |line| && InlineFrom(line, at)
         == [Span(line[at + 1..close], StyleForDelimiter(line[at]).value)] + InlineFrom(line, close + 1)
  {
    hide FirstOpener, FirstClose, CanClose, IsOpener, StyleForDelimiter;
  }

  lemma StyledStep(line: string, at: nat, open: nat, close: nat)
    requires at <= open && IsOpener(line, open)
    requires forall p | at <= p < open :: !Opens(line, p)
    requires IsFirstClose(line, open + 1, line[open], close)
    ensures InlineFrom(line, at)
         == (if at < open then [Span(line[at..open], Plain)] else [])
            + [Span(line[open + 1..close], StyleForDelimiter(line[open]).value)] + InlineFrom(line, close + 1)
  {
    hide InlineFrom;
    OpenStep(line, open, close);
    if at < open {
      PlainStep(line, at, open);
    }
  }

  lemma FirstCloseUnique(chars: string, start: nat, delim: char, a: nat, b: nat)
    requires IsFirstClose(chars, start, delim, a) && IsFirstClose(chars, start, delim, b)
    ensures a == b
  {}

  // ---------------------------------------------------------------------
  // What a correct styling is
  // ---------------------------------------------------------------------

  /** `span` is a correct piece of `chars` at position `at`. */
  predicate SpanOk(chars: string, at: nat, span: Span) {
    match span.style
    case Plain =>
      && span.text != ""
      && OccursAt(chars, span.text, at)
      && forall p | at <= p < at + |span.text| :: !Opens(chars, p)
    case Quote => false
    case Link => false
    case _ =>
      && Opens(chars, at)
      && StyleForDelimiter(chars[at]) == Some(span.style)
      && OccursAt(chars, span.text, at + 1)
      && IsFirstClose(chars, at + 1, chars[at], at + 1 + |span.text|)
  }

  /**
   The spans tile `chars` from `at` to its end, each is correct where it stands,
   and plain text is never split. Nothing here says how the spans are found.
   */
  predicate IsStyling(chars: string, at: nat, spans: seq<Span>)
    decreases |spans|
  {
    if spans == [] then at == |chars|
    else
      && SpanOk(chars, at, spans[0])
      && (|spans| > 1 ==> spans[0].style != Plain || spans[1].style != Plain)
      && IsStyling(chars, at + |Marked(spans[0])|, spans[1..])
  }

  /** The characters a correct span stands for are its text between its markers. */
  lemma SpanOkOccurs(chars: string, at: nat, span: Span)
    requires SpanOk(chars, at, span)
    ensures OccursAt(chars, Marked(span), at) && Marked(span) != "" && at + |Marked(span)| <= |chars|
  {
    hide IsFirstClose, CanClose;
    if span.style != Plain {
      var close := at + 1 + |span.text|;
      FirstCloseBounds(chars, at + 1, chars[at], close);
      DelimiterIs(chars[at], span.style);
      Enclosed(chars, at, close);
    } else {
      assert Marked(span) == span.text;
    }
  }

  lemma Enclosed(chars: string, at: nat, close: nat)
    requires at < close < |chars|
    ensures chars[at..close + 1] == [chars[at]] + chars[at + 1..close] + [chars[close]]
  {}

  lemma DelimiterIs(c: char, style: SpanStyle)
    requires StyleForDelimiter(c) == Some(style)
    ensures style != Plain && style != Quote && DelimiterOf(style) == [c]
  {}

  lemma StylingCons(chars: string, at: nat, first: Span, rest: seq<Span>)
    requires SpanOk(chars, at, first)
    requires IsStyling(chars, at + |Marked(first)|, rest)
    requires rest != [] ==> first.style != Plain || rest[0].style != Plain
    ensures IsStyling(chars, at, [first] + rest)
  {
    hide SpanOk, Marked;
    assert ([first] + rest)[1..] == rest;
  }

  lemma FirstIsStyled(chars: string, at: nat)
    requires at <= |chars|
    ensures Opens(chars, at) ==> InlineFrom(chars, at) != [] && InlineFrom(chars, at)[0].style != Plain
  {}

  lemma {:induction false} InlineIsAStyling(chars: string, at: nat)
    requires at <= |chars|
    ensures IsStyling(chars, at, InlineFrom(chars, at))
    decreases |chars| - at, FirstOpener(chars, at) != Some(at)
  {
    hide Opens, IsFirstClose, SpanOk, CanClose, Marked, InlineFrom, FirstClose;
    if at == |chars| {
      PlainTail(chars, at);
    } else if FirstOpener(chars, at).None? {
      PlainTail(chars, at);
      PlainIsOk(chars, at, |chars|);
      StylingCons(chars, at, Span(chars[at..], Plain), []);
    } else {
      var open := FirstOpener(chars, at).value;
      if open > at {
        PlainStep(chars, at, open);
        InlineIsAStyling(chars, open);
        FirstIsStyled(chars, open);
        PlainIsOk(chars, at, open);
        StylingCons(chars, at, Span(chars[at..open], Plain), InlineFrom(chars, open));
      } else {
        OpensHasClose(chars, at);
        var close := FirstClose(chars, at + 1, chars[at], at + 1);
        FirstCloseBounds(chars, at + 1, chars[at], close);
        StyledStep(chars, at, at, close);
        InlineIsAStyling(chars, close + 1);
        StyledIsOk(chars, at, close);
        StylingCons(chars, at, Span(chars[at + 1..close], StyleForDelimiter(chars[at]).value),
                    InlineFrom(chars, close + 1));
      }
    }
  }

  lemma PlainIsOk(chars: string, at: nat, to: nat)
    requires at < to <= |chars|
    requires forall p | at <= p < to :: !Opens(chars, p)
    ensures var span := Span(chars[at..to], Plain);
      SpanOk(chars, at, span) && |Marked(span)| == to - at
    ensures chars[at..|chars|] == chars[at..]
  {}

  lemma StyledIsOk(chars: string, at: nat, close: nat)
    requires Opens(chars, at) && IsFirstClose(chars, at + 1, chars[at], close)
    ensures var span := Span(chars[at + 1..close], StyleForDelimiter(chars[at]).value);
      SpanOk(chars, at, span) && |Marked(span)| == close + 1 - at && span.style != Plain
  {}

  lemma OpensHasClose(chars: string, at: nat)
    requires Opens(chars, at)
    ensures IsOpener(chars, at) && CanClose(chars, at + 1, chars[at])
  {}

  lemma FirstCloseBounds(chars: string, start: nat, delim: char, pos: nat)
    requires IsFirstClose(chars, start, delim, pos)
    ensures start < pos < |chars| && chars[pos] == delim && CanClose(chars, start, delim)
  {}

  /** The styling is unique: any correct list of spans is the one computed. */
  lemma {:induction false} StylingIsUnique(chars: string, at: nat, spans: seq<Span>)
    requires at <= |chars| && IsStyling(chars, at, spans)
    ensures spans == InlineFrom(chars, at)
    decreases |spans|
  {
    hide Opens, IsFirstClose, SpanOk, FirstOpener, Marked, InlineFrom, OccursAt;
    if spans == [] {
      PlainTail(chars, at);
    } else {
      var first, rest := spans[0], spans[1..];
      assert spans == [first] + rest;
      SpanOkOccurs(chars, at, first);
      var next := at + |Marked(first)|;
      StylingIsUnique(chars, next, rest);
      if first.style != Plain {
        StyledSpanIsForced(chars, at, first);
      } else {
        PlainSpanIsForced(chars, at, first);
        if rest != [] {
          assert rest[0] == spans[1];
          SpanOkOpens(chars, next, rest[0]);
          PlainStep(chars, at, next);
        } else {
          PlainTail(chars, at);
          assert chars[at..next] == chars[at..];
        }
      }
    }
  }

  lemma SpanOkOpens(chars: string, at: nat, span: Span)
    requires SpanOk(chars, at, span) && span.style != Plain
    ensures Opens(chars, at)
  {}

  lemma PlainSpanIsForced(chars: string, at: nat, span: Span)
    requires SpanOk(chars, at, span) && span.style == Plain
    ensures var next := at + |Marked(span)|;
      && at < next <= |chars| && span.text == chars[at..next]
      && forall p | at <= p < next :: !Opens(chars, p)
  {}

  lemma StyledSpanIsForced(chars: string, at: nat, span: Span)
    requires SpanOk(chars, at, span) && span.style != Plain
    ensures var next := at + |Marked(span)|;
      at < next <= |chars| && InlineFrom(chars, at) == [span] + InlineFrom(chars, next)
  {
    hide InlineFrom, SpanOk, Marked, IsFirstClose, IsOpener, Opens, StyleForDelimiter;
    SpanOkStyled(chars, at, span);
    StyledStep(chars, at, at, at + 1 + |span.text|);
  }

  /** What a correct styled span says about the characters. */
  lemma SpanOkStyled(chars: string, at: nat, span: Span)
    requires SpanOk(chars, at, span) && span.style != Plain
    ensures var close := at + 1 + |span.text|;
      && IsOpener(chars, at)
      && IsFirstClose(chars, at + 1, chars[at], close)
      && close + 1 == at + |Marked(span)| <= |chars|
      && span.text == chars[at + 1..close]
      && StyleForDelimiter(chars[at]) == Some(span.style)
  {
    hide IsFirstClose, CanClose, ValidClose, StyleForDelimiter, DelimiterOf;
    FirstCloseBounds(chars, at + 1, chars[at], at + 1 + |span.text|);
    DelimiterIs(chars[at], span.style);
  }

  lemma {:induction false} StylingCharacterised(line: string, spans: seq<Span>)
    ensures IsStyling(line, 0, spans) <==> spans == InlineSpans(line)
  {
    InlineIsAStyling(line, 0);
    if IsStyling(line, 0, spans) {
      StylingIsUnique(line, 0, spans);
    }
  }

  // ---------------------------------------------------------------------
  // Consequences
  // ---------------------------------------------------------------------

  /** Putting the markers back gives the text back. */
  lemma {:induction false} StylingTiles(chars: string, at: nat, spans: seq<Span>)
    requires at <= |chars| && IsStyling(chars, at, spans)
    ensures Concat(MarkedAll(spans)) == chars[at..]
    decreases |spans|
  {
    hide SpanOk, Marked;
    if spans != [] {
      SpanOkOccurs(chars, at, spans[0]);
      var next := at + |Marked(spans[0])|;
      StylingTiles(chars, next, spans[1..]);
      assert MarkedAll(spans)[1..] == MarkedAll(spans[1..]);
      assert chars[at..] == chars[at..next] + chars[next..];
    }
  }

  lemma {:induction false} StylingTextsOccur(chars: string, at: nat, spans: seq<Span>)
    requires IsStyling(chars, at, spans)
    ensures forall k | 0 <= k < |spans| :: Contains(chars, spans[k].text)
    decreases |spans|
  {
    hide Opens, IsFirstClose, Marked;
    if spans != [] {
      StylingTextsOccur(chars, at + |Marked(spans[0])|, spans[1..]);
      assert forall k | 0 < k < |spans| :: spans[k] == spans[1..][k - 1];
      assert OccursAt(chars, spans[0].text, at) || OccursAt(chars, spans[0].text, at + 1);
    }
  }

  predicate HugsItsText(span: Span) {
    span.style != Plain ==>
      span.text != "" && !IsWhitespace(span.text[0]) && !IsWhitespace(span.text[|span.text| - 1])
  }

  predicate EndsInWhitespace(s: string) {
    s != "" && IsWhitespace(s[|s| - 1])
  }

  /** How two neighbouring spans can meet. */
  predicate Meets(left: Span, right: Span) {
    && (left.style == Plain) != (right.style == Plain)
    && (right.style != Plain ==> EndsInWhitespace(left.text))
  }

  lemma SpanOkHugs(chars: string, at: nat, span: Span)
    requires SpanOk(chars, at, span)
    ensures HugsItsText(span)
    ensures span.style != Plain ==> at == 0 || (at <= |chars| && IsWhitespace(chars[at - 1]))
  {
    if span.style != Plain {
      var n := |span.text|;
      assert span.text == chars[at + 1..at + 1 + n];
      assert span.text[0] == chars[at + 1] && span.text[n - 1] == chars[at + n];
    }
  }

  lemma SpansMeet(chars: string, at: nat, left: Span, right: Span)
    requires SpanOk(chars, at, left) && SpanOk(chars, at + |Marked(left)|, right)
    requires left.style != Plain || right.style != Plain
    ensures Meets(left, right)
  {
    hide SpanOk, Marked, IsWhitespace;
    SpanOkOccurs(chars, at, left);
    SpanOkNotForeign(chars, at, left);
    LastOfMarked(left);
    LastOfPart(chars, Marked(left), at);
    SpanOkHugs(chars, at + |Marked(left)|, right);
    hide OccursAt;
  }

  lemma LastOfPart(text: string, part: string, at: nat)
    requires OccursAt(text, part, at) && part != ""
    ensures at + |part| <= |text| && text[at + |part| - 1] == part[|part| - 1]
  {
    assert text[at..at + |part|][|part| - 1] == text[at + |part| - 1];
  }

  lemma SpanOkNotForeign(chars: string, at: nat, span: Span)
    requires SpanOk(chars, at, span)
    ensures span.style !in {Quote, Link}
  {}

  lemma LastOfMarked(span: Span)
    requires span.style !in {Quote, Link} && Marked(span) != ""
    ensures var last := Marked(span)[|Marked(span)| - 1];
      if span.style == Plain then span.text != "" && last == span.text[|span.text| - 1] else !IsWhitespace(last)
  {
  }

  /**
   Every styled span is nonempty, begins and ends with a character that is not
   whitespace, and stands first or after plain text that ends in whitespace;
   plain and styled spans strictly alternate.
   */
  lemma {:induction false} StylingShape(chars: string, at: nat, spans: seq<Span>)
    requires IsStyling(chars, at, spans)
    ensures forall k | 0 <= k < |spans| :: HugsItsText(spans[k])
    ensures forall k | 0 < k < |spans| :: Meets(spans[k - 1], spans[k])
    decreases |spans|
  {
    hide SpanOk, HugsItsText, Meets;
    if spans != [] {
      var rest := spans[1..];
      StylingShape(chars, at + |Marked(spans[0])|, rest);
      SpanOkHugs(chars, at, spans[0]);
      if |spans| > 1 {
        SpansMeet(chars, at, spans[0], spans[1]);
      }
      assert forall k | 0 < k < |spans| :: spans[k] == rest[k - 1];
      forall k | 0 < k < |spans| ensures Meets(spans[k - 1], spans[k]) {
        assert k > 1 ==> Meets(rest[k - 2], rest[k - 1]);
      }
    }
  }

  lemma InlineShape(line: string)
    ensures var spans := InlineSpans(line);
      && Concat(MarkedAll(spans)) == line
      && (forall k | 0 <= k < |spans| :: HugsItsText(spans[k]))
      && (forall k | 0 < k < |spans| :: Meets(spans[k - 1], spans[k]))
      && (forall k | 0 <= k < |spans| :: Contains(line, spans[k].text))
  {
    InlineIsAStyling(line, 0);
    StylingTiles(line, 0, InlineSpans(line));
    StylingShape(line, 0, InlineSpans(line));
    StylingTextsOccur(line, 0, InlineSpans(line));
    assert line[0..] == line;
  }

  // ---------------------------------------------------------------------
  // Every rule once, in plain characters
  // ---------------------------------------------------------------------

  /** `c` is none of the four delimiters, wherever it stands in `s`. */
  predicate NoDelimiter(s: string) {
    forall k | 0 <= k < |s| :: s[k] != '*' && s[k] != '_' && s[k] != '`' && s[k] != '~'
  }

  function PlainSpan(s: string): seq<Span> {
    if s == "" then [] else [Span(s, Plain)]
  }

  /** What stands before and after, and what is enclosed, let two delimiters style the text between them. */
  predicate Styles(before: string, text: string, after: string) {
    && (before == "" || IsWhitespace(before[|before| - 1]))
    && text != "" && !IsWhitespace(text[0]) && !IsWhitespace(text[|text| - 1])
    && (after == "" || IsWhitespace(after[0]) || IsAsciiSymbol(after[0]))
  }

  /** Printable ASCII that is neither letter, digit nor space. */
  predicate IsAsciiSymbol(c: char) {
    '!' <= c <= '~' && !('0' <= c <= '9') && !('A' <= c <= 'Z') && !('a' <= c <= 'z')
  }

  /**
   A text with two equal delimiters and no other: what they enclose is styled, in bold,
   italics, as code or struck out, exactly if their surroundings let it; otherwise all is plain.
   */
  lemma OneStyledSpan(before: string, c: char, text: string, after: string, style: SpanStyle)
    requires (c, style) in {('*', Bold), ('_', Italic), ('`', Code), ('~', Strike)}
    requires NoDelimiter(before) && NoDelimiter(text) && NoDelimiter(after)
    ensures var line := before + [c] + text + [c] + after;
      InlineSpans(line) ==
        if Styles(before, text, after) then PlainSpan(before) + [Span(text, style)] + PlainSpan(after)
        else [Span(line, Plain)]
  {
    var line := before + [c] + text + [c] + after;
    var open, close := |before|, |before| + 1 + |text|;
    TwoDelimiters(line, open, close, before, c, text, after);
    assert line[open + 1..close] == text && line[..open] == before && line[close + 1..] == after;
    hide InlineFrom;
    if Styles(before, text, after) {
      StyledStep(line, 0, open, close);
      PlainTail(line, close + 1);
      assert line[0..open] == before;
    } else {
      PlainTail(line, 0);
      assert line[0..] == line;
    }
  }

  lemma TwoDelimiters(line: string, open: nat, close: nat, before: string, c: char, text: string, after: string)
    requires c in {'*', '_', '`', '~'}
    requires NoDelimiter(before) && NoDelimiter(text) && NoDelimiter(after)
    requires line == before + [c] + text + [c] + after && open == |before| && close == |before| + 1 + |text|
    ensures forall p | 0 <= p < |line| && p != open :: !Opens(line, p)
    ensures Styles(before, text, after) ==>
              IsOpener(line, open) && IsFirstClose(line, open + 1, c, close)
    ensures !Styles(before, text, after) ==> !Opens(line, open)
  {
    forall p | 0 <= p < |line| && p != open && p != close ensures StyleForDelimiter(line[p]).None? && line[p] != c {}
    assert line[open] == line[close] == c;
    assert open > 0 ==> line[open - 1] == before[open - 1];
    assert text != "" ==> line[open + 1] == text[0] && line[close - 1] == text[|text| - 1];
    assert after != "" ==> line[close + 1] == after[0];
    hide IsWhitespace;
  }
}
