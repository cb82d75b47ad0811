/**
 Splitting a line on URL boundaries (src/ui/styling.rs, `split_urls` and
 `strip_trailing_punct`). Offsets count characters.
 */
module Links {
  import opened Wrappers
  import opened Chars
  import opened Text

  const URL_SCHEMES: seq<string> := ["https://", "http://", "xmpp:", "mailto:", "magnet:"]

  const TRAILING_PUNCT: seq<char> := ['.', ',', ')', ']', '>']

  datatype Segment = Segment(text: string, isUrl: bool)

  // ---------------------------------------------------------------------
  // Schemes
  // ---------------------------------------------------------------------

  /** The five schemes a URL can start with. */
  predicate IsScheme(s: string) {
    s == "https://" || s == "http://" || s == "xmpp:" || s == "mailto:" || s == "magnet:"
  }

  lemma SchemesAre(s: string)
    ensures IsScheme(s) <==> s in URL_SCHEMES
  {}

  ghost predicate SchemeAt(text: string, i: nat) {
    exists scheme | IsScheme(scheme) :: OccursAt(text, scheme, i)
  }

  /** A character that is part of some scheme is never where a URL is cut. */
  predicate CutsUrl(c: char) {
    IsWhitespace(c) || c in TRAILING_PUNCT
  }

  lemma SchemeChars(scheme: string, k: nat)
    requires IsScheme(scheme) && k < |scheme|
    ensures !CutsUrl(scheme[k])
  {}

  /** No scheme can straddle, or start at, a character that cuts a URL. */
  lemma SchemeAvoidsCut(text: string, scheme: string, i: nat, cut: nat)
    requires IsScheme(scheme) && OccursAt(text, scheme, i)
    requires i <= cut < |text| && CutsUrl(text[cut])
    ensures i + |scheme| <= cut
  {
    forall p | i <= p < i + |scheme| ensures !CutsUrl(text[p]) {
      SchemeChars(scheme, p - i);
      assert text[i..i + |scheme|][p - i] == text[p];
    }
  }

  /** The earliest match of any of the schemes: the minimum of the first matches. */
  function EarliestOf(text: string, schemes: seq<string>): (r: Option<nat>)
    ensures r.Some? ==> exists s | s in schemes :: OccursAt(text, s, r.value)
    ensures forall s, j | s in schemes && 0 <= j < (if r.Some? then r.value else |text| + 1) ::
              !OccursAt(text, s, j)
  {
    if schemes == [] then None
    else
      var first := FindFrom(text, schemes[0], 0);
      var others := EarliestOf(text, schemes[1..]);
      if first.None? || (others.Some? && others.value < first.value) then others else first
  }

  function EarliestScheme(text: string): (r: Option<nat>)
    ensures r.Some? ==> r.value < |text| && SchemeAt(text, r.value)
    ensures forall j | 0 <= j < (if r.Some? then r.value else |text| + 1) :: !SchemeAt(text, j)
  {
    assert forall s :: IsScheme(s) <==> s in URL_SCHEMES by {
      forall s ensures IsScheme(s) <==> s in URL_SCHEMES { SchemesAre(s); }
    }
    EarliestOf(text, URL_SCHEMES)
  }

  lemma SchemeAtSuffix(text: string, n: nat)
    requires n <= |text|
    ensures forall p | n <= p :: SchemeAt(text, p) <==> SchemeAt(text[n..], p - n)
  {
    forall p, s | n <= p && IsScheme(s)
      ensures OccursAt(text[n..], s, p - n) <==> OccursAt(text, s, p)
    {
      if p + |s| <= |text| {
        assert text[n..][p - n..p - n + |s|] == text[p..p + |s|];
      }
    }
  }

  // ---------------------------------------------------------------------
  // Trailing punctuation
  // ---------------------------------------------------------------------

  /** The opener that a closing bracket is paired with. */
  function OpenerOf(c: char): Option<char> {
    match c
    case ')' => Some('(')
    case ']' => Some('[')
    case '>' => Some('<')
    case _ => None
  }

  /** The last character of `url` is unbalanced trailing punctuation. */
  predicate MustStrip(url: string) {
    url != "" &&
    var last := url[|url| - 1];
    last in TRAILING_PUNCT && (OpenerOf(last).None? || OpenerOf(last).value !in url)
  }

  function Stripped(url: string): string {
    if MustStrip(url) then Stripped(url[..|url| - 1]) else url
  }

  method StripTrailingPunct(url: string) returns (r: string)
    ensures r <= url && !MustStrip(r)
    ensures forall k | |r| < k <= |url| :: MustStrip(url[..k])
    ensures r == Stripped(url)
  {
    var end := |url|;
    assert url[..end] == url;
    while true
      invariant 0 <= end <= |url|
      invariant Stripped(url) == Stripped(url[..end])
      invariant forall k | end < k <= |url| :: MustStrip(url[..k])
      decreases end
    {
      var trimmed := url[..end];
      if trimmed == "" {
        break;
      }
      var last := trimmed[end - 1];
      if last !in TRAILING_PUNCT {
        break;
      }
      var opener := OpenerOf(last);
      var shouldStrip := opener.None? || opener.value !in trimmed;
      if !shouldStrip {
        break;
      }
      assert trimmed[..end - 1] == url[..end - 1];
      end := end - 1;
    }
    r := url[..end];
  }

  /** What is kept is the longest prefix that needs no further stripping, and only that. */
  lemma {:induction false} StrippedIsLongestStable(url: string, r: string)
    ensures r == Stripped(url) <==>
              r <= url && !MustStrip(r) && forall k | |r| < k <= |url| :: MustStrip(url[..k])
  {
    assert url[..|url|] == url;
    if MustStrip(url) {
      var shorter := url[..|url| - 1];
      StrippedIsLongestStable(shorter, r);
      assert forall k | 0 <= k <= |shorter| :: shorter[..k] == url[..k];
      StrippedIsLongestStable(shorter, Stripped(shorter));
      assert r <= url && |r| < |url| ==> r == shorter[..|r|];
    } else {
      assert r <= url ==> r == url[..|r|];
    }
  }

  /** Stripping stops at the latest at a character that is not trailing punctuation. */
  lemma {:induction false} StrippedKeeps(url: string, n: nat)
    requires 0 < n <= |url| && url[n - 1] !in TRAILING_PUNCT
    ensures n <= |Stripped(url)| && Stripped(url) <= url
    ensures |Stripped(url)| < |url| ==> url[|Stripped(url)|] in TRAILING_PUNCT
  {
    if MustStrip(url) {
      StrippedKeeps(url[..|url| - 1], n);
    }
  }

  // ---------------------------------------------------------------------
  // URL extent
  // ---------------------------------------------------------------------

  /** Index of the first whitespace character, or the length. */
  function RawEnd(s: string): (r: nat)
    ensures r <= |s|
    ensures forall k | 0 <= k < r :: !IsWhitespace(s[k])
    ensures r < |s| ==> IsWhitespace(s[r])
  {
    if s == "" || IsWhitespace(s[0]) then 0 else 1 + RawEnd(s[1..])
  }

  /** The URL that begins at the start of `s`. */
  function UrlAt(s: string): string {
    Stripped(s[..RawEnd(s)])
  }

  /** The scheme is never cut into, the URL has no whitespace, and what follows it cuts. */
  lemma {:induction false} UrlAtExtent(s: string)
    requires SchemeAt(s, 0)
    ensures var url := UrlAt(s);
      && url <= s
      && (exists scheme | IsScheme(scheme) :: |scheme| <= |url| && scheme <= url)
      && (forall k | 0 <= k < |url| :: !IsWhitespace(url[k]))
      && (|url| < |s| ==> CutsUrl(s[|url|]))
  {
    var scheme :| IsScheme(scheme) && OccursAt(s, scheme, 0);
    hide SchemeAt, IsWhitespace, UrlAt, IsScheme, CutsUrl;
    UrlKeepsScheme(s, scheme);
  }

  lemma UrlKeepsScheme(s: string, scheme: string)
    requires IsScheme(scheme) && OccursAt(s, scheme, 0)
    ensures var url := UrlAt(s);
      && url <= s && scheme <= url
      && (forall k | 0 <= k < |url| :: !IsWhitespace(url[k]))
      && (|url| < |s| ==> CutsUrl(s[|url|]))
  {
    SchemeInRaw(s, scheme);
    hide IsScheme, IsWhitespace, Stripped, RawEnd;
    StrippedKeeps(s[..RawEnd(s)], |scheme|);
    assert scheme == s[..|scheme|] == UrlAt(s)[..|scheme|];
  }

  lemma SchemeInRaw(s: string, scheme: string)
    requires IsScheme(scheme) && OccursAt(s, scheme, 0)
    ensures 0 < |scheme| <= RawEnd(s) && s[|scheme| - 1] !in TRAILING_PUNCT
  {
    SchemeChars(scheme, |scheme| - 1);
    assert s[..|scheme|][|scheme| - 1] == s[|scheme| - 1];
    if RawEnd(s) < |s| {
      SchemeAvoidsCut(s, scheme, 0, RawEnd(s));
    }
  }

  // ---------------------------------------------------------------------
  // Splitting
  // ---------------------------------------------------------------------

  /** Position in `text` of the first URL at or after `at`. */
  function NextUrl(text: string, at: nat): (r: Option<nat>)
    requires at <= |text|
    ensures r.Some? ==> at <= r.value < |text| && SchemeAt(text, r.value)
    ensures forall p | at <= p < (if r.Some? then r.value else |text|) :: !SchemeAt(text, p)
  {
    hide SchemeAt;
    SchemeAtSuffix(text, at);
    match EarliestScheme(text[at..])
    case None => None
    case Some(i) => Some(at + i)
  }

  /** The URL at `at` ends where it does, so the rest of the text starts with something else. */
  lemma UrlIsASegment(text: string, at: nat)
    requires at <= |text| && SchemeAt(text, at)
    ensures var url := UrlAt(text[at..]);
      SegmentOk(text, at, Segment(url, true)) && !SchemeAt(text, at + |url|)
  {
    hide SchemeAt, UrlAt, IsWhitespace;
    SchemeAtSuffix(text, at);
    assert SchemeAt(text[at..], at - at);
    UrlAtExtent(text[at..]);
    var url := UrlAt(text[at..]);
    if at + |url| < |text| {
      NoSchemeAtCut(text, at + |url|);
    } else {
      NoSchemeAtEnd(text);
    }
  }

  lemma NoSchemeAtCut(text: string, n: nat)
    requires n < |text| && CutsUrl(text[n])
    ensures !SchemeAt(text, n)
  {
    forall scheme | IsScheme(scheme) ensures !OccursAt(text, scheme, n) {
      SchemeChars(scheme, 0);
      assert scheme[0] != text[n];
    }
  }

  lemma NoSchemeAtEnd(text: string)
    ensures !SchemeAt(text, |text|)
  {
    assert forall scheme | IsScheme(scheme) :: |scheme| > 0;
  }

  function SegmentsFrom(text: string, at: nat): seq<Segment>
    requires at <= |text|
    decreases |text| - at, NextUrl(text, at) != Some(at)
  {
    if at == |text| then []
    else
      match NextUrl(text, at)
      case None => [Segment(text[at..], false)]
      case Some(start) =>
        if start > at then [Segment(text[at..start], false)] + SegmentsFrom(text, start)
        else
          UrlIsASegment(text, at);
          var url := UrlAt(text[at..]);
          [Segment(url, true)] + SegmentsFrom(text, at + |url|)
  }

  function Segments(text: string): seq<Segment> {
    SegmentsFrom(text, 0)
  }

  method SplitUrls(text: string) returns (segments: seq<Segment>)
    ensures segments == Segments(text)
  {
    hide SchemeAt, EarliestScheme, RawEnd, Stripped, MustStrip, OccursAt, SegmentsFrom, UrlAt, NextUrl, Segments;
    SegmentsStart(text);
    SegmentsEnd(text);
    segments := [];
    var remaining := text;
    ghost var at: nat := 0;
    while remaining != ""
      invariant at <= |text| && remaining == text[at..]
      invariant segments + SegmentsFrom(text, at) == Segments(text)
      decreases |remaining|
    {
      var urlStart := EarliestScheme(remaining);
      NextUrlIs(text, at);
      if urlStart.None? {
        SegmentsTail(text, at);
        segments := segments + [Segment(remaining, false)];
        return;
      }
      var start := urlStart.value;
      ghost var done := segments;
      if start > 0 {
        segments := segments + [Segment(remaining[..start], false)];
      }
      var urlSlice := remaining[start..];
      var rawEnd := RawEnd(urlSlice);
      var url := StripTrailingPunct(urlSlice[..rawEnd]);
      segments := segments + [Segment(url, true)];

      UrlAtIs(urlSlice);
      Suffixes(text, at, start);
      SegmentsStep(text, at, at + start, done);
      Suffixes(text, at, start + |url|);

      remaining := remaining[start + |url|..];
      at := at + start + |url|;
    }
  }

  lemma Suffixes(text: string, at: nat, n: nat)
    requires at + n <= |text|
    ensures text[at..][..n] == text[at..at + n] && text[at..][n..] == text[at + n..]
  {}

  lemma SegmentsStart(text: string)
    ensures text[0..] == text && [] + SegmentsFrom(text, 0) == Segments(text)
  {}

  lemma NextUrlIs(text: string, at: nat)
    requires at <= |text|
    ensures var first := EarliestScheme(text[at..]);
      NextUrl(text, at) == if first.None? then None else Some(at + first.value)
  {}

  lemma UrlAtIs(s: string)
    ensures UrlAt(s) == Stripped(s[..RawEnd(s)])
  {}

  lemma SegmentsEnd(text: string)
    ensures SegmentsFrom(text, |text|) == []
  {}

  lemma SegmentsTail(text: string, at: nat)
    requires at < |text| && NextUrl(text, at) == None
    ensures SegmentsFrom(text, at) == [Segment(text[at..], false)]
  {}

  /** One pass of the loop moves the next one or two segments to the list of finished ones. */
  lemma SegmentsStep(text: string, at: nat, start: nat, done: seq<Segment>)
    requires at <= |text| && NextUrl(text, at) == Some(start)
    ensures var url := UrlAt(text[start..]);
      && |url| <= |text| - start
      && |url| > 0
      && done + SegmentsFrom(text, at)
         == done + (if start > at then [Segment(text[at..start], false)] else [])
            + [Segment(url, true)] + SegmentsFrom(text, start + |url|)
  {
    hide SchemeAt, UrlAt, EarliestScheme;
    UrlIsASegment(text, start);
    assert NextUrl(text, start) == Some(start);
  }

  // ---------------------------------------------------------------------
  // What a correct split is
  // ---------------------------------------------------------------------

  /**
   `segment` is a correct piece of `text` at position `at`: a URL starts with a
   scheme and extends as far as it can, other text is free of scheme starts.
   */
  ghost predicate SegmentOk(text: string, at: nat, segment: Segment) {
    && segment.text != ""
    && OccursAt(text, segment.text, at)
    && if segment.isUrl
       then SchemeAt(text, at) && segment.text == UrlAt(text[at..])
       else forall p | at <= p < at + |segment.text| :: !SchemeAt(text, p)
  }

  /**
   The segments tile `text` from position `at` to its end, each one is correct
   where it stands, and URLs and other text alternate. Nothing here says how the
   segments are found.
   */
  ghost predicate IsUrlSplit(text: string, at: nat, segments: seq<Segment>)
    decreases |segments|
  {
    if segments == [] then at == |text|
    else
      && SegmentOk(text, at, segments[0])
      && (|segments| > 1 ==> segments[0].isUrl != segments[1].isUrl)
      && IsUrlSplit(text, at + |segments[0].text|, segments[1..])
  }

  lemma SplitCons(text: string, at: nat, first: Segment, rest: seq<Segment>)
    requires SegmentOk(text, at, first)
    requires IsUrlSplit(text, at + |first.text|, rest)
    requires rest != [] ==> rest[0].isUrl != first.isUrl
    ensures IsUrlSplit(text, at, [first] + rest)
  {
    hide SegmentOk;
    assert ([first] + rest)[1..] == rest;
  }

  lemma {:induction false} SegmentsAreASplit(text: string, at: nat)
    requires at <= |text|
    ensures IsUrlSplit(text, at, SegmentsFrom(text, at))
    decreases |text| - at, NextUrl(text, at) != Some(at)
  {
    hide SchemeAt, UrlAt, SegmentOk, SegmentsFrom, NextUrl;
    if at == |text| {
      SegmentsEnd(text);
    } else if NextUrl(text, at).None? {
      SegmentsTail(text, at);
      PlainPieceOk(text, at, |text|);
      SplitCons(text, at, Segment(text[at..], false), []);
    } else {
      var start := NextUrl(text, at).value;
      SegmentsNext(text, at);
      if start > at {
        SegmentsAreASplit(text, start);
        FirstIsUrl(text, start);
        PlainPieceOk(text, at, start);
        SplitCons(text, at, Segment(text[at..start], false), SegmentsFrom(text, start));
      } else {
        UrlIsASegment(text, at);
        UrlPieceNotEmpty(text, at);
        var url := Segment(UrlAt(text[at..]), true);
        var next := at + |url.text|;
        SegmentsAreASplit(text, next);
        FirstIsUrl(text, next);
        SplitCons(text, at, url, SegmentsFrom(text, next));
      }
    }
  }

  lemma PlainPieceOk(text: string, at: nat, to: nat)
    requires at < to <= |text|
    requires forall p | at <= p < to :: !SchemeAt(text, p)
    ensures SegmentOk(text, at, Segment(text[at..to], false)) && text[at..|text|] == text[at..]
  {
    hide SchemeAt;
  }

  lemma UrlPieceNotEmpty(text: string, at: nat)
    requires at <= |text| && SegmentOk(text, at, Segment(UrlAt(text[at..]), true))
    ensures 0 < |UrlAt(text[at..])| <= |text| - at
  {
    hide SchemeAt, UrlAt;
  }

  lemma SegmentsNext(text: string, at: nat)
    requires at < |text| && NextUrl(text, at).Some?
    ensures var start := NextUrl(text, at).value;
      if start > at then SegmentsFrom(text, at) == [Segment(text[at..start], false)] + SegmentsFrom(text, start)
      else
        var url := UrlAt(text[at..]);
        at + |url| <= |text| && SegmentsFrom(text, at) == [Segment(url, true)] + SegmentsFrom(text, at + |url|)
    ensures NextUrl(text, NextUrl(text, at).value) == NextUrl(text, at)
  {
    hide SchemeAt, UrlAt, NextUrl, SegmentsFrom;
    if NextUrl(text, at).value == at {
      SegmentsAtUrl(text, at);
    } else {
      SegmentsBeforeUrl(text, at);
    }
  }

  lemma SegmentsBeforeUrl(text: string, at: nat)
    requires at < |text| && NextUrl(text, at).Some? && NextUrl(text, at).value > at
    ensures var start := NextUrl(text, at).value;
      SegmentsFrom(text, at) == [Segment(text[at..start], false)] + SegmentsFrom(text, start)
  {
    hide SchemeAt, UrlAt, NextUrl;
  }

  lemma SegmentsAtUrl(text: string, at: nat)
    requires at < |text| && NextUrl(text, at) == Some(at)
    ensures var url := UrlAt(text[at..]);
      at + |url| <= |text| && SegmentsFrom(text, at) == [Segment(url, true)] + SegmentsFrom(text, at + |url|)
  {
    hide SchemeAt, UrlAt, NextUrl;
    UrlIsASegment(text, at);
  }

  lemma FirstIsUrl(text: string, at: nat)
    requires at <= |text|
    ensures SegmentsFrom(text, at) != [] ==> (SegmentsFrom(text, at)[0].isUrl <==> SchemeAt(text, at))
  {}

  /** The split is unique: any list of segments that is a correct split is the one computed. */
  lemma {:induction false} SplitIsUnique(text: string, at: nat, segments: seq<Segment>)
    requires at <= |text| && IsUrlSplit(text, at, segments)
    ensures segments == SegmentsFrom(text, at)
    decreases |segments|
  {
    hide SchemeAt, UrlAt, NextUrl, SegmentsFrom;
    if segments == [] {
      SegmentsEnd(text);
    } else {
      var first, rest := segments[0], segments[1..];
      assert segments == [first] + rest;
      var next := at + |first.text|;
      SplitIsUnique(text, next, rest);
      if first.isUrl {
        assert NextUrl(text, at) == Some(at);
        SegmentsNext(text, at);
      } else if rest == [] {
        assert first.text == text[at..next] == text[at..];
        assert NextUrl(text, at) == None;
        SegmentsTail(text, at);
      } else {
        assert rest[0] == segments[1] && SchemeAt(text, next);
        assert NextUrl(text, at) == Some(next);
        SegmentsNext(text, at);
      }
    }
  }

  lemma {:induction false} SplitCharacterised(text: string, segments: seq<Segment>)
    ensures IsUrlSplit(text, 0, segments) <==> segments == Segments(text)
  {
    SegmentsAreASplit(text, 0);
    if IsUrlSplit(text, 0, segments) {
      SplitIsUnique(text, 0, segments);
    }
  }

  /** A scheme that starts inside a piece of a correct split lies wholly inside it, and that piece is a URL. */
  lemma SchemeLiesInUrl(text: string, at: nat, segment: Segment, scheme: string, p: nat)
    requires SegmentOk(text, at, segment)
    requires IsScheme(scheme) && OccursAt(text, scheme, p)
    requires at <= p < at + |segment.text|
    ensures segment.isUrl && p + |scheme| <= at + |segment.text|
  {
    assert SchemeAt(text, p);
    hide SchemeAt, UrlAt, CutsUrl;
    UrlStops(text, at, segment);
    var end := at + |segment.text|;
    if end < |text| {
      SchemeAvoidsCut(text, scheme, p, end);
    }
  }

  /** What follows a URL in a correct split could not be part of a scheme. */
  lemma UrlStops(text: string, at: nat, segment: Segment)
    requires SegmentOk(text, at, segment) && segment.isUrl
    ensures var end := at + |segment.text|; end < |text| ==> CutsUrl(text[end])
  {
    hide SchemeAt, UrlAt, CutsUrl, IsWhitespace;
    SchemeAtSuffix(text, at);
    assert SchemeAt(text[at..], at - at);
    UrlAtExtent(text[at..]);
  }

  // ---------------------------------------------------------------------
  // Every rule once, in plain characters
  // ---------------------------------------------------------------------

  /** Closing punctuation that its opening partner in `url` keeps. */
  predicate IsKept(url: string, c: char) {
    (c == ')' && '(' in url) || (c == ']' && '[' in url) || (c == '>' && '<' in url)
  }

  /**
   A URL followed by one punctuation mark: the mark belongs to the URL exactly if it is
   a bracket that the URL opens; otherwise it is text of its own.
   */
  lemma OneUrl(scheme: string, rest: string, mark: char)
    requires IsScheme(scheme)
    requires forall k | 0 <= k < |rest| :: !IsWhitespace(rest[k])
    requires rest == "" || rest[|rest| - 1] !in {'.', ',', ')', ']', '>'}
    requires mark in {'.', ',', ')', ']', '>'}
    ensures var url := scheme + rest;
      Segments(url) == [Segment(url, true)] &&
      Segments(url + [mark]) ==
        if IsKept(url, mark) then [Segment(url + [mark], true)] else [Segment(url, true), Segment([mark], false)]
  {
    hide SchemeAt, UrlAt, IsWhitespace, IsKept, IsUrlSplit, SegmentsFrom;
    var url := scheme + rest;
    var text := url + [mark];
    OneUrlAt(scheme, rest);
    UrlAndMark(url, mark);
    SchemeAtPrefix(url, mark);
    OnlySegment(url);
    SplitIsUnique(url, 0, [Segment(url, true)]);
    if IsKept(url, mark) {
      OnlySegment(text);
      SplitIsUnique(text, 0, [Segment(text, true)]);
    } else {
      UrlThenMark(text, url, mark);
      SplitIsUnique(text, 0, [Segment(url, true), Segment([mark], false)]);
    }
  }

  lemma SchemeAtPrefix(url: string, mark: char)
    requires SchemeAt(url, 0)
    ensures SchemeAt(url + [mark], 0)
  {
    var scheme :| IsScheme(scheme) && OccursAt(url, scheme, 0);
    assert (url + [mark])[0..|scheme|] == url[0..|scheme|];
    assert OccursAt(url + [mark], scheme, 0);
  }

  /** The URL has no whitespace and nothing to strip. */
  lemma OneUrlAt(scheme: string, rest: string)
    requires IsScheme(scheme)
    requires forall k | 0 <= k < |rest| :: !IsWhitespace(rest[k])
    requires rest == "" || rest[|rest| - 1] !in {'.', ',', ')', ']', '>'}
    ensures var url := scheme + rest;
      && url != "" && url[|url| - 1] !in TRAILING_PUNCT
      && SchemeAt(url, 0) && (forall k | 0 <= k < |url| :: !IsWhitespace(url[k]))
  {
    var url := scheme + rest;
    forall k | 0 <= k < |scheme| ensures !IsWhitespace(scheme[k]) && url[k] == scheme[k] && !CutsUrl(scheme[k]) {
      SchemeChars(scheme, k);
    }
    assert url[..|scheme|] == scheme;
    assert OccursAt(url, scheme, 0);
    hide IsWhitespace;
    assert forall k | |scheme| <= k < |url| :: url[k] == rest[k - |scheme|];
  }

  lemma UrlAndMark(url: string, mark: char)
    requires url != "" && url[|url| - 1] !in TRAILING_PUNCT
    requires (forall k | 0 <= k < |url| :: !IsWhitespace(url[k])) && mark in {'.', ',', ')', ']', '>'}
    ensures UrlAt(url) == url
    ensures UrlAt(url + [mark]) == if IsKept(url, mark) then url + [mark] else url
  {
    var text := url + [mark];
    assert url[..RawEnd(url)] == url && text[..RawEnd(text)] == text && text[..|url|] == url;
    hide IsWhitespace, RawEnd;
  }

  lemma OnlySegment(text: string)
    requires text != "" && SchemeAt(text, 0) && UrlAt(text) == text
    ensures IsUrlSplit(text, 0, [Segment(text, true)])
  {
    assert text[0..] == text;
    hide SchemeAt, UrlAt;
  }

  lemma UrlThenMark(text: string, url: string, mark: char)
    requires text == url + [mark] && url != "" && SchemeAt(text, 0) && UrlAt(text) == url
    requires mark in {'.', ',', ')', ']', '>'}
    ensures IsUrlSplit(text, 0, [Segment(url, true), Segment([mark], false)])
  {
    hide SchemeAt, UrlAt, SegmentOk, IsUrlSplit;
    var first, second, none := Segment(url, true), Segment([mark], false), [];
    UrlPiece(text, url, mark);
    MarkPiece(text, url, mark);
    SplitEnds(text);
    assert [second] + none == [second] && [first] + [second] == [first, second];
    SplitCons(text, |url|, second, none);
    SplitCons(text, 0, first, [second]);
  }

  lemma UrlPiece(text: string, url: string, mark: char)
    requires text == url + [mark] && url != "" && SchemeAt(text, 0) && UrlAt(text) == url
    ensures SegmentOk(text, 0, Segment(url, true))
  {
    assert text[0..] == text && text[0..|url|] == url;
    hide SchemeAt, UrlAt;
  }

  lemma MarkPiece(text: string, url: string, mark: char)
    requires text == url + [mark] && CutsUrl(mark)
    ensures SegmentOk(text, |url|, Segment([mark], false))
  {
    assert text[|url|..|text|] == [mark];
    NoSchemeAtCut(text, |url|);
    hide SchemeAt, UrlAt;
  }

  lemma SplitEnds(text: string)
    ensures IsUrlSplit(text, |text|, [])
  {}
}
