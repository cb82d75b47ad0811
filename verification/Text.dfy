/** Strings as sequences of characters: concatenation, substring search, lines. */
module Text {
  import opened Wrappers

  // ---------------------------------------------------------------------
  // Concatenation of parts
  // ---------------------------------------------------------------------

  function Concat(parts: seq<string>): string {
    if parts == [] then "" else parts[0] + Concat(parts[1..])
  }

  lemma ConcatCons(part: string, rest: seq<string>)
    ensures Concat([part] + rest) == part + Concat(rest)
  {
    assert ([part] + rest)[1..] == rest;
  }

  lemma ConcatNone()
    ensures Concat([]) == ""
  {}

  lemma {:induction false} ConcatAppend(a: seq<string>, b: seq<string>)
    ensures Concat(a + b) == Concat(a) + Concat(b)
  {
    hide Concat;
    if a == [] {
      ConcatNone();
      assert a + b == b;
    } else {
      ConcatAppend(a[1..], b);
      ConcatCons(a[0], a[1..]);
      ConcatCons(a[0], a[1..] + b);
      assert a == [a[0]] + a[1..] && a + b == [a[0]] + (a[1..] + b);
    }
  }

  lemma ConcatOne(part: string)
    ensures Concat([part]) == part
  {
    assert Concat([part][1..]) == "";
  }

  /** Where part `k` starts in the concatenation. */
  function Offset(parts: seq<string>, k: nat): nat
    requires k <= |parts|
  {
    |Concat(parts[..k])|
  }

  /** Part `k` occupies exactly the characters from its offset on. */
  lemma PartAt(parts: seq<string>, k: nat)
    requires k < |parts|
    ensures Offset(parts, k + 1) == Offset(parts, k) + |parts[k]| <= |Concat(parts)|
    ensures Concat(parts)[Offset(parts, k)..Offset(parts, k + 1)] == parts[k]
    ensures Concat(parts)[Offset(parts, k)..] == Concat(parts[k..])
  {
    hide Concat;
    ConcatAppend(parts[..k], parts[k..]);
    assert parts == parts[..k] + parts[k..];
    assert parts[..k + 1] == parts[..k] + [parts[k]];
    ConcatAppend(parts[..k], [parts[k]]);
    ConcatOne(parts[k]);
    assert parts[k..] == [parts[k]] + parts[k + 1..];
    ConcatAppend([parts[k]], parts[k + 1..]);
  }

  // ---------------------------------------------------------------------
  // Substring search
  // ---------------------------------------------------------------------

  predicate OccursAt(text: string, pat: string, i: nat) {
    i + |pat| <= |text| && text[i..i + |pat|] == pat
  }

  predicate Contains(text: string, pat: string) {
    exists i | 0 <= i <= |text| :: OccursAt(text, pat, i)
  }

  lemma SliceOfSlice(s: string, i: nat, j: nat, p: nat, q: nat)
    requires i <= j <= |s| && p <= q <= j - i
    ensures s[i..j][p..q] == s[i + p..i + q]
  {
    var a, b := s[i..j][p..q], s[i + p..i + q];
    assert forall k | 0 <= k < q - p :: a[k] == b[k];
    assert a == b;
  }

  /** An occurrence inside an occurrence. */
  lemma OccursInside(text: string, part: string, at: nat, pat: string, p: nat)
    requires OccursAt(text, part, at) && OccursAt(part, pat, p)
    ensures OccursAt(text, pat, at + p)
  {
    SliceOfSlice(text, at, at + |part|, p, p + |pat|);
  }

  /** `str::find`: the first occurrence at or after `from`. */
  function FindFrom(text: string, pat: string, from: nat): (r: Option<nat>)
    requires from <= |text|
    ensures r.Some? ==> from <= r.value && OccursAt(text, pat, r.value)
    ensures forall j | from <= j < (if r.Some? then r.value else |text| + 1) :: !OccursAt(text, pat, j)
    decreases |text| - from
  {
    if OccursAt(text, pat, from) then Some(from)
    else if from == |text| then None
    else FindFrom(text, pat, from + 1)
  }

  // ---------------------------------------------------------------------
  // Lines
  // ---------------------------------------------------------------------

  predicate HasNewline(s: string) { '\n' in s }

  /** A line that was ended by a newline also loses one carriage return. */
  function StripCr(line: string): string {
    if line != "" && line[|line| - 1] == '\r' then line[..|line| - 1] else line
  }

  function FirstNewline(s: string): (r: nat)
    requires HasNewline(s)
    ensures r < |s| && s[r] == '\n' && !HasNewline(s[..r])
  {
    if s[0] == '\n' then 0
    else
      assert s == [s[0]] + s[1..];
      var r := 1 + FirstNewline(s[1..]);
      assert s[..r] == [s[0]] + s[1..][..r - 1];
      r
  }

  /** `str::lines`. */
  function Lines(input: string): (lines: seq<string>)
    ensures forall k | 0 <= k < |lines| :: !HasNewline(lines[k])
    ensures lines == [] <==> input == ""
  {
    if input == "" then []
    else if !HasNewline(input) then [input]
    else
      var i := FirstNewline(input);
      [StripCr(input[..i])] + Lines(input[i + 1..])
  }

  /** A line may end in LF or CR LF, the last one in neither; both are taken off. */
  lemma FirstLine(first: string, rest: string)
    requires !HasNewline(first)
    ensures first != "" ==> Lines(first) == [first]
    ensures first == "" || first[|first| - 1] != '\r' ==> Lines(first + "\n" + rest) == [first] + Lines(rest)
    ensures Lines(first + "\r\n" + rest) == [first] + Lines(rest)
  {
    hide Lines, StripCr, HasNewline;
    StripCrIs(first);
    LineBeforeNewline(first, rest);
    LineBeforeNewline(first + "\r", rest);
    assert first + "\r\n" + rest == (first + "\r") + "\n" + rest;
  }

  lemma StripCrIs(line: string)
    ensures line == "" || line[|line| - 1] != '\r' ==> StripCr(line) == line
    ensures StripCr(line + "\r") == line
    ensures !HasNewline(line) ==> !HasNewline(line + "\r")
  {
    assert (line + "\r")[..|line|] == line;
  }

  lemma LineBeforeNewline(line: string, rest: string)
    requires !HasNewline(line)
    ensures line != "" ==> Lines(line) == [line]
    ensures Lines(line + "\n" + rest) == [StripCr(line)] + Lines(rest)
  {
    hide StripCr;
    var s := line + "\n" + rest;
    assert s[|line|] == '\n';
    FirstNewlineAtOrAfter(line, rest, FirstNewline(s));
    assert FirstNewline(s) == |line|;
    assert s[..|line|] == line && s[|line| + 1..] == rest;
  }

  function Join(lines: seq<string>): string {
    if lines == [] then ""
    else if |lines| == 1 then lines[0]
    else lines[0] + "\n" + Join(lines[1..])
  }

  lemma {:induction false} JoinSnoc(lines: seq<string>, last: string)
    ensures Join(lines + [last]) == if lines == [] then last else Join(lines) + "\n" + last
  {
    if lines != [] {
      assert (lines + [last])[1..] == lines[1..] + [last];
      JoinSnoc(lines[1..], last);
      if |lines| > 1 {
        calc {
          Join(lines + [last]);
          lines[0] + "\n" + (Join(lines[1..]) + "\n" + last);
          (lines[0] + "\n" + Join(lines[1..])) + "\n" + last;
        }
      }
    }
  }

  /** The text a reader of the lines sees, defined on characters alone: every
      CR LF becomes LF, and one line ending at the very end is dropped. */
  function Normalise(s: string): string {
    if s == "" || s == "\n" || s == "\r\n" then ""
    else if "\r\n" <= s then "\n" + Normalise(s[2..])
    else [s[0]] + Normalise(s[1..])
  }

  lemma CrLfHasNewline(s: string)
    ensures "\r\n" <= s ==> s[1] == '\n' && HasNewline(s)
  {
    if "\r\n" <= s {
      assert s[1] == "\r\n"[1];
    }
  }

  lemma StripCrTail(line: string)
    requires line != "" && line != "\r"
    ensures StripCr(line) == [line[0]] + StripCr(line[1..])
  {}

  lemma {:induction false} NormaliseLine(line: string, rest: string)
    requires !HasNewline(line)
    ensures Normalise(line + "\n" + rest)
         == StripCr(line) + if rest == "" then "" else "\n" + Normalise(rest)
  {
    var s := line + "\n" + rest;
    if line == "" {
      assert s == "\n" + rest && s[1..] == rest;
    } else if line == "\r" {
      assert s == "\r\n" + rest && s[2..] == rest;
    } else {
      assert s[0] == line[0] && s[0] != '\n';
      CrLfHasNewline(s);
      if |line| > 1 {
        assert s[1] == line[1] && line[1] != '\n';
      }
      assert Normalise(s) == [s[0]] + Normalise(s[1..]);
      assert s[1..] == line[1..] + "\n" + rest;
      NormaliseLine(line[1..], rest);
      StripCrTail(line);
    }
  }

  lemma {:induction false} NormaliseNoNewline(s: string)
    requires !HasNewline(s)
    ensures Normalise(s) == s
  {
    if s != "" {
      CrLfHasNewline(s);
      NormaliseNoNewline(s[1..]);
    }
  }

  lemma JoinCons(first: string, rest: seq<string>)
    ensures Join([first] + rest) == first + if rest == [] then "" else "\n" + Join(rest)
  {
    assert ([first] + rest)[1..] == rest;
  }

  lemma {:induction false} JoinLinesIsNormalise(input: string)
    ensures Join(Lines(input)) == Normalise(input)
  {
    hide Normalise, Join, StripCr;
    if input == "" {
      JoinOfNone();
    } else if !HasNewline(input) {
      NormaliseNoNewline(input);
      JoinCons(input, []);
      assert [input] + [] == [input];
    } else {
      var i := FirstNewline(input);
      var line, rest := input[..i], input[i + 1..];
      assert input == line + "\n" + rest;
      NormaliseLine(line, rest);
      JoinLinesIsNormalise(rest);
      JoinCons(StripCr(line), Lines(rest));
    }
  }

  lemma JoinOfNone()
    ensures Join([]) == Normalise("") == ""
  {}

  /** Joining loses nothing but the difference between no line and one empty line. */
  lemma {:induction false} JoinInjective(a: seq<string>, b: seq<string>)
    requires forall k | 0 <= k < |a| :: !HasNewline(a[k])
    requires forall k | 0 <= k < |b| :: !HasNewline(b[k])
    requires Join(a) == Join(b)
    ensures a == b || (a in {[], [""]} && b in {[], [""]})
  {
    if |a| > 1 && |b| > 1 {
      FirstNewlineAtOrAfter(a[0], Join(a[1..]), |b[0]|);
      FirstNewlineAtOrAfter(b[0], Join(b[1..]), |a[0]|);
      assert a[0] == Join(a)[..|a[0]|] == b[0];
      assert Join(a)[|a[0]| + 1..] == Join(a[1..]) == Join(b[1..]);
      JoinInjective(a[1..], b[1..]);
      JoinNonEmptyTail(a[1..], b[1..]);
      assert a == [a[0]] + a[1..] && b == [b[0]] + b[1..];
    } else {
      JoinHasNewline(a);
      JoinHasNewline(b);
      assert |a| == 1 ==> a == [Join(a)] && !HasNewline(a[0]);
      assert |b| == 1 ==> b == [Join(b)] && !HasNewline(b[0]);
    }
  }

  lemma FirstNewlineAtOrAfter(line: string, rest: string, i: nat)
    requires !HasNewline(line)
    requires i < |line + "\n" + rest| && (line + "\n" + rest)[i] == '\n'
    ensures |line| <= i
  {
    assert forall k | 0 <= k < |line| :: (line + "\n" + rest)[k] == line[k] && line[k] != '\n';
  }

  lemma JoinHasNewline(lines: seq<string>)
    ensures |lines| > 1 ==> HasNewline(Join(lines))
  {
    if |lines| > 1 {
      assert Join(lines)[|lines[0]|] == '\n';
    }
  }

  lemma JoinNonEmptyTail(a: seq<string>, b: seq<string>)
    requires a != [] && b != []
    requires a == b || (a in {[], [""]} && b in {[], [""]})
    ensures a == b
  {}
}
