/** Printing a key as grouped hexadecimal (src/ui/omemo_trust.rs, `format_fingerprint`), and reading it back. */
module Fingerprint {
  import opened Wrappers

  type Byte = n: nat | n < 256

  const DIGITS: string := "0123456789ABCDEF"

  /** `{:02X}`. */
  function HexByte(b: Byte): string { [DIGITS[b / 16], DIGITS[b % 16]] }

  function Hex(key: seq<Byte>): (s: string)
    ensures |s| == 2 * |key|
    ensures forall i | 0 <= i < |s| :: s[i] in DIGITS
  {
    if key == [] then "" else HexByte(key[0]) + Hex(key[1..])
  }

  /** `chunks(8)`. */
  function Chunks(s: string): seq<string> {
    if s == "" then [] else if |s| <= 8 then [s] else [s[..8]] + Chunks(s[8..])
  }

  function JoinSpaces(blocks: seq<string>): string {
    if blocks == [] then "" else if |blocks| == 1 then blocks[0] else blocks[0] + " " + JoinSpaces(blocks[1..])
  }

  /** The text in blocks of eight, the blocks separated by spaces. */
  function Grouped(s: string): string { JoinSpaces(Chunks(s)) }

  function Format(key: seq<Byte>): string {
    if key == [] then "(no key)" else Grouped(Hex(key))
  }

  // ---------------------------------------------------------------------
  // Reading
  // ---------------------------------------------------------------------

  function Kept(c: char): string { if c == ' ' then "" else [c] }

  function RemoveSpaces(s: string): string {
    if s == "" then "" else Kept(s[0]) + RemoveSpaces(s[1..])
  }

  function DigitValue(c: char): (r: Option<nat>)
    ensures r.Some? ==> r.value < 16
  {
    if '0' <= c <= '9' then Some((c as int) - ('0' as int))
    else if 'A' <= c <= 'F' then Some(10 + (c as int) - ('A' as int))
    else None
  }

  function Unhex(s: string): Option<seq<Byte>> {
    if s == "" then Some([])
    else if |s| == 1 then None
    else
      match (DigitValue(s[0]), DigitValue(s[1]), Unhex(s[2..]))
      case (Some(high), Some(low), Some(rest)) => Some([16 * high + low] + rest)
      case _ => None
  }

  // ---------------------------------------------------------------------
  // Round trip
  // ---------------------------------------------------------------------

  lemma DigitRoundTrip(n: nat)
    requires n < 16
    ensures DigitValue(DIGITS[n]) == Some(n) && DIGITS[n] != ' '
  {}

  lemma UnhexByte(b: Byte, rest: string, decoded: seq<Byte>)
    requires Unhex(rest) == Some(decoded)
    ensures Unhex(HexByte(b) + rest) == Some([b] + decoded)
  {
    DigitRoundTrip(b / 16);
    DigitRoundTrip(b % 16);
    hide DigitValue;
    var text := HexByte(b) + rest;
    assert text[0] == DIGITS[b / 16] && text[1] == DIGITS[b % 16] && text[2..] == rest;
  }

  lemma {:induction false} UnhexHex(key: seq<Byte>)
    ensures Unhex(Hex(key)) == Some(key)
  {
    hide Unhex, HexByte;
    if key == [] {
      UnhexNothing();
    } else {
      UnhexHex(key[1..]);
      UnhexByte(key[0], Hex(key[1..]), key[1..]);
      assert key == [key[0]] + key[1..];
    }
  }

  lemma UnhexNothing()
    ensures Unhex("") == Some([])
  {}

  lemma {:induction false} RemoveSpacesAppend(a: string, b: string)
    ensures RemoveSpaces(a + b) == RemoveSpaces(a) + RemoveSpaces(b)
  {
    hide Kept;
    if a == "" {
      assert a + b == b;
    } else {
      RemoveSpacesAppend(a[1..], b);
      assert (a + b)[0] == a[0] && (a + b)[1..] == a[1..] + b;
      assert RemoveSpaces(a + b) == Kept(a[0]) + RemoveSpaces((a + b)[1..]);
    }
  }

  lemma {:induction false} RemoveNoSpaces(s: string)
    requires ' ' !in s
    ensures RemoveSpaces(s) == s
  {
    if s != "" {
      RemoveNoSpaces(s[1..]);
    }
  }

  lemma GroupedStep(s: string)
    ensures |s| <= 8 ==> Grouped(s) == s
    ensures |s| > 8 ==> Grouped(s) == s[..8] + " " + Grouped(s[8..])
  {
    if |s| > 8 {
      assert Chunks(s)[0] == s[..8] && Chunks(s)[1..] == Chunks(s[8..]) != [];
    }
  }

  lemma {:induction false} GroupingOnlyAddsSpaces(s: string)
    requires ' ' !in s
    ensures RemoveSpaces(Grouped(s)) == s
    decreases |s|
  {
    hide Grouped, RemoveSpaces;
    GroupedStep(s);
    if |s| <= 8 {
      RemoveNoSpaces(s);
    } else {
      GroupingOnlyAddsSpaces(s[8..]);
      RemoveNoSpaces(s[..8]);
      RemoveSpacesAppend(s[..8] + " ", Grouped(s[8..]));
      RemoveSpacesAppend(s[..8], " ");
      RemoveOneSpace();
      assert s == s[..8] + s[8..];
    }
  }

  lemma RemoveOneSpace()
    ensures RemoveSpaces(" ") == ""
  {}

  lemma HexHasNoSpace(key: seq<Byte>)
    ensures ' ' !in Hex(key)
  {}

  /** Removing the spaces and decoding the digits gives the key back. */
  lemma {:induction false} FormatInvertible(key: seq<Byte>)
    requires key != []
    ensures Unhex(RemoveSpaces(Format(key))) == Some(key)
  {
    HexHasNoSpace(key);
    GroupingOnlyAddsSpaces(Hex(key));
    UnhexHex(key);
  }

  /** Two keys are shown alike only if they are the same; no key looks like the empty one. */
  lemma FormatInjective(a: seq<Byte>, b: seq<Byte>)
    requires Format(a) == Format(b)
    ensures a == b
  {
    EmptyIsNotHex();
    if a != [] {
      FormatInvertible(a);
    }
    if b != [] {
      FormatInvertible(b);
    }
  }

  lemma EmptyIsNotHex()
    ensures Unhex(RemoveSpaces("(no key)")) == None
  {
    assert DigitValue('(').None?;
    assert RemoveSpaces("(no key)")[0] == '(';
  }

  // ---------------------------------------------------------------------
  // Shape
  // ---------------------------------------------------------------------

  /** Every ninth character is a space; the others are the digits in order. */
  lemma {:induction false} GroupedAt(s: string)
    requires s != ""
    ensures var g := Grouped(s);
      && |g| == |s| + (|s| - 1) / 8
      && forall i | 0 <= i < |g| ::
          if i % 9 == 8 then g[i] == ' ' else i - i / 9 < |s| && g[i] == s[i - i / 9]
    decreases |s|
  {
    hide Grouped;
    GroupedStep(s);
    if |s| > 8 {
      var rest := Grouped(s[8..]);
      GroupedAt(s[8..]);
      forall i | 0 <= i < |Grouped(s)|
        ensures if i % 9 == 8 then Grouped(s)[i] == ' ' else i - i / 9 < |s| && Grouped(s)[i] == s[i - i / 9]
      {
        GroupStep(s, rest, i);
      }
    }
  }

  lemma GroupStep(s: string, rest: string, i: nat)
    requires |s| > 8 && i < 9 + |rest|
    requires i >= 9 ==> var j := i - 9;
      if j % 9 == 8 then rest[j] == ' ' else j - j / 9 < |s[8..]| && rest[j] == s[8..][j - j / 9]
    ensures var g := s[..8] + " " + rest;
      if i % 9 == 8 then g[i] == ' ' else i - i / 9 < |s| && g[i] == s[i - i / 9]
  {
    var j := i - 9;
    assert i >= 9 ==> j % 9 == i % 9 && j / 9 == i / 9 - 1;
  }

  /**
   A key of n bytes is shown in 2n digits and a space between every eight of them:
   ceil(n/4) blocks, the last of which may be shorter.
   */
  lemma {:induction false} FormatShape(key: seq<Byte>)
    requires key != []
    ensures var n := |key|; var text := Format(key);
      && |text| == 2 * n + (n + 3) / 4 - 1
      && (forall i | 0 <= i < |text| :: text[i] == ' ' <==> i % 9 == 8)
      && (forall i | 0 <= i < |text| && i % 9 != 8 :: '0' <= text[i] <= '9' || 'A' <= text[i] <= 'F')
      && text[|text| - 1] != ' '
  {
    hide Grouped, Hex;
    HexHasNoSpace(key);
    GroupedAt(Hex(key));
    BlockCount(|key|);
    LastIsNoSpace(2 * |key|);
    var text := Format(key);
    forall i | 0 <= i < |text|
      ensures text[i] == ' ' <==> i % 9 == 8
      ensures i % 9 != 8 ==> '0' <= text[i] <= '9' || 'A' <= text[i] <= 'F'
    {
      assert i % 9 != 8 ==> text[i] == Hex(key)[i - i / 9] && text[i] in Hex(key);
    }
  }

  lemma BlockCount(n: nat)
    requires n > 0
    ensures (2 * n - 1) / 8 == (n + 3) / 4 - 1
  {}

  lemma LastIsNoSpace(digits: nat)
    requires digits > 0
    ensures (digits + (digits - 1) / 8 - 1) % 9 != 8
  {
    var blocks, rest := (digits - 1) / 8, (digits - 1) % 8;
    assert digits + blocks - 1 == 9 * blocks + rest;
  }
}
