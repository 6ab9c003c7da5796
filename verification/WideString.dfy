/**
 * Wide strings as UTF-8, with surrogate pairs combined where wchar_t has 16
 * bits. The specification is an encoder into UTF-16 (section 2.1 of RFC 2781).
 */
module WideString {
  import opened Collections
  import opened Wrappers
  import opened Utf8

  // ----- UTF-16 -----

  predicate IsUtf16SurrogatePair(first: bv32, second: bv32, utf16: bool) {
    utf16 && first & 0xFC00 == 0xD800 && second & 0xFC00 == 0xDC00
  }

  function CreateCodePointFromUtf16SurrogatePair(first: bv32, second: bv32): bv32 {
    (((first & 0x3FF) << 10) | (second & 0x3FF)) + 0x1_0000
  }

  /** The code points of a text of wide characters, of 16 bits or of 32. */
  function CodePoints(units: seq<bv32>, utf16: bool): seq<bv32> {
    if units == [] then []
    else if |units| > 1 && IsUtf16SurrogatePair(units[0], units[1], utf16) then
      [CreateCodePointFromUtf16SurrogatePair(units[0], units[1])] + CodePoints(units[2..], utf16)
    else [units[0]] + CodePoints(units[1..], utf16)
  }

  predicate Are16Bits(units: seq<bv32>) { forall i :: 0 <= i < |units| ==> units[i] <= 0xFFFF }

  function Utf16Units(c: bv32): seq<bv32> {
    if c <= 0xFFFF then [c] else [0xD800 | ((c - 0x1_0000) >> 10), 0xDC00 | ((c - 0x1_0000) & 0x3FF)]
  }

  function ToUtf16(codePoints: seq<bv32>): seq<bv32> {
    if codePoints == [] then [] else Utf16Units(codePoints[0]) + ToUtf16(codePoints[1..])
  }

  predicate IsHigh(c: bv32) { 0xD800 <= c <= 0xDBFF }

  predicate IsLow(c: bv32) { 0xDC00 <= c <= 0xDFFF }

  /** No value beyond Unicode, and no two neighbours that should have been one. */
  predicate WellCombined(codePoints: seq<bv32>) {
    && (forall i :: 0 <= i < |codePoints| ==> codePoints[i] <= 0x10_FFFF)
    && (forall i, j :: 0 <= i && j == i + 1 < |codePoints| ==> !(IsHigh(codePoints[i]) && IsLow(codePoints[j])))
  }

  lemma Splits(first: bv32, second: bv32)
    requires IsHigh(first) && IsLow(second)
    ensures var low20 := ((first & 0x3FF) << 10) | (second & 0x3FF);
            low20 <= 0xF_FFFF && 0xD800 | (low20 >> 10) == first && 0xDC00 | (low20 & 0x3FF) == second
  {
  }

  lemma LowBits(c: bv32, low20: bv32)
    requires 0xFFFF < c <= 0x10_FFFF && low20 == c - 0x1_0000
    ensures low20 <= 0xF_FFFF && low20 + 0x1_0000 == c
  {
  }

  lemma PairOfUnits(c: bv32)
    requires 0xFFFF < c <= 0x10_FFFF
    ensures var u := Utf16Units(c); IsHigh(u[0]) && IsLow(u[1]) && CreateCodePointFromUtf16SurrogatePair(u[0], u[1]) == c
  {
    var low20 := c - 0x1_0000;
    LowBits(c, low20);
  }

  lemma UnitsOfPair(first: bv32, second: bv32)
    requires IsHigh(first) && IsLow(second)
    ensures var c := CreateCodePointFromUtf16SurrogatePair(first, second);
            0xFFFF < c <= 0x10_FFFF && Utf16Units(c) == [first, second]
  {
    Splits(first, second);
  }

  lemma PairHead(c: bv32, tail: seq<bv32>)
    requires 0xFFFF < c <= 0x10_FFFF
    ensures CodePoints(Utf16Units(c) + tail, true) == [c] + CodePoints(tail, true)
  {
    PairOfUnits(c);
    var units := Utf16Units(c);
    var all := units + tail;
    assert all[0] == units[0] && all[1] == units[1] && all[2..] == tail;
  }

  lemma {:induction false} CodePointsReencode(units: seq<bv32>)
    requires Are16Bits(units)
    ensures ToUtf16(CodePoints(units, true)) == units
  {
    if units != [] {
      if |units| > 1 && IsUtf16SurrogatePair(units[0], units[1], true) {
        UnitsOfPair(units[0], units[1]);
        CodePointsReencode(units[2..]);
        assert [units[0], units[1]] + units[2..] == units;
      } else {
        CodePointsReencode(units[1..]);
        assert [units[0]] + units[1..] == units;
      }
    }
  }

  lemma {:induction false} CodePointsWellCombined(units: seq<bv32>)
    requires Are16Bits(units)
    ensures WellCombined(CodePoints(units, true))
    ensures units != [] ==> CodePoints(units, true) != []
    ensures units != [] && IsLow(CodePoints(units, true)[0]) ==> IsLow(units[0])
  {
    if units != [] {
      if |units| > 1 && IsUtf16SurrogatePair(units[0], units[1], true) {
        UnitsOfPair(units[0], units[1]);
        CodePointsWellCombined(units[2..]);
      } else {
        CodePointsWellCombined(units[1..]);
      }
    }
  }

  lemma OnlyThisHead(c: bv32, rest: seq<bv32>)
    requires WellCombined([c] + rest) && WellCombined(rest)
    requires Are16Bits(ToUtf16(rest))
    ensures CodePoints(Utf16Units(c) + ToUtf16(rest), true) == [c] + CodePoints(ToUtf16(rest), true)
  {
    var all := [c] + rest;
    assert all[0] == c;
    if c > 0xFFFF {
      PairHead(c, ToUtf16(rest));
    } else {
      assert rest != [] ==> all[1] == rest[0];
    }
  }

  lemma {:induction false} OnlyTheseCodePoints(codePoints: seq<bv32>)
    requires WellCombined(codePoints)
    ensures Are16Bits(ToUtf16(codePoints)) && CodePoints(ToUtf16(codePoints), true) == codePoints
  {
    if codePoints != [] {
      var c, rest := codePoints[0], codePoints[1..];
      OnlyTheseCodePoints(rest);
      assert [c] + rest == codePoints;
      OnlyThisHead(c, rest);
    }
  }

  /**
   * The code points found in a text of 16-bit units are the one way of reading
   * it in which UTF-16 writes them back as that text and no pair is left apart.
   */
  lemma AreTheCodePoints(units: seq<bv32>, codePoints: seq<bv32>)
    requires Are16Bits(units)
    ensures codePoints == CodePoints(units, true) <==> ToUtf16(codePoints) == units && WellCombined(codePoints)
  {
    CodePointsReencode(units);
    CodePointsWellCombined(units);
    if WellCombined(codePoints) {
      OnlyTheseCodePoints(codePoints);
    }
  }

  /** With 32 bits to a character each is a code point already. */
  lemma {:induction false} WideCharactersAreCodePoints(units: seq<bv32>)
    ensures CodePoints(units, false) == units
  {
    if units != [] {
      WideCharactersAreCodePoints(units[1..]);
    }
  }

  lemma {:induction false} CodePointsNulFree(units: seq<bv32>, utf16: bool)
    requires NulFree(units) && (utf16 ==> Are16Bits(units))
    ensures NulFree(CodePoints(units, utf16))
  {
    if units != [] {
      if |units| > 1 && IsUtf16SurrogatePair(units[0], units[1], utf16) {
        UnitsOfPair(units[0], units[1]);
        CodePointsNulFree(units[2..], utf16);
      } else {
        CodePointsNulFree(units[1..], utf16);
      }
    }
  }

  /** No character of a 16-bit text is lost, whether its surrogates are paired or not. */
  lemma Utf16TextReadsBack(text: seq<bv32>)
    requires NulFree(text) && Are16Bits(text)
    ensures var r := Decode(ToUtf8(CodePoints(text, true)));
            r.Some? && WellCombined(r.value) && ToUtf16(r.value) == text
  {
    CodePointsNulFree(text, true);
    CodePointsWellCombined(text);
    CodePointsReencode(text);
    DecodeToUtf8(CodePoints(text, true));
  }

  /** A 32-bit text is read back exactly when no character has more than 21 bits. */
  lemma Utf32TextReadsBack(text: seq<bv32>)
    requires NulFree(text)
    ensures Decode(ToUtf8(CodePoints(text, false))) == Some(text) <==> Representable(text)
  {
    WideCharactersAreCodePoints(text);
    DecodeToUtf8(text);
  }

  // ----- The conversion -----

  function TillNul(str: seq<bv32>): (text: seq<bv32>)
    ensures text <= str && NulFree(text) && (|text| < |str| ==> str[|text|] == 0)
  {
    if str == [] || str[0] == 0 then [] else [str[0]] + TillNul(str[1..])
  }

  /** The characters to convert: at most numChars, all of them for -1, and none after a NUL. */
  function Text(str: seq<bv32>, numChars: int): seq<bv32> {
    TillNul(if numChars == -1 || numChars > |str| then str else if numChars < 0 then [] else str[..numChars])
  }

  /** It is the longest beginning of the string without a NUL within the limit; a limit of -1 is none, and a lower one is 0. */
  lemma TextWithinLimit(str: seq<bv32>, numChars: int)
    ensures var text := Text(str, numChars);
            var limit := if numChars == -1 || numChars > |str| then |str| else if numChars < 0 then 0 else numChars;
            && text <= str && NulFree(text) && |text| <= limit
            && (|text| < limit ==> str[|text|] == 0)
  {
  }

  /** The number of characters the loop may look at. */
  function Count(str: seq<bv32>, numChars: int): int {
    if numChars == -1 then |TillNul(str)| else numChars
  }

  lemma TextOf(str: seq<bv32>, numChars: int, i: nat)
    requires 0 in str || 0 <= numChars <= |str|
    requires i <= |Text(str, numChars)| && i < Count(str, numChars)
    ensures i < |str| && (str[i] == 0 <==> i == |Text(str, numChars)|)
    ensures i < |Text(str, numChars)| ==> Text(str, numChars)[i] == str[i]
  {
    assert 0 in str && i >= |str| ==> |TillNul(str)| < |str|;
  }

  function NextCodePoint(str: seq<bv32>, i: nat, count: int, utf16: bool): (bv32, nat)
    requires i < |str| && (i + 1 < count ==> i + 1 < |str|)
  {
    if i + 1 < count && IsUtf16SurrogatePair(str[i], str[i + 1], utf16) then
      (CreateCodePointFromUtf16SurrogatePair(str[i], str[i + 1]), 2)
    else (str[i], 1)
  }

  function Utf8From(text: seq<bv32>, i: nat, utf16: bool): seq<bv8>
    requires i <= |text|
  {
    ToUtf8(CodePoints(text[i..], utf16))
  }

  lemma Utf8FromEnds(str: seq<bv32>, numChars: int, utf16: bool)
    ensures var text := Text(str, numChars);
            && Utf8From(text, 0, utf16) == ToUtf8(CodePoints(text, utf16))
            && Utf8From(text, |text|, utf16) == []
            && (|text| <= Count(str, numChars) || |text| == 0)
  {
    var text := Text(str, numChars);
    assert text[0..] == text && text[|text|..] == [];
  }

  lemma NextUtf8(text: seq<bv32>, i: nat, utf16: bool)
    requires i < |text|
    ensures var (c, width) := NextCodePoint(text, i, |text|, utf16);
            i + width <= |text| && Utf8From(text, i, utf16) == CodePointToUtf8(c) + Utf8From(text, i + width, utf16)
  {
    var units := text[i..];
    var (c, width) := NextCodePoint(text, i, |text|, utf16);
    assert units[0] == text[i] && (i + 1 < |text| ==> units[1] == text[i + 1]);
    assert units[width..] == text[i + width..];
    assert CodePoints(units, utf16) == [c] + CodePoints(units[width..], utf16);
  }

  lemma SameNext(str: seq<bv32>, numChars: int, i: nat, utf16: bool)
    requires 0 in str || 0 <= numChars <= |str|
    requires i < |Text(str, numChars)| && i < Count(str, numChars)
    requires i + 1 < Count(str, numChars) ==> i + 1 < |str|
    ensures NextCodePoint(str, i, Count(str, numChars), utf16) == NextCodePoint(Text(str, numChars), i, |Text(str, numChars)|, utf16)
  {
    TextOf(str, numChars, i);
    if i + 1 < Count(str, numChars) {
      TextOf(str, numChars, i + 1);
    }
  }

  lemma StrUtf8(str: seq<bv32>, numChars: int, i: nat, utf16: bool)
    requires 0 in str || 0 <= numChars <= |str|
    requires i < |Text(str, numChars)| && i < Count(str, numChars)
    requires i + 1 < Count(str, numChars) ==> i + 1 < |str|
    ensures var next, text := NextCodePoint(str, i, Count(str, numChars), utf16), Text(str, numChars);
            i + next.1 <= |text| && Utf8From(text, i, utf16) == CodePointToUtf8(next.0) + Utf8From(text, i + next.1, utf16)
  {
    SameNext(str, numChars, i, utf16);
    NextUtf8(Text(str, numChars), i, utf16);
  }

  /** One turn of the loop, from `stream` to `extended` and from `i` to `next`. */
  lemma OneStep(str: seq<bv32>, numChars: int, i: nat, utf16: bool, stream: seq<bv8>, extended: seq<bv8>, next: nat)
    requires 0 in str || 0 <= numChars <= |str|
    requires i < |Text(str, numChars)| && i < Count(str, numChars)
    requires i + 1 < Count(str, numChars) ==> i + 1 < |str|
    requires next == i + NextCodePoint(str, i, Count(str, numChars), utf16).1
    ensures next <= |Text(str, numChars)|
    ensures extended == stream + CodePointToUtf8(NextCodePoint(str, i, Count(str, numChars), utf16).0) ==>
              extended + Utf8From(Text(str, numChars), next, utf16) == stream + Utf8From(Text(str, numChars), i, utf16)
  {
    StrUtf8(str, numChars, i, utf16);
    var piece, text := CodePointToUtf8(NextCodePoint(str, i, Count(str, numChars), utf16).0), Text(str, numChars);
    Regroup(stream, piece, Utf8From(text, next, utf16));
  }

  method WideStringToUtf8(str: seq<bv32>, numChars: int, utf16: bool) returns (stream: seq<bv8>)
    requires 0 in str || 0 <= numChars <= |str|
    requires utf16 ==> Are16Bits(str)
    ensures stream == ToUtf8(CodePoints(Text(str, numChars), utf16))
  {
    ghost var text := Text(str, numChars);
    Utf8FromEnds(str, numChars, utf16);
    var count := Count(str, numChars);
    stream := [];
    var i := 0;
    while i < count
      invariant 0 <= i <= |text|
      invariant stream + Utf8From(text, i, utf16) == Utf8From(text, 0, utf16)
    {
      TextOf(str, numChars, i);
      if str[i] == 0 {
        break;
      }
      if i + 1 < count {
        TextOf(str, numChars, i + 1);
      }
      var (codePoint, width) := NextCodePoint(str, i, count, utf16);
      ghost var before, from := stream, i;
      stream := stream + CodePointToUtf8(codePoint);
      i := i + width;
      OneStep(str, numChars, from, utf16, before, stream, i);
    }
  }
}
