/**
 * Strings printed as C++ string literals. Characters are their codes, so that
 * narrow and wide strings are the same but for the L. The specification is a
 * reader of adjacent literals, with escapes taken as far as they go (sections
 * 2.13.2 and 2.13.4 of ISO/IEC 14882:2003, without trigraphs).
 */
module CppLiteral {
  import opened Collections
  import opened Wrappers
  import opened Hexadecimal
  import opened Ostreams

  datatype CharFormat = AsIs | HexEscape | SpecialEscape

  predicate IsPrintableAscii(c: nat) { 0x20 <= c <= 0x7E }

  /** PrintAsCharLiteralTo: what it prints, and how that was formatted. */
  function CharLiteral(c: nat): (string, CharFormat) {
    match c
    case 0 => ("\\0", SpecialEscape)
    case 39 => ("\\'", SpecialEscape)
    case 92 => ("\\\\", SpecialEscape)
    case 7 => ("\\a", SpecialEscape)
    case 8 => ("\\b", SpecialEscape)
    case 12 => ("\\f", SpecialEscape)
    case 10 => ("\\n", SpecialEscape)
    case 13 => ("\\r", SpecialEscape)
    case 9 => ("\\t", SpecialEscape)
    case 11 => ("\\v", SpecialEscape)
    case _ => if IsPrintableAscii(c) then ([c as char], AsIs) else ("\\x" + HexNumeral(c), HexEscape)
  }

  /** PrintAsStringLiteralTo: quotes change places. */
  function StringLiteral(c: nat): (string, CharFormat) {
    if c == 39 then ("'", AsIs)
    else if c == 34 then ("\\\"", SpecialEscape)
    else CharLiteral(c)
  }

  predicate IsXDigit(c: nat) { c < 128 && IsHexDigit(c as char) }

  function QuoteBegin(wide: bool): string { if wide then "L\"" else "\"" }

  /** What is printed for the rest of a string, after a hexadecimal escape or not. */
  function Rest(chars: seq<nat>, wide: bool, isPreviousHex: bool): string {
    if chars == [] then "\"" else
    var (text, format) := StringLiteral(chars[0]);
    (if isPreviousHex && IsXDigit(chars[0]) then "\" " + QuoteBegin(wide) else "") + text + Rest(chars[1..], wide, format == HexEscape)
  }

  function Printed(chars: seq<nat>, wide: bool): string { QuoteBegin(wide) + Rest(chars, wide, false) }

  /** What the stream holds after one more character. */
  function WithNext(before: string, c: nat, wide: bool, isPreviousHex: bool): string {
    (if isPreviousHex && IsXDigit(c) then before + ("\" " + QuoteBegin(wide)) else before) + StringLiteral(c).0
  }

  /** One turn of the loop, with what was written before. */
  lemma OneTurn(chars: seq<nat>, index: nat, wide: bool, isPreviousHex: bool, before: string)
    requires index < |chars|
    ensures var isHex := StringLiteral(chars[index]).1 == HexEscape;
            WithNext(before, chars[index], wide, isPreviousHex) + Rest(chars[index + 1..], wide, isHex)
            == before + Rest(chars[index..], wide, isPreviousHex)
  {
    assert chars[index..][0] == chars[index] && chars[index..][1..] == chars[index + 1..];
    var (text, format) := StringLiteral(chars[index]);
    var gap := if isPreviousHex && IsXDigit(chars[index]) then "\" " + QuoteBegin(wide) else "";
  }

  /** The body of the loop: a break where it is needed, and the character. */
  method PrintNextTo(cur: nat, wide: bool, isPreviousHex: bool, os: Ostream) returns (isHex: bool)
    modifies os
    ensures os.text == WithNext(old(os.text), cur, wide, isPreviousHex)
    ensures isHex == (StringLiteral(cur).1 == HexEscape)
  {
    if isPreviousHex && IsXDigit(cur) {
      os.Put("\" " + QuoteBegin(wide));
    }
    var (text, format) := StringLiteral(cur);
    os.Put(text);
    isHex := format == HexEscape;
  }

  method PrintCharsAsStringTo(begin: seq<nat>, wide: bool, os: Ostream)
    modifies os
    ensures os.text == old(os.text) + Printed(begin, wide)
  {
    os.Put(QuoteBegin(wide));
    var isPreviousHex := false;
    var index := 0;
    assert begin[0..] == begin;
    ghost var whole := os.text + Rest(begin, wide, false);
    Regroup(old(os.text), QuoteBegin(wide), Rest(begin, wide, false));
    while index < |begin|
      invariant 0 <= index <= |begin|
      invariant os.text + Rest(begin[index..], wide, isPreviousHex) == whole
    {
      OneTurn(begin, index, wide, isPreviousHex, os.text);
      isPreviousHex := PrintNextTo(begin[index], wide, isPreviousHex, os);
      index := index + 1;
    }
    assert begin[index..] == [];
    os.Put("\"");
  }

  // ----- Reading -----

  predicate IsOctalDigit(ch: char) { '0' <= ch <= '7' }

  function OctalRun(s: string, max: nat): (n: nat)
    ensures n <= |s| && n <= max && forall i :: 0 <= i < n ==> IsOctalDigit(s[i])
  {
    if max == 0 || s == "" || !IsOctalDigit(s[0]) then 0 else 1 + OctalRun(s[1..], max - 1)
  }

  function OctalValue(s: string): nat
    requires forall i :: 0 <= i < |s| ==> IsOctalDigit(s[i])
  {
    if s == "" then 0 else
    assert IsOctalDigit(s[|s| - 1]);
    8 * OctalValue(s[..|s| - 1]) + (s[|s| - 1] as nat - '0' as nat)
  }

  /** The code an escape sequence stands for and its length, both without the backslash. */
  function Escape(s: string): (r: Option<(nat, nat)>)
    ensures r.Some? ==> 0 < r.value.1 <= |s|
  {
    if s == "" then None
    else if IsOctalDigit(s[0]) then Some((OctalValue(s[..OctalRun(s, 3)]), OctalRun(s, 3)))
    else if s[0] == 'x' then
      if HexRun(s[1..]) == 0 then None else Some((HexValue(s[1..][..HexRun(s[1..])]), 1 + HexRun(s[1..])))
    else if SimpleEscape(s[0]).Some? then Some((SimpleEscape(s[0]).value, 1))
    else None
  }

  function SimpleEscape(ch: char): Option<nat> {
    match ch
    case '\'' => Some(39)
    case '\"' => Some(34)
    case '?' => Some(63)
    case '\\' => Some(92)
    case 'a' => Some(7)
    case 'b' => Some(8)
    case 'f' => Some(12)
    case 'n' => Some(10)
    case 'r' => Some(13)
    case 't' => Some(9)
    case 'v' => Some(11)
    case _ => None
  }

  function Cons(c: nat, r: Option<seq<nat>>): Option<seq<nat>> {
    if r.Some? then Some([c] + r.value) else None
  }

  /** The characters left in a literal, and in those after it; as they are only where they are printable ASCII. */
  function ReadRest(s: string, wide: bool): Option<seq<nat>>
    decreases |s|
  {
    if s == "" then None
    else if s[0] == '\"' then ReadLiterals(s[1..], wide)
    else if s[0] == '\\' then
      match Escape(s[1..])
      case None => None
      case Some((c, n)) => Cons(c, ReadRest(s[1 + n..], wide))
    else if s[0] < ' ' || s[0] > '~' then None
    else Cons(s[0] as nat, ReadRest(s[1..], wide))
  }

  /** Literals in a row, with spaces between them. */
  function ReadLiterals(s: string, wide: bool): Option<seq<nat>>
    decreases |s|
  {
    if s == "" then Some([])
    else if s[0] == ' ' then ReadLiterals(s[1..], wide)
    else if QuoteBegin(wide) <= s then ReadRest(s[|QuoteBegin(wide)|..], wide)
    else None
  }

  // ----- Which form is chosen -----

  /** Printable characters stand for themselves. */
  lemma PrintableAsIs(c: nat)
    requires 0x20 <= c <= 0x7E && c != '\"' as nat && c != '\\' as nat
    ensures StringLiteral(c) == ([c as char], AsIs)
  {
  }

  /** Of the others, those with a letter of their own have that. */
  lemma LetterWhereThereIsOne(c: nat, ch: char)
    requires SimpleEscape(ch) == Some(c) && !(0x20 <= c <= 0x7E && c != '\"' as nat && c != '\\' as nat)
    ensures StringLiteral(c) == (['\\', ch], SpecialEscape)
  {
  }

  /** And hexadecimal is left for the rest, save NUL. */
  lemma HexadecimalForTheRest(c: nat)
    requires !(0x20 <= c <= 0x7E) && forall ch :: SimpleEscape(ch) != Some(c)
    ensures StringLiteral(c) == if c == 0 then ("\\0", SpecialEscape) else ("\\x" + HexNumeral(c), HexEscape)
  {
    assert SimpleEscape('a') != Some(c) && SimpleEscape('b') != Some(c) && SimpleEscape('f') != Some(c);
    assert SimpleEscape('n') != Some(c) && SimpleEscape('r') != Some(c) && SimpleEscape('t') != Some(c);
    assert SimpleEscape('v') != Some(c);
  }

  /** A literal is broken only between a hexadecimal escape and a hexadecimal digit. */
  lemma BrokenWhereNeeded(chars: seq<nat>, wide: bool)
    requires chars != []
    ensures var c, text := chars[0], StringLiteral(chars[0]);
            && Rest(chars, wide, false) == text.0 + Rest(chars[1..], wide, text.1 == HexEscape)
            && Rest(chars, wide, true) ==
                 (if '0' as nat <= c <= '9' as nat || 'A' as nat <= c <= 'F' as nat || 'a' as nat <= c <= 'f' as nat
                  then "\" " + QuoteBegin(wide) else "") + Rest(chars, wide, false)
  {
    assert "" + StringLiteral(chars[0]).0 == StringLiteral(chars[0]).0;
  }

  function AsString(chars: seq<nat>): string
    requires forall i :: 0 <= i < |chars| ==> 0x20 <= chars[i] <= 0x7E
  {
    seq(|chars|, i requires 0 <= i < |chars| => chars[i] as char)
  }

  lemma {:induction false} PlainRest(chars: seq<nat>, wide: bool)
    requires forall i :: 0 <= i < |chars| ==> 0x20 <= chars[i] <= 0x7E && chars[i] != '\"' as nat && chars[i] != '\\' as nat
    ensures Rest(chars, wide, false) == AsString(chars) + "\""
  {
    if chars != [] {
      BrokenWhereNeeded(chars, wide);
      PrintableAsIs(chars[0]);
      PlainRest(chars[1..], wide);
      assert AsString(chars) == [chars[0] as char] + AsString(chars[1..]);
    }
  }

  /** Plain text is printed as it is between quotes, after an L if it is wide. */
  lemma PlainTextAsIs(chars: seq<nat>, wide: bool)
    requires forall i :: 0 <= i < |chars| ==> 0x20 <= chars[i] <= 0x7E && chars[i] != '\"' as nat && chars[i] != '\\' as nat
    ensures Printed(chars, wide) == (if wide then "L\"" else "\"") + AsString(chars) + "\""
  {
    PlainRest(chars, wide);
  }

  // ----- What the printed text says -----

  predicate IsOctal(c: nat) { '0' as nat <= c <= '7' as nat }

  predicate SwallowsNext(chars: seq<nat>) { |chars| > 1 && chars[0] == 0 && IsOctal(chars[1]) }

  /** The string that the text denotes: a NUL takes up to two octal digits after it. */
  function ReadBack(chars: seq<nat>): seq<nat> {
    if chars == [] then []
    else if !SwallowsNext(chars) then [chars[0]] + ReadBack(chars[1..])
    else if |chars| == 2 || !IsOctal(chars[2]) then [chars[1] - '0' as nat] + ReadBack(chars[2..])
    else [8 * (chars[1] - '0' as nat) + (chars[2] - '0' as nat)] + ReadBack(chars[3..])
  }

  lemma ReadHexEscape(c: nat, t: string, wide: bool)
    requires t == "" || !IsHexDigit(t[0])
    ensures ReadRest("\\x" + HexNumeral(c) + t, wide) == Cons(c, ReadRest(t, wide))
  {
    var h := HexNumeral(c);
    HexRunEnds(h, t);
    var s := "\\x" + h + t;
    assert s[0] == '\\' && s[1..][0] == 'x' && s[1..][1..] == h + t && (h + t)[..|h|] == h;
    assert s[2 + |h|..] == t;
  }

  lemma ReadAsIs(c: nat, t: string, wide: bool)
    requires IsPrintableAscii(c) && c != 34 && c != 92
    ensures ReadRest([c as char] + t, wide) == Cons(c, ReadRest(t, wide))
  {
    assert ([c as char] + t)[1..] == t;
  }

  lemma ReadNul(t: string, wide: bool)
    requires t != "" && !IsOctalDigit(t[0])
    ensures ReadRest("\\0" + t, wide) == Cons(0, ReadRest(t, wide))
  {
    var s := "\\0" + t;
    assert s[1..][0] == '0' && s[1..][1..] == t && s[2..] == t;
    assert OctalRun(s[1..], 3) == 1;
    assert s[1..][..1] == "0" && "0"[..0] == "";
    assert Escape(s[1..]) == Some((0, 1));
  }

  lemma SpecialIsSimple(c: nat)
    requires c != 0 && StringLiteral(c).1 == SpecialEscape
    ensures var text := StringLiteral(c).0;
            |text| == 2 && text[0] == '\\' && SimpleEscape(text[1]) == Some(c)
  {
  }

  lemma ReadSpecial(c: nat, text: string, t: string, wide: bool)
    requires |text| == 2 && text[0] == '\\' && SimpleEscape(text[1]) == Some(c)
    ensures ReadRest(text + t, wide) == Cons(c, ReadRest(t, wide))
  {
    assert text == ['\\', text[1]];
  }

  /** Every character but a NUL is read back from its own text. */
  lemma ReadPiece(c: nat, t: string, wide: bool)
    requires c != 0 && (StringLiteral(c).1 == HexEscape ==> t == "" || !IsHexDigit(t[0]))
    ensures ReadRest(StringLiteral(c).0 + t, wide) == Cons(c, ReadRest(t, wide))
  {
    var (text, format) := StringLiteral(c);
    match format {
      case AsIs => ReadAsIs(c, t, wide);
      case HexEscape => ReadHexEscape(c, t, wide);
      case SpecialEscape => SpecialIsSimple(c); ReadSpecial(c, text, t, wide);
    }
  }

  /** A literal is broken where a digit would be taken for part of the escape before it. */
  lemma ReadBreak(s: string, wide: bool)
    ensures ReadRest("\" " + QuoteBegin(wide) + s, wide) == ReadRest(s, wide)
  {
    var q := QuoteBegin(wide);
    var all := "\" " + q + s;
    assert all[0] == '\"' && all[1..][0] == ' ' && all[1..][1..] == q + s;
    assert q <= q + s && (q + s)[|q|..] == s && (q + s)[0] == q[0];
    assert ReadLiterals(q + s, wide) == ReadRest(s, wide);
    assert ReadLiterals(all[1..], wide) == ReadLiterals(q + s, wide);
  }

  lemma ReadOctal1(d: char, t: string, wide: bool)
    requires IsOctalDigit(d) && t != "" && !IsOctalDigit(t[0])
    ensures ReadRest("\\0" + [d] + t, wide) == Cons(d as nat - '0' as nat, ReadRest(t, wide))
  {
    var s := "\\0" + [d] + t;
    var e := s[1..];
    assert e[0] == '0' && e[1] == d && e[1..][1..] == t && s[3..] == t;
    assert OctalRun(e[1..], 2) == 1;
    var v := ['0', d];
    assert e[..2] == v && v[..1] == "0" && "0"[..0] == "";
    assert OctalValue("0") == 0 && OctalValue(v) == d as nat - '0' as nat;
  }

  lemma ReadOctal2(d: char, d': char, t: string, wide: bool)
    requires IsOctalDigit(d) && IsOctalDigit(d')
    ensures ReadRest("\\0" + [d, d'] + t, wide) == Cons(8 * (d as nat - '0' as nat) + (d' as nat - '0' as nat), ReadRest(t, wide))
  {
    var s := "\\0" + [d, d'] + t;
    var e := s[1..];
    assert e[0] == '0' && e[1] == d && e[2] == d' && s[4..] == t;
    assert e[1..][0] == d && e[1..][1..][0] == d';
    assert OctalRun(e[1..][1..], 1) == 1 && OctalRun(e[1..], 2) == 2;
    var v := ['0', d, d'];
    assert e[..3] == v && v[..2] == ['0', d] && ['0', d][..1] == "0" && "0"[..0] == "";
    assert OctalValue(['0', d]) == d as nat - '0' as nat;
  }

  lemma ReadBroken(chars: seq<nat>, wide: bool)
    requires chars != [] && IsXDigit(chars[0])
    ensures ReadRest(Rest(chars, wide, true), wide) == ReadRest(Rest(chars, wide, false), wide)
  {
    var s := Rest(chars, wide, false);
    assert Rest(chars, wide, true) == "\" " + QuoteBegin(wide) + s;
    ReadBreak(s, wide);
  }

  lemma RestUnbroken(chars: seq<nat>, wide: bool, isPreviousHex: bool)
    requires chars != [] && !(isPreviousHex && IsXDigit(chars[0]))
    ensures Rest(chars, wide, isPreviousHex) == StringLiteral(chars[0]).0 + Rest(chars[1..], wide, StringLiteral(chars[0]).1 == HexEscape)
  {
    NothingBefore(StringLiteral(chars[0]).0, Rest(chars[1..], wide, StringLiteral(chars[0]).1 == HexEscape));
  }

  lemma NothingBefore(text: string, rest: string)
    ensures "" + text + rest == text + rest
  {
    assert "" + text == text;
  }

  lemma ReadCharacter(chars: seq<nat>, wide: bool, isPreviousHex: bool)
    requires chars != [] && chars[0] != 0 && !(isPreviousHex && IsXDigit(chars[0]))
    ensures var rest := Rest(chars[1..], wide, StringLiteral(chars[0]).1 == HexEscape);
            ReadRest(Rest(chars, wide, isPreviousHex), wide) == Cons(chars[0], ReadRest(rest, wide))
  {
    var isHex := StringLiteral(chars[0]).1 == HexEscape;
    ReadPiece(chars[0], Rest(chars[1..], wide, isHex), wide);
    RestUnbroken(chars, wide, isPreviousHex);
  }

  lemma RestOctal(chars: seq<nat>, wide: bool)
    requires chars != [] && IsOctal(chars[0])
    ensures Rest(chars, wide, false) == [chars[0] as char] + Rest(chars[1..], wide, false)
  {
  }

  lemma RestNul(chars: seq<nat>, wide: bool, isPreviousHex: bool)
    requires chars != [] && chars[0] == 0
    ensures Rest(chars, wide, isPreviousHex) == "\\0" + Rest(chars[1..], wide, false)
  {
  }

  lemma OctalBegins(chars: seq<nat>, wide: bool)
    ensures var s := Rest(chars, wide, false);
            s != "" && (IsOctalDigit(s[0]) ==> chars != [] && IsOctal(chars[0]))
  {
  }

  lemma ReadNulAlone(chars: seq<nat>, wide: bool, isPreviousHex: bool)
    requires chars != [] && chars[0] == 0 && !SwallowsNext(chars)
    ensures ReadRest(Rest(chars, wide, isPreviousHex), wide) == Cons(0, ReadRest(Rest(chars[1..], wide, false), wide))
  {
    RestNul(chars, wide, isPreviousHex);
    OctalBegins(chars[1..], wide);
    ReadNul(Rest(chars[1..], wide, false), wide);
  }

  lemma RestNulAndDigit(chars: seq<nat>, wide: bool, isPreviousHex: bool)
    requires SwallowsNext(chars)
    ensures Rest(chars, wide, isPreviousHex) == "\\0" + [chars[1] as char] + Rest(chars[2..], wide, false)
  {
    RestNul(chars, wide, isPreviousHex);
    RestOctal(chars[1..], wide);
    assert chars[1..][1..] == chars[2..];
    Regroup("\\0", [chars[1] as char], Rest(chars[2..], wide, false));
  }

  lemma ReadNulAndDigit(chars: seq<nat>, wide: bool, isPreviousHex: bool)
    requires SwallowsNext(chars) && (|chars| == 2 || !IsOctal(chars[2]))
    ensures ReadRest(Rest(chars, wide, isPreviousHex), wide) == Cons(chars[1] - '0' as nat, ReadRest(Rest(chars[2..], wide, false), wide))
  {
    RestNulAndDigit(chars, wide, isPreviousHex);
    OctalBegins(chars[2..], wide);
    ReadOctal1(chars[1] as char, Rest(chars[2..], wide, false), wide);
  }

  lemma RestNulAndTwoDigits(chars: seq<nat>, wide: bool, isPreviousHex: bool)
    requires SwallowsNext(chars) && |chars| > 2 && IsOctal(chars[2])
    ensures Rest(chars, wide, isPreviousHex) == "\\0" + [chars[1] as char, chars[2] as char] + Rest(chars[3..], wide, false)
  {
    RestNulAndDigit(chars, wide, isPreviousHex);
    RestOctal(chars[2..], wide);
    assert chars[2..][1..] == chars[3..];
  }

  lemma ReadNulAndTwoDigits(chars: seq<nat>, wide: bool, isPreviousHex: bool)
    requires SwallowsNext(chars) && |chars| > 2 && IsOctal(chars[2])
    ensures ReadRest(Rest(chars, wide, isPreviousHex), wide)
         == Cons(8 * (chars[1] - '0' as nat) + (chars[2] - '0' as nat), ReadRest(Rest(chars[3..], wide, false), wide))
  {
    RestNulAndTwoDigits(chars, wide, isPreviousHex);
    ReadOctal2(chars[1] as char, chars[2] as char, Rest(chars[3..], wide, false), wide);
  }

  /** What the text of any string denotes, digit by digit. */
  lemma {:induction false} ReadPrinted(chars: seq<nat>, wide: bool, isPreviousHex: bool)
    ensures ReadRest(Rest(chars, wide, isPreviousHex), wide) == Some(ReadBack(chars))
    decreases |chars|, isPreviousHex
  {
    if chars == [] {
    } else if isPreviousHex && IsXDigit(chars[0]) {
      ReadPrinted(chars, wide, false);
      ReadBroken(chars, wide);
    } else if chars[0] != 0 {
      ReadCharacter(chars, wide, isPreviousHex);
      ReadPrinted(chars[1..], wide, StringLiteral(chars[0]).1 == HexEscape);
    } else if !SwallowsNext(chars) {
      ReadNulAlone(chars, wide, isPreviousHex);
      ReadPrinted(chars[1..], wide, false);
    } else if |chars| == 2 || !IsOctal(chars[2]) {
      ReadNulAndDigit(chars, wide, isPreviousHex);
      ReadPrinted(chars[2..], wide, false);
    } else {
      ReadNulAndTwoDigits(chars, wide, isPreviousHex);
      ReadPrinted(chars[3..], wide, false);
    }
  }

  /** No NUL has an octal digit after it. */
  predicate NoNulBeforeOctal(chars: seq<nat>) {
    forall i, j :: 0 <= i && j == i + 1 < |chars| ==> !(chars[i] == 0 && IsOctal(chars[j]))
  }

  lemma {:induction false} ReadBackIsNoLonger(chars: seq<nat>)
    ensures |ReadBack(chars)| <= |chars|
    ensures !NoNulBeforeOctal(chars) ==> |ReadBack(chars)| < |chars|
    ensures NoNulBeforeOctal(chars) ==> ReadBack(chars) == chars
  {
    if chars != [] && !SwallowsNext(chars) {
      ReadBackIsNoLonger(chars[1..]);
      assert [chars[0]] + chars[1..] == chars;
    } else if chars != [] {
      ReadBackIsNoLonger(chars[2..]);
      if |chars| > 2 {
        ReadBackIsNoLonger(chars[3..]);
      }
    }
  }

  /** The printed literals denote the string exactly when no NUL in it has an octal digit after it. */
  lemma PrintedReadsBack(chars: seq<nat>, wide: bool)
    ensures ReadLiterals(Printed(chars, wide), wide) == Some(chars) <==> NoNulBeforeOctal(chars)
  {
    var q, s := QuoteBegin(wide), Rest(chars, wide, false);
    assert q <= q + s && (q + s)[|q|..] == s && (q + s)[0] == q[0];
    ReadPrinted(chars, wide, false);
    ReadBackIsNoLonger(chars);
  }

  /** NUL and then '1' is printed as an escape for code 1. */
  lemma NulBeforeOctalExample()
    ensures Printed([0, 49], false) == "\"\\01\"" && ReadLiterals("\"\\01\"", false) == Some([1])
  {
    var chars := [0, 49];
    assert chars[1..] == [49] && [49][1..] == [] && chars[2..] == [];
    RestNulAndDigit(chars, false, false);
    assert Rest([], false, false) == "\"";
    assert Rest(chars, false, false) == "\\01\"";
    ReadPrinted(chars, false, false);
    assert ReadBack(chars) == [1];
    var q, s := QuoteBegin(false), Rest(chars, false, false);
    assert q + s == "\"\\01\"" && q <= q + s && (q + s)[|q|..] == s && (q + s)[0] == q[0];
  }
}
