/**
 * Text written into the XML report. The specifications read it back as an XML
 * processor does: attribute values with the normalization of section 3.3.3 of
 * XML 1.0, and content with the CDATA sections of section 2.7. Characters are
 * bytes. What is done with line ends before that is in XmlLineEnds.
 */
module XmlOutput {
  import opened Collections
  import opened Wrappers
  import opened Hexadecimal
  import opened Ostreams

  predicate IsNormalizableWhitespace(c: char) { c == '\t' || c == '\n' || c == '\r' }

  /** Where char is signed, bytes from 0x80 are negative. */
  predicate IsValidXmlCharacter(c: char, signedChar: bool) {
    IsNormalizableWhitespace(c) || (c as int >= 0x20 && !(signedChar && c as int >= 0x80))
  }

  function FormatByte(value: nat): string
    requires value < 0x100
  {
    [HexChar(value / 16), HexChar(value % 16)]
  }

  function EscapedChar(ch: char, isAttribute: bool, signedChar: bool): string {
    match ch
    case '<' => "&lt;"
    case '>' => "&gt;"
    case '&' => "&amp;"
    case '\'' => if isAttribute then "&apos;" else "'"
    case '\"' => if isAttribute then "&quot;" else "\""
    case _ =>
      if !IsValidXmlCharacter(ch, signedChar) then ""
      else if isAttribute && IsNormalizableWhitespace(ch) then "&#x" + FormatByte(ch as nat) + ";"
      else [ch]
  }

  function Escaped(str: string, isAttribute: bool, signedChar: bool): string {
    if str == "" then "" else EscapedChar(str[0], isAttribute, signedChar) + Escaped(str[1..], isAttribute, signedChar)
  }

  method EscapeXml(str: string, isAttribute: bool, signedChar: bool) returns (m: string)
    ensures m == Escaped(str, isAttribute, signedChar)
  {
    m := "";
    assert str[0..] == str;
    for i := 0 to |str|
      invariant m + Escaped(str[i..], isAttribute, signedChar) == Escaped(str, isAttribute, signedChar)
    {
      assert str[i..][1..] == str[i + 1..];
      m := m + EscapedChar(str[i], isAttribute, signedChar);
    }
  }

  function Valid(str: string, signedChar: bool): string {
    if str == "" then "" else
    (if IsValidXmlCharacter(str[0], signedChar) then [str[0]] else "") + Valid(str[1..], signedChar)
  }

  lemma NextValid(str: string, i: nat, output: string, signedChar: bool)
    requires i < |str|
    ensures var kept := if IsValidXmlCharacter(str[i], signedChar) then output + [str[i]] else output;
            kept + Valid(str[i + 1..], signedChar) == output + Valid(str[i..], signedChar)
  {
    assert str[i..][0] == str[i] && str[i..][1..] == str[i + 1..];
    Regroup(output, [str[i]], Valid(str[i + 1..], signedChar));
    assert "" + Valid(str[i + 1..], signedChar) == Valid(str[i + 1..], signedChar);
  }

  method RemoveInvalidXmlCharacters(str: string, signedChar: bool) returns (output: string)
    ensures output == Valid(str, signedChar)
  {
    output := "";
    assert str[0..] == str;
    for i := 0 to |str|
      invariant output + Valid(str[i..], signedChar) == Valid(str, signedChar)
    {
      NextValid(str, i, output, signedChar);
      if IsValidXmlCharacter(str[i], signedChar) {
        output := output + [str[i]];
      }
    }
  }

  // ----- Reading -----

  /** The characters that section 2.2 of XML 1.0 allows, as far as they are ASCII. */
  predicate IsAsciiXmlCharacter(c: nat) { c == 9 || c == 10 || c == 13 || 0x20 <= c < 0x80 }

  /** A byte of an allowed character. */
  predicate IsXmlByte(c: char) { IsAsciiXmlCharacter(c as nat) || c as nat >= 0x80 }

  /** What is kept is what XML allows, but for bytes past ASCII where char is signed. */
  lemma WhatIsValid(c: char, signedChar: bool)
    ensures IsValidXmlCharacter(c, signedChar) <==> IsXmlByte(c) && !(signedChar && c as nat >= 0x80)
  {
  }

  /** So nothing of a string is dropped exactly when XML allows all of it and, where char is signed, it is ASCII. */
  lemma {:induction false} NothingDropped(str: string, signedChar: bool)
    ensures |Valid(str, signedChar)| <= |str|
    ensures Valid(str, signedChar) == str <==>
              forall i :: 0 <= i < |str| ==> IsXmlByte(str[i]) && !(signedChar && str[i] as nat >= 0x80)
  {
    if str != "" {
      NothingDropped(str[1..], signedChar);
      WhatIsValid(str[0], signedChar);
      assert forall i :: 0 < i < |str| ==> str[i] == str[1..][i - 1];
      assert str == [str[0]] + str[1..];
    }
  }

  /** Each character is kept or dropped by itself, whatever is beside it. */
  lemma {:induction false} ValidConcat(a: string, b: string, signedChar: bool)
    ensures Valid(a + b, signedChar) == Valid(a, signedChar) + Valid(b, signedChar)
  {
    if a == "" {
      assert a + b == b;
    } else {
      ValidConcat(a[1..], b, signedChar);
      assert (a + b)[0] == a[0] && (a + b)[1..] == a[1..] + b;
      Regroup(if IsValidXmlCharacter(a[0], signedChar) then [a[0]] else "", Valid(a[1..], signedChar), Valid(b, signedChar));
    }
  }

  lemma ValidOne(c: char, signedChar: bool)
    ensures Valid([c], signedChar) == if IsXmlByte(c) && !(signedChar && c as nat >= 0x80) then [c] else ""
  {
    assert [c][1..] == "";
    WhatIsValid(c, signedChar);
  }

  /** A letter with an accent in ISO 8859-1, or a first byte of UTF-8, is allowed and dropped. */
  lemma DroppedExample()
    ensures IsXmlByte(0xE9 as char) && Valid([0xE9 as char], true) == ""
  {
    assert [0xE9 as char][1..] == "";
  }

  /** The character a reference stands for and its length after the ampersand; only ASCII, in hexadecimal or by name. */
  function Reference(s: string): (r: Option<(char, nat)>)
    ensures r.Some? ==> 0 < r.value.1 <= |s|
  {
    if "lt;" <= s then Some(('<', 3))
    else if "gt;" <= s then Some(('>', 3))
    else if "amp;" <= s then Some(('&', 4))
    else if "apos;" <= s then Some(('\'', 5))
    else if "quot;" <= s then Some(('\"', 5))
    else if "#x" <= s then HexReference(s[2..])
    else None
  }

  function HexReference(s: string): (r: Option<(char, nat)>)
    ensures r.Some? ==> 0 < r.value.1 <= |s| + 2
  {
    var n := HexRun(s);
    if 0 < n < |s| && s[n] == ';' && IsAsciiXmlCharacter(HexValue(s[..n])) then Some((HexValue(s[..n]) as char, n + 3)) else None
  }

  function Prepend(c: char, r: Option<string>): Option<string> {
    if r.Some? then Some([c] + r.value) else None
  }

  /** The value of an attribute between double quotes, or the character data of an element. */
  function ReadText(s: string, isAttribute: bool): Option<string>
    decreases |s|
  {
    if s == "" then Some("")
    else if s[0] == '&' then
      match Reference(s[1..])
      case None => None
      case Some((c, n)) => Prepend(c, ReadText(s[1 + n..], isAttribute))
    else if s[0] == '<' || !IsXmlByte(s[0]) then None
    else if isAttribute then
      if s[0] == '\"' then None
      else Prepend(if s[0] in {'\t', '\n', '\r'} then ' ' else s[0], ReadText(s[1..], isAttribute))
    else
      if EndsAt(s, 0) then None else Prepend(s[0], ReadText(s[1..], isAttribute))
  }

  lemma {:induction false} NoRawBracket(str: string, isAttribute: bool, signedChar: bool)
    ensures forall i :: 0 <= i < |Escaped(str, isAttribute, signedChar)| ==> Escaped(str, isAttribute, signedChar)[i] != '>'
  {
    if str != "" {
      NoRawBracket(str[1..], isAttribute, signedChar);
    }
  }

  predicate IsEntity(name: string, c: char) {
    || (name == "lt;" && c == '<') || (name == "gt;" && c == '>') || (name == "amp;" && c == '&')
    || (name == "apos;" && c == '\'') || (name == "quot;" && c == '\"')
  }

  lemma ReadEntity(name: string, c: char, t: string, isAttribute: bool)
    requires IsEntity(name, c)
    ensures ReadText("&" + name + t, isAttribute) == Prepend(c, ReadText(t, isAttribute))
  {
    var s := "&" + name + t;
    assert s[1..] == name + t && s[1 + |name|..] == t;
    assert name <= s[1..] && s[1] == name[0] && s[2] == name[1];
  }

  lemma FormatByteValue(value: nat)
    requires value < 0x100
    ensures AllHex(FormatByte(value)) && HexValue(FormatByte(value)) == value
  {
    var h := FormatByte(value);
    assert h[..1] == [h[0]] && [h[0]][..0] == "";
    assert HexValue([h[0]]) == HexDigitValue(h[0]) == value / 16;
    assert HexDigitValue(h[1]) == value % 16;
  }

  lemma ReadHexReference(value: nat, t: string)
    requires value < 0x80 && IsAsciiXmlCharacter(value)
    ensures HexReference(FormatByte(value) + (";" + t)) == Some((value as char, 5))
  {
    var h := FormatByte(value);
    FormatByteValue(value);
    HexRunEnds(h, ";" + t);
    assert (h + (";" + t))[..2] == h && (h + (";" + t))[2] == ';';
  }

  lemma ReadWhitespace(c: char, t: string)
    requires IsNormalizableWhitespace(c)
    ensures ReadText("&#x" + FormatByte(c as nat) + ";" + t, true) == Prepend(c, ReadText(t, true))
  {
    var h := FormatByte(c as nat);
    ReadHexReference(c as nat, t);
    var s := "&#x" + h + ";" + t;
    assert s[1..] == "#x" + (h + (";" + t)) && s[6..] == t;
    ReferenceByCode(s[1..], h + (";" + t));
  }

  lemma ReferenceByCode(s: string, t: string)
    requires s == "#x" + t
    ensures Reference(s) == HexReference(t)
  {
    assert s[0] == '#' && s[2..] == t;
  }

  lemma ReadOneChar(ch: char, t: string, isAttribute: bool, signedChar: bool)
    requires forall i :: 0 <= i < |t| ==> t[i] != '>'
    ensures ReadText(EscapedChar(ch, isAttribute, signedChar) + t, isAttribute)
         == if IsValidXmlCharacter(ch, signedChar) then Prepend(ch, ReadText(t, isAttribute)) else ReadText(t, isAttribute)
  {
    var text := EscapedChar(ch, isAttribute, signedChar);
    if |text| > 1 && IsEntity(text[1..], ch) {
      assert text == "&" + text[1..];
      ReadEntity(text[1..], ch, t, isAttribute);
    } else if |text| > 1 {
      ReadWhitespace(ch, t);
    } else if text == "" {
      assert text + t == t;
    } else {
      assert (text + t)[1..] == t;
    }
  }

  /** An XML processor reads exactly the valid characters back, white space included. */
  lemma {:induction false} EscapedReadsBack(str: string, isAttribute: bool, signedChar: bool)
    ensures ReadText(Escaped(str, isAttribute, signedChar), isAttribute) == Some(Valid(str, signedChar))
  {
    if str != "" {
      NoRawBracket(str[1..], isAttribute, signedChar);
      ReadOneChar(str[0], Escaped(str[1..], isAttribute, signedChar), isAttribute, signedChar);
      EscapedReadsBack(str[1..], isAttribute, signedChar);
      assert "" + Valid(str[1..], signedChar) == Valid(str[1..], signedChar);
    }
  }

  /** What means nothing in XML is written as it is. */
  lemma {:induction false} PlainTextAsIs(str: string, isAttribute: bool, signedChar: bool)
    requires forall i :: 0 <= i < |str| ==> ' ' <= str[i] <= '~' && str[i] !in {'<', '>', '&', '\'', '\"'}
    ensures Escaped(str, isAttribute, signedChar) == str
  {
    if str != "" {
      PlainTextAsIs(str[1..], isAttribute, signedChar);
      assert str == [str[0]] + str[1..];
    }
  }

  // ----- CDATA sections -----

  predicate EndsAt(data: string, i: nat) { i + 2 < |data| && data[i] == ']' && data[i + 1] == ']' && data[i + 2] == '>' }

  /** strstr(data, "]]>") */
  function NextEnd(data: string): (r: Option<nat>)
    ensures r.Some? ==> EndsAt(data, r.value) && forall i :: 0 <= i < r.value ==> !EndsAt(data, i)
    ensures r.None? ==> forall i :: !EndsAt(data, i)
  {
    if EndsAt(data, 0) then Some(0)
    else if data == "" then None
    else
      assert forall i :: 0 < i <= |data| ==> (EndsAt(data, i) <==> EndsAt(data[1..], i - 1));
      match NextEnd(data[1..])
      case None => None
      case Some(i) => Some(i + 1)
  }

  const OPEN := "<![CDATA["
  const CLOSE := "]]>"
  const ESCAPED := "]]&gt;"
  const SPLIT := CLOSE + ESCAPED + OPEN

  function Segments(data: string): string {
    match NextEnd(data)
    case None => data + CLOSE
    case Some(i) => data[..i] + SPLIT + Segments(data[i + 3..])
  }

  lemma NextSegment(segment: string, n: nat, before: string, after: string)
    requires NextEnd(segment) == Some(n) && after == before + segment[..n] + SPLIT
    ensures after + Segments(segment[n + 3..]) == before + Segments(segment)
  {
    Regroup(before, segment[..n], SPLIT);
    Regroup(before, segment[..n] + SPLIT, Segments(segment[n + 3..]));
  }

  /** One turn of the loop: up to the end marker, which is put outside the section. */
  method PutSegment(stream: Ostream, segment: string, n: nat)
    requires NextEnd(segment) == Some(n)
    modifies stream
    ensures stream.text + Segments(segment[n + 3..]) == old(stream.text) + Segments(segment)
  {
    ghost var before := stream.text;
    stream.Put(segment[..n]);
    stream.Put(SPLIT);
    NextSegment(segment, n, before, stream.text);
  }

  /** A pointer into the data is the rest of it. */
  method OutputXmlCDataSection(stream: Ostream, data: string)
    requires '\0' !in data
    modifies stream
    ensures stream.text == old(stream.text) + OPEN + Segments(data)
  {
    var segment := data;
    stream.Put(OPEN);
    ghost var whole := stream.text + Segments(data);
    while true
      invariant stream.text + Segments(segment) == whole
      decreases |segment|
    {
      var nextSegment := NextEnd(segment);
      if nextSegment.None? {
        ghost var before := stream.text;
        stream.Put(segment);
        break;
      }
      PutSegment(stream, segment, nextSegment.value);
      segment := segment[nextSegment.value + 3..];
    }
    stream.Put(CLOSE);
  }

  /** Data without an end marker is not split. */
  lemma SectionUnsplit(data: string)
    requires forall i :: 0 <= i && i + 2 < |data| ==> !(data[i] == ']' && data[i + 1] == ']' && data[i + 2] == '>')
    ensures OPEN + Segments(data) == "<![CDATA[" + data + "]]>"
  {
    assert NextEnd(data).None?;
    Regroup(OPEN, data, CLOSE);
  }

  predicate Opens(s: string) {
    && |s| >= 9
    && s[0] == '<' && s[1] == '!' && s[2] == '['
    && s[3] == 'C' && s[4] == 'D' && s[5] == 'A' && s[6] == 'T' && s[7] == 'A'
    && s[8] == '['
  }

  /** The content of an element, inside a CDATA section or in character data. */
  function ReadContent(s: string, inCData: bool): Option<string>
    decreases |s|
  {
    if inCData then
      if s == "" || !IsXmlByte(s[0]) then None
      else if EndsAt(s, 0) then ReadContent(s[3..], false)
      else Prepend(s[0], ReadContent(s[1..], true))
    else
      if s == "" then Some("")
      else if Opens(s) then ReadContent(s[9..], true)
      else if s[0] == '<' || EndsAt(s, 0) || !IsXmlByte(s[0]) then None
      else if s[0] != '&' then Prepend(s[0], ReadContent(s[1..], false))
      else
        match Reference(s[1..])
        case None => None
        case Some((c, n)) => Prepend(c, ReadContent(s[1 + n..], false))
  }

  /** Every byte is of a character that XML allows. */
  predicate AllXml(text: string) { forall i :: 0 <= i < |text| ==> IsXmlByte(text[i]) }

  /** What reading gives that has the text before it, as far as XML allows the text. */
  function PrependAll(text: string, r: Option<string>): Option<string> {
    if r.Some? && AllXml(text) then Some(text + r.value) else None
  }

  lemma PrependOneMore(text: string, r: Option<string>)
    requires text != ""
    ensures PrependAll(text, r) == if IsXmlByte(text[0]) then Prepend(text[0], PrependAll(text[1..], r)) else None
  {
    assert AllXml(text) <==> IsXmlByte(text[0]) && AllXml(text[1..]) by { SplitXml(text, 1); }
    if r.Some? {
      assert text + r.value == [text[0]] + (text[1..] + r.value);
    }
  }

  lemma SplitXml(text: string, n: nat)
    requires n <= |text|
    ensures AllXml(text) <==> AllXml(text[..n]) && AllXml(text[n..])
  {
    assert forall i :: n <= i < |text| ==> text[i] == text[n..][i - n];
  }

  /** Ending a section right after the text ends it nowhere before. */
  ghost predicate NoEndWithin(text: string) {
    forall i :: 0 <= i < |text| ==> !EndsAt(text + CLOSE, i)
  }

  lemma NoEndInside(text: string)
    requires NextEnd(text).None?
    ensures NoEndWithin(text)
  {
    forall i | 0 <= i < |text| ensures !EndsAt(text + CLOSE, i) {
      var all := text + CLOSE;
      assert i + 2 < |text| ==> all[i] == text[i] && all[i + 1] == text[i + 1] && all[i + 2] == text[i + 2];
      assert i + 2 >= |text| ==> all[i + 2] == ']';
      assert !EndsAt(text, i);
    }
  }

  lemma NoEndBefore(data: string, n: nat)
    requires NextEnd(data) == Some(n)
    ensures NoEndWithin(data[..n])
  {
    forall i | 0 <= i < n ensures !EndsAt(data[..n] + CLOSE, i) {
      assert data[..n] + CLOSE == data[..n + 3];
      assert !EndsAt(data, i);
    }
  }

  lemma NoEndAfterFirst(text: string, t: string)
    requires text != "" && NoEndWithin(text)
    ensures NoEndWithin(text[1..]) && !EndsAt(text + (CLOSE + t), 0)
  {
    var all := text + CLOSE;
    forall i | 0 <= i < |text| - 1 ensures !EndsAt(text[1..] + CLOSE, i) {
      assert text[1..] + CLOSE == all[1..] && !EndsAt(all, i + 1);
    }
    assert text + (CLOSE + t) == all + t && !EndsAt(all, 0);
    assert (all + t)[2] == all[2];
  }

  lemma {:induction false} ReadSection(text: string, t: string)
    requires NoEndWithin(text)
    ensures ReadContent(text + (CLOSE + t), true) == PrependAll(text, ReadContent(t, false))
  {
    var s := text + (CLOSE + t);
    if text == "" {
      assert s == CLOSE + t && s[3..] == t;
      assert ReadContent(t, false).Some? ==> "" + ReadContent(t, false).value == ReadContent(t, false).value;
    } else {
      NoEndAfterFirst(text, t);
      ReadSection(text[1..], t);
      assert s[1..] == text[1..] + (CLOSE + t);
      PrependOneMore(text, ReadContent(t, false));
    }
  }

  lemma ContentChar(c: char, t: string)
    requires c != '<' && c != '&' && IsXmlByte(c) && !EndsAt([c] + t, 0)
    ensures ReadContent([c] + t, false) == Prepend(c, ReadContent(t, false))
  {
    assert ([c] + t)[1..] == t;
  }

  lemma ContentEntity(t: string)
    ensures ReadContent("&gt;" + t, false) == Prepend('>', ReadContent(t, false))
  {
    var s := "&gt;" + t;
    assert s[1..] == "gt;" + t && s[4..] == t;
    assert "gt;" <= s[1..] && s[1] == 'g';
  }

  /** The text between two sections stands for the end that was split off. */
  lemma ReadSplit(t: string)
    ensures ReadContent("]" + ("]" + ("&gt;" + t)), false) == PrependAll(CLOSE, ReadContent(t, false))
  {
    ContentEntity(t);
    ContentChar(']', "&gt;" + t);
    ContentChar(']', "]" + ("&gt;" + t));
    PrependClose(ReadContent(t, false));
  }

  lemma PrependClose(r: Option<string>)
    ensures PrependAll(CLOSE, r) == Prepend(']', Prepend(']', Prepend('>', r)))
  {
    if r.Some? {
      assert [']'] + ([']'] + (['>'] + r.value)) == CLOSE + r.value;
    }
  }

  lemma ReadOpen(t: string)
    ensures ReadContent(OPEN + t, false) == ReadContent(t, true)
  {
    assert (OPEN + t)[9..] == t;
  }

  lemma Nest(text: string, t: string)
    ensures text + SPLIT + t == text + (CLOSE + ("]" + ("]" + ("&gt;" + (OPEN + t)))))
  {
    assert SPLIT + t == CLOSE + ("]" + ("]" + ("&gt;" + (OPEN + t))));
  }

  lemma ReadNext(text: string, t: string)
    requires NoEndWithin(text)
    ensures ReadContent(text + SPLIT + t, true) == PrependAll(text, PrependAll(CLOSE, ReadContent(t, true)))
  {
    ReadSection(text, "]" + ("]" + ("&gt;" + (OPEN + t))));
    ReadSplit(OPEN + t);
    ReadOpen(t);
    Nest(text, t);
  }

  lemma PrependTwo(a: string, b: string, r: Option<string>)
    ensures PrependAll(a, PrependAll(b, r)) == PrependAll(a + b, r)
  {
    SplitXml(a + b, |a|);
    assert (a + b)[..|a|] == a && (a + b)[|a|..] == b;
    if r.Some? {
      assert a + (b + r.value) == a + b + r.value;
    }
  }

  /** What is read from the rest of a section that holds all of the data, or nothing for a forbidden character. */
  function IfXml(data: string): Option<string> { if AllXml(data) then Some(data) else None }

  lemma ReadSplitThen(s: string, data: string, text: string, t: string, rest: string)
    requires s == text + SPLIT + t && data == text + CLOSE + rest
    requires NoEndWithin(text) && ReadContent(t, true) == IfXml(rest)
    ensures ReadContent(s, true) == IfXml(data)
  {
    ReadNext(text, t);
    PrependTwo(text, CLOSE, IfXml(rest));
    IfXmlSplit(text + CLOSE, rest);
  }

  lemma IfXmlSplit(a: string, b: string)
    ensures PrependAll(a, IfXml(b)) == IfXml(a + b)
  {
    SplitXml(a + b, |a|);
    assert (a + b)[..|a|] == a && (a + b)[|a|..] == b;
  }

  lemma FirstSegment(data: string, n: nat)
    requires NextEnd(data) == Some(n)
    ensures data == data[..n] + CLOSE + data[n + 3..] && Segments(data) == data[..n] + SPLIT + Segments(data[n + 3..])
  {
  }

  lemma ReadLast(data: string)
    requires NextEnd(data).None?
    ensures ReadContent(data + CLOSE, true) == IfXml(data)
  {
    NoEndInside(data);
    ReadSection(data, "");
    assert CLOSE + "" == CLOSE && data + "" == data;
  }

  lemma {:induction false} SegmentsReadBack(data: string)
    ensures ReadContent(Segments(data), true) == IfXml(data)
    decreases |data|
  {
    match NextEnd(data) {
      case None => ReadLast(data);
      case Some(n) =>
        var rest, t := data[n + 3..], Segments(data[n + 3..]);
        NoEndBefore(data, n);
        SegmentsReadBack(rest);
        FirstSegment(data, n);
        ReadSplitThen(Segments(data), data, data[..n], t, rest);
    }
  }

  /** Data is read back, whatever brackets it has, exactly when XML allows all its characters. */
  lemma CDataReadsBack(data: string)
    ensures ReadContent(OPEN + Segments(data), false) == Some(data) <==> AllXml(data)
  {
    ReadOpen(Segments(data));
    SegmentsReadBack(data);
  }

  lemma {:induction false} ValidIsXml(str: string, signedChar: bool)
    ensures AllXml(Valid(str, signedChar)) && '\0' !in Valid(str, signedChar)
  {
    if str != "" {
      ValidIsXml(str[1..], signedChar);
      WhatIsValid(str[0], signedChar);
    }
  }

  /** And so for what is left of a failure's details when the invalid characters are removed. */
  lemma DetailReadsBack(detail: string, signedChar: bool)
    ensures ReadContent(OPEN + Segments(Valid(detail, signedChar)), false) == Some(Valid(detail, signedChar))
  {
    ValidIsXml(detail, signedChar);
    CDataReadsBack(Valid(detail, signedChar));
  }

  /** The details of a failure in OutputXmlTestInfo, the one place where sections are written. */
  method OutputDetail(stream: Ostream, detail: string, signedChar: bool)
    modifies stream
    ensures stream.text == old(stream.text) + OPEN + Segments(Valid(detail, signedChar))
  {
    var valid := RemoveInvalidXmlCharacters(detail, signedChar);
    ValidIsXml(detail, signedChar);
    OutputXmlCDataSection(stream, valid);
  }
}
