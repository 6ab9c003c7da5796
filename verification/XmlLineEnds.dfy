/**
 * The report as a file: before anything else an XML processor turns every line
 * end into a newline (section 2.11 of XML 1.0), unless a reference hides it.
 */
module XmlLineEnds {
  import opened Collections
  import opened Wrappers
  import opened XmlOutput

  /** "\r\n" and any other "\r" become "\n". */
  function Translated(s: string): (t: string)
    ensures '\r' !in t && |t| <= |s| && (s != "" ==> t != "" && t[0] == if s[0] == '\r' then '\n' else s[0])
  {
    if s == "" then ""
    else if s[0] != '\r' then [s[0]] + Translated(s[1..])
    else if |s| > 1 && s[1] == '\n' then Translated(s[1..])
    else "\n" + Translated(s[1..])
  }

  /** It leaves exactly the text without carriage returns as it is. */
  lemma {:induction false} TranslatedSame(s: string)
    ensures Translated(s) == s <==> '\r' !in s
  {
    if '\r' !in s && s != "" {
      assert s == [s[0]] + s[1..];
      TranslatedSame(s[1..]);
    }
  }

  predicate NoReturn(s: string) { forall i :: 0 <= i < |s| ==> s[i] != '\r' }

  lemma {:induction false} TranslatedAfter(front: string, s: string)
    requires NoReturn(front)
    ensures Translated(front + s) == front + Translated(s)
  {
    if front == "" {
      assert front + s == s;
    } else {
      assert (front + s)[1..] == front[1..] + s;
      TranslatedAfter(front[1..], s);
      assert [front[0]] + (front[1..] + Translated(s)) == front + Translated(s);
    }
  }

  /** Only a newline is read together with what is before it. */
  lemma {:induction false} TranslatedApart(a: string, b: string)
    requires b == "" || b[0] != '\n'
    ensures Translated(a + b) == Translated(a) + Translated(b)
  {
    if a == "" {
      assert a + b == b;
    } else {
      assert (a + b)[1..] == a[1..] + b;
      TranslatedApart(a[1..], b);
    }
  }

  // ----- Attributes -----

  lemma {:induction false} EscapedHasNoReturn(str: string, signedChar: bool)
    ensures NoReturn(Escaped(str, true, signedChar))
  {
    if str != "" {
      EscapedHasNoReturn(str[1..], signedChar);
    }
  }

  lemma NothingTranslated(s: string)
    requires NoReturn(s)
    ensures Translated(s) == s
  {
    TranslatedSame(s);
  }

  /** Carriage returns and newlines in attributes get past the translation, as references. */
  lemma AttributeReadsBack(str: string, signedChar: bool)
    ensures ReadText(Translated(Escaped(str, true, signedChar)), true) == Some(Valid(str, signedChar))
  {
    EscapedHasNoReturn(str, signedChar);
    NothingTranslated(Escaped(str, true, signedChar));
    EscapedReadsBack(str, true, signedChar);
  }

  // ----- Text -----

  predicate AllValid(str: string, signedChar: bool) {
    forall i :: 0 <= i < |str| ==> IsValidXmlCharacter(str[i], signedChar)
  }

  lemma {:induction false} EscapedIsOfValid(str: string, signedChar: bool)
    ensures AllValid(Valid(str, signedChar), signedChar)
    ensures Escaped(str, false, signedChar) == Escaped(Valid(str, signedChar), false, signedChar)
    ensures '\r' in Valid(str, signedChar) <==> '\r' in str
  {
    if str != "" {
      var rest := Valid(str[1..], signedChar);
      EscapedIsOfValid(str[1..], signedChar);
      if IsValidXmlCharacter(str[0], signedChar) {
        assert ([str[0]] + rest)[1..] == rest;
      }
      assert "" + rest == rest;
      assert str == [str[0]] + str[1..];
    }
  }

  /** Escaping does not move line ends apart or together. */
  lemma EscapedBegins(v: string, signedChar: bool)
    requires v != "" && IsValidXmlCharacter(v[0], signedChar)
    ensures var e := Escaped(v, false, signedChar);
            e != "" && (e[0] == '\n' <==> v[0] == '\n')
  {
  }

  /** One character other than a carriage return. */
  lemma TranslatedChar(c: char, v: string, signedChar: bool)
    requires c != '\r' && Translated(Escaped(v, false, signedChar)) == Escaped(Translated(v), false, signedChar)
    ensures Translated(Escaped([c] + v, false, signedChar)) == Escaped(Translated([c] + v), false, signedChar)
  {
    TranslatedAfter(EscapedChar(c, false, signedChar), Escaped(v, false, signedChar));
    TranslatedAfter([c], v);
  }

  /** A carriage return, which a newline may follow. */
  lemma TranslatedReturn(v: string, signedChar: bool)
    requires AllValid(v, signedChar) && Translated(Escaped(v, false, signedChar)) == Escaped(Translated(v), false, signedChar)
    ensures Translated(Escaped("\r" + v, false, signedChar)) == Escaped(Translated("\r" + v), false, signedChar)
  {
    if v != "" { EscapedBegins(v, signedChar); }
    assert ("\r" + v)[1..] == v && ("\r" + Escaped(v, false, signedChar))[1..] == Escaped(v, false, signedChar);
  }

  lemma {:induction false} TranslatedEscaped(v: string, signedChar: bool)
    requires AllValid(v, signedChar)
    ensures Translated(Escaped(v, false, signedChar)) == Escaped(Translated(v), false, signedChar)
  {
    if v != "" {
      TranslatedEscaped(v[1..], signedChar);
      assert v == [v[0]] + v[1..];
      if v[0] != '\r' {
        TranslatedChar(v[0], v[1..], signedChar);
      } else {
        TranslatedReturn(v[1..], signedChar);
      }
    }
  }

  lemma {:induction false} TranslatedIsValid(v: string, signedChar: bool)
    requires AllValid(v, signedChar)
    ensures AllValid(Translated(v), signedChar)
  {
    if v != "" {
      TranslatedIsValid(v[1..], signedChar);
    }
  }

  lemma {:induction false} ValidStays(v: string, signedChar: bool)
    requires AllValid(v, signedChar)
    ensures Valid(v, signedChar) == v
  {
    if v != "" {
      ValidStays(v[1..], signedChar);
    }
  }

  /** From text, the valid characters are read with their line ends translated. */
  lemma TextReadsBack(str: string, signedChar: bool)
    ensures ReadText(Translated(Escaped(str, false, signedChar)), false) == Some(Translated(Valid(str, signedChar)))
    ensures ReadText(Translated(Escaped(str, false, signedChar)), false) == Some(Valid(str, signedChar)) <==> '\r' !in str
  {
    var v := Valid(str, signedChar);
    EscapedIsOfValid(str, signedChar);
    TranslatedEscaped(v, signedChar);
    TranslatedIsValid(v, signedChar);
    EscapedReadsBack(Translated(v), false, signedChar);
    ValidStays(Translated(v), signedChar);
    TranslatedSame(v);
  }

  // ----- CDATA sections -----

  lemma NoEndBehind(c: char, text: string)
    requires NoEndWithin(text) && !EndsAt([c] + text + CLOSE, 0)
    ensures NoEndWithin([c] + text)
  {
    var all := [c] + text + CLOSE;
    assert all[1..] == text + CLOSE;
    forall i | 0 <= i < |text| + 1 ensures !EndsAt(all, i) {
      assert i > 0 ==> !EndsAt(text + CLOSE, i - 1);
    }
  }

  /** Translation makes no end marker. */
  lemma NoNewEnd(text: string)
    requires text != "" && text[0] != '\r' && !EndsAt(text + CLOSE, 0)
    ensures !EndsAt(Translated(text) + CLOSE, 0)
  {
    if text[0] == ']' && |text| > 1 && text[1] == ']' {
      assert Translated(text)[1] == ']' == Translated(text[1..])[0];
      if |text| > 2 {
        var third := Translated(text[1..][1..]);
        assert Translated(text)[2] == third[0] && text[1..][1..][0] == text[2];
      }
    }
  }

  lemma {:induction false} TranslatedHasNoEnd(text: string)
    requires NoEndWithin(text)
    ensures NoEndWithin(Translated(text))
  {
    if text != "" {
      NoEndAfterFirst(text, "");
      TranslatedHasNoEnd(text[1..]);
      assert text + (CLOSE + "") == text + CLOSE;
      if text[0] != '\r' {
        NoNewEnd(text);
        NoEndBehind(text[0], Translated(text[1..]));
      } else {
        NoEndBehind('\n', Translated(text[1..]));
      }
    }
  }

  /** What stands between line ends on both sides is not changed, nor are they. */
  lemma TranslatedAround(a: string, middle: string, b: string)
    requires middle != "" && middle[0] != '\n' && NoReturn(middle)
    ensures Translated(a + middle + b) == Translated(a) + middle + Translated(b)
  {
    Regroup(a, middle, b);
    TranslatedApart(a, middle + b);
    TranslatedAfter(middle, b);
  }

  lemma {:induction false} TranslatedIsXml(data: string)
    ensures AllXml(Translated(data)) <==> AllXml(data)
  {
    if data != "" {
      TranslatedIsXml(data[1..]);
      SplitXml(data, 1);
      var t := Translated(data);
      if t != Translated(data[1..]) { SplitXml(t, 1); }
    }
  }

  lemma AroundSplit(a: string, b: string)
    ensures Translated(a + SPLIT + b) == Translated(a) + SPLIT + Translated(b)
  {
    TranslatedAround(a, SPLIT, b);
  }

  lemma AroundClose(a: string, b: string)
    ensures Translated(a + CLOSE + b) == Translated(a) + CLOSE + Translated(b)
  {
    TranslatedAround(a, CLOSE, b);
  }

  lemma ReadSplitTranslated(s: string, data: string, text: string, t: string, rest: string)
    requires s == text + SPLIT + t && data == text + CLOSE + rest
    requires NoEndWithin(text) && ReadContent(Translated(t), true) == IfXml(Translated(rest))
    ensures ReadContent(Translated(s), true) == IfXml(Translated(data))
  {
    TranslatedHasNoEnd(text);
    AroundSplit(text, t);
    AroundClose(text, rest);
    ReadSplitThen(Translated(s), Translated(data), Translated(text), Translated(t), Translated(rest));
  }

  lemma {:induction false} TranslatedSegmentsReadBack(data: string)
    ensures ReadContent(Translated(Segments(data)), true) == IfXml(Translated(data))
    decreases |data|
  {
    match NextEnd(data) {
      case None =>
        NoEndInside(data);
        ReadLastTranslated(data);
      case Some(n) =>
        var rest := data[n + 3..];
        NoEndBefore(data, n);
        TranslatedSegmentsReadBack(rest);
        FirstSegment(data, n);
        ReadSplitTranslated(Segments(data), data, data[..n], Segments(rest), rest);
    }
  }

  lemma ReadLastTranslated(data: string)
    requires NoEndWithin(data)
    ensures ReadContent(Translated(data + CLOSE), true) == IfXml(Translated(data))
  {
    TranslatedHasNoEnd(data);
    TranslatedApart(data, CLOSE);
    NothingTranslated(CLOSE);
    ReadSection(Translated(data), "");
    assert CLOSE + "" == CLOSE && Translated(data) + "" == Translated(data);
  }

  /** From a CDATA section too, the data is read with its line ends translated, when XML allows all its characters. */
  lemma CDataReadsBack(data: string)
    ensures ReadContent(Translated(OPEN + Segments(data)), false) == IfXml(Translated(data))
    ensures ReadContent(Translated(OPEN + Segments(data)), false) == Some(data) <==> AllXml(data) && '\r' !in data
  {
    TranslatedAfter(OPEN, Segments(data));
    ReadOpen(Translated(Segments(data)));
    TranslatedSegmentsReadBack(data);
    TranslatedIsXml(data);
    TranslatedSame(data);
  }

  /** So a failure's details are read without their invalid characters, and otherwise unchanged exactly without '\r'. */
  lemma DetailReadsBack(detail: string, signedChar: bool)
    ensures var read := ReadContent(Translated(OPEN + Segments(Valid(detail, signedChar))), false);
            && read == Some(Translated(Valid(detail, signedChar)))
            && (read == Some(Valid(detail, signedChar)) <==> '\r' !in detail)
  {
    var v := Valid(detail, signedChar);
    ValidIsXml(detail, signedChar);
    CDataReadsBack(v);
    TranslatedIsXml(v);
    EscapedIsOfValid(detail, signedChar);
  }
}
