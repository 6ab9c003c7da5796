/**
 * ODBC_Connection::escape: a string made into an SQL literal. The specification
 * is a reader of character string literals (section 5.3 of SQL-92): quoted
 * segments, where those after the first follow separators with a newline.
 */
module SqlLiteral {
  import opened Collections
  import opened Wrappers

  const QUOTE := '\''

  function Piece(c: char): string { if c == QUOTE then [QUOTE, QUOTE] else [c] }

  /** Each quote doubled. */
  function Doubled(str: string): (s: string)
    ensures |str| <= |s| <= 2 * |str|
    ensures '\0' !in str ==> '\0' !in s
  {
    if str == "" then "" else Piece(str[0]) + Doubled(str[1..])
  }

  function Quoted(str: string): string { [QUOTE] + Doubled(str) + [QUOTE] }

  /** The body of the loop: one character, or a quote twice. */
  method PutPiece(buf: array<char>, at: nat, c: char) returns (pos: nat)
    requires at + 2 <= buf.Length
    modifies buf
    ensures pos == at + |Piece(c)| && buf[..pos] == old(buf[..at]) + Piece(c)
  {
    pos := at;
    if c == QUOTE {
      buf[pos] := QUOTE;
      pos := pos + 1;
      buf[pos] := QUOTE;
      pos := pos + 1;
    } else {
      buf[pos] := c;
      pos := pos + 1;
    }
  }

  /** A C string comes in, and in the new buffer one goes out. */
  method Escape(str: string) returns (buf: array<char>)
    requires '\0' !in str
    ensures fresh(buf) && buf.Length == 2 * |str| + 4
    ensures |Quoted(str)| < buf.Length && '\0' !in Quoted(str)
    ensures buf[..|Quoted(str)|] == Quoted(str) && buf[|Quoted(str)|] == '\0'
  {
    buf := new char[2 * |str| + 4];
    buf[0] := QUOTE;
    var pos := 1;
    ghost var done := [QUOTE];
    assert str[0..] == str;
    for i := 0 to |str|
      invariant 1 <= pos <= 1 + 2 * i && buf[..pos] == done
      invariant done + Doubled(str[i..]) == [QUOTE] + Doubled(str)
    {
      NextDoubled(str, i, done);
      done := done + Piece(str[i]);
      pos := PutPiece(buf, pos, str[i]);
    }
    assert done + Doubled(str[|str|..]) == done;
    buf[pos] := QUOTE;
    assert buf[..pos + 1] == done + [QUOTE];
    pos := pos + 1;
    buf[pos] := '\0';
  }

  lemma NextDoubled(str: string, i: nat, done: string)
    requires i < |str|
    ensures (done + Piece(str[i])) + Doubled(str[i + 1..]) == done + Doubled(str[i..])
  {
    assert str[i..][1..] == str[i + 1..];
    Regroup(done, Piece(str[i]), Doubled(str[i + 1..]));
  }

  // ----- Reading -----

  function Prepend(c: char, r: Option<(string, string)>): Option<(string, string)> {
    if r.Some? then Some(([c] + r.value.0, r.value.1)) else None
  }

  function PrependAll(str: string, r: Option<(string, string)>): Option<(string, string)> {
    if r.Some? then Some((str + r.value.0, r.value.1)) else None
  }

  /** The characters left in a segment, and what follows its closing quote; None if it has none. */
  function ReadSegment(s: string): (r: Option<(string, string)>)
    ensures r.Some? ==> |r.value.0| + |r.value.1| < |s|
  {
    if s == "" then None
    else if s[0] != '\'' then Prepend(s[0], ReadSegment(s[1..]))
    else if |s| > 1 && s[1] == '\'' then Prepend('\'', ReadSegment(s[2..]))
    else Some(("", s[1..]))
  }

  predicate BeginsWithQuote(s: string) { s != "" && s[0] == '\'' }

  /** Up to the end of the line and its newline; 0 if there is none. */
  function LineLength(s: string): (n: nat)
    ensures n <= |s| && if n > 0 then s[n - 1] == '\n' && forall i :: 0 <= i < n - 1 ==> s[i] != '\n'
                        else forall i :: 0 <= i < |s| ==> s[i] != '\n'
  {
    if s == "" then 0
    else if s[0] == '\n' then 1
    else if LineLength(s[1..]) == 0 then 0
    else 1 + LineLength(s[1..])
  }

  /** The length of the separator at the beginning: a space, a newline, or two minus signs and the rest of the line. */
  function SeparatorLength(s: string): (n: nat)
    ensures n <= |s|
  {
    if s == "" then 0
    else if s[0] == ' ' || s[0] == '\n' then 1
    else if |s| >= 2 && s[0] == '-' && s[1] == '-' && LineLength(s[2..]) > 0 then 2 + LineLength(s[2..])
    else 0
  }

  /** What follows the separators, and whether a newline was among them. */
  function AfterSeparators(s: string): (r: (string, bool))
    ensures |r.0| <= |s| && (r.1 ==> |r.0| < |s|)
  {
    var n := SeparatorLength(s);
    if n == 0 then (s, false) else
    var r := AfterSeparators(s[n..]);
    (r.0, s[n - 1] == '\n' || r.1)
  }

  /** Another segment of the same literal follows. */
  predicate Continues(s: string) { AfterSeparators(s).1 && BeginsWithQuote(AfterSeparators(s).0) }

  /** The characters left in a literal, and what follows it; None if it does not end. */
  function ReadRest(s: string): (r: Option<(string, string)>)
    ensures r.Some? ==> |r.value.1| < |s|
    decreases |s|
  {
    match ReadSegment(s)
    case None => None
    case Some((segment, t)) =>
      if Continues(t) then PrependAll(segment, ReadRest(AfterSeparators(t).0[1..])) else Some((segment, t))
  }

  function ReadLiteral(s: string): Option<(string, string)> {
    if BeginsWithQuote(s) then ReadRest(s[1..]) else None
  }

  lemma ReadPiece(c: char, t: string)
    ensures ReadSegment(Piece(c) + t) == Prepend(c, ReadSegment(t))
  {
    assert (Piece(c) + t)[|Piece(c)|..] == t;
  }

  /** Text without the segment's end gives its own characters to whatever is read after it. */
  lemma {:induction false} ReadDoubled(str: string, s: string)
    ensures ReadSegment(Doubled(str) + s) == PrependAll(str, ReadSegment(s))
  {
    if str == "" {
      assert Doubled(str) + s == s;
      assert ReadSegment(s).Some? ==> "" + ReadSegment(s).value.0 == ReadSegment(s).value.0;
    } else {
      ReadDoubled(str[1..], s);
      ReadPiece(str[0], Doubled(str[1..]) + s);
      Regroup(Piece(str[0]), Doubled(str[1..]), s);
      PrependOneMore(str, ReadSegment(s));
    }
  }

  lemma PrependOneMore(str: string, r: Option<(string, string)>)
    requires str != ""
    ensures Prepend(str[0], PrependAll(str[1..], r)) == PrependAll(str, r)
  {
    if r.Some? {
      assert [str[0]] + (str[1..] + r.value.0) == str + r.value.0;
    }
  }

  /** The literal as the first segment of what is read. */
  lemma ReadQuoted(str: string, t: string)
    ensures BeginsWithQuote(Quoted(str) + t)
    ensures !BeginsWithQuote(t) ==> ReadSegment((Quoted(str) + t)[1..]) == Some((str, t))
    ensures BeginsWithQuote(t) && ReadSegment((Quoted(str) + t)[1..]).Some? ==>
              |ReadSegment((Quoted(str) + t)[1..]).value.1| < |t|
  {
    ReadDoubled(str, [QUOTE] + t);
    assert (Quoted(str) + t)[1..] == Doubled(str) + ([QUOTE] + t);
    assert str + "" == str;
  }

  /**
   * Wherever it stands in a statement, the literal is read as the string and
   * nothing more, unless another quote follows it, at once or after separators
   * with a newline.
   */
  lemma QuotedReadsBack(str: string, t: string)
    ensures ReadLiteral(Quoted(str) + t) == Some((str, t)) <==> !BeginsWithQuote(t) && !Continues(t)
  {
    ReadQuoted(str, t);
    assert (Quoted(str) + t)[0] == QUOTE;
  }

  lemma QuotedInjective(str: string, str': string)
    requires Quoted(str) == Quoted(str')
    ensures str == str'
  {
    QuotedReadsBack(str, "");
    QuotedReadsBack(str', "");
  }

  /** What has no quote is only put between quotes. */
  lemma {:induction false} NothingDoubled(str: string)
    requires '\'' !in str
    ensures Doubled(str) == str
  {
    if str != "" {
      NothingDoubled(str[1..]);
      assert str == [str[0]] + str[1..];
    }
  }

  // ----- All literals -----

  lemma {:induction false} OnlyDoubled(s: string, str: string, t: string)
    requires ReadSegment(s) == Some((str, t))
    ensures s == Doubled(str) + ([QUOTE] + t)
    decreases |s|
  {
    if s[0] == QUOTE && !(|s| > 1 && s[1] == QUOTE) {
      assert s == [s[0]] + s[1..];
    } else {
      var n := if s[0] == QUOTE then 2 else 1;
      OnlyDoubled(s[n..], str[1..], t);
      assert s == Piece(s[0]) + s[n..];
      Regroup(Piece(s[0]), Doubled(str[1..]), [QUOTE] + t);
    }
  }

  /** The segments of a literal, with the separators between them. */
  datatype Segments = Last(str: string) | More(str: string, separators: string, rest: Segments)

  function Text(l: Segments): string {
    match l
    case Last(str) => Quoted(str)
    case More(str, separators, rest) => Quoted(str) + (separators + Text(rest))
  }

  function Value(l: Segments): string {
    match l
    case Last(str) => str
    case More(str, _, rest) => str + Value(rest)
  }

  /** Nothing but separators, with a newline among them. */
  predicate AreSeparators(s: string) { AfterSeparators(s) == ("", true) }

  predicate WellSeparated(l: Segments) {
    l.More? ==> AreSeparators(l.separators) && WellSeparated(l.rest)
  }

  lemma LengthIsLocal(s: string, t: string)
    requires SeparatorLength(s) > 0
    ensures SeparatorLength(s[..SeparatorLength(s)] + t) == SeparatorLength(s)
  {
    var n := SeparatorLength(s);
    var u := s[..n] + t;
    if n > 2 {
      assert LineLength(s[2..]) == n - 2 && s[2..][n - 3] == '\n';
      assert forall i :: 0 <= i < n - 2 ==> u[2..][i] == s[2..][i];
      assert u[2..][n - 3] == '\n';
    }
  }

  lemma {:induction false} SeparatorsThen(separators: string, t: string)
    requires AfterSeparators(separators).0 == "" && BeginsWithQuote(t)
    ensures AfterSeparators(separators + t) == (t, AfterSeparators(separators).1)
    decreases |separators|
  {
    if separators == "" {
      assert separators + t == t;
    } else {
      var n := SeparatorLength(separators);
      var rest := separators[n..];
      assert separators + t == separators[..n] + (rest + t);
      LengthIsLocal(separators, rest + t);
      assert (separators + t)[n..] == rest + t;
      SeparatorsThen(rest, t);
    }
  }

  /** One separator put before others. */
  lemma OneMoreSeparator(s: string, rest: string)
    requires SeparatorLength(s) > 0 && AfterSeparators(rest).0 == ""
    ensures var n, front := SeparatorLength(s), s[..SeparatorLength(s)] + rest;
            AfterSeparators(front) == ("", s[n - 1] == '\n' || AfterSeparators(rest).1)
  {
    LengthIsLocal(s, rest);
    var n := SeparatorLength(s);
    assert (s[..n] + rest)[n..] == rest && (s[..n] + rest)[n - 1] == s[n - 1];
  }

  /** The text is these separators and then what follows its separators. */
  predicate Separates(separators: string, s: string) {
    s == separators + AfterSeparators(s).0 && AfterSeparators(separators) == ("", AfterSeparators(s).1)
  }

  lemma SeparatesOneMore(s: string, rest: string)
    requires SeparatorLength(s) > 0 && Separates(rest, s[SeparatorLength(s)..])
    ensures Separates(s[..SeparatorLength(s)] + rest, s)
  {
    var n := SeparatorLength(s);
    OneMoreSeparator(s, rest);
    CutTwice(s, n, rest, AfterSeparators(s[n..]).0);
  }

  lemma CutTwice(s: string, n: nat, a: string, b: string)
    requires n <= |s| && s[n..] == a + b
    ensures s == s[..n] + a + b
  {
    assert s == s[..n] + s[n..];
  }

  lemma {:induction false} SeparatorsBefore(s: string) returns (separators: string)
    ensures Separates(separators, s)
    decreases |s|
  {
    var n := SeparatorLength(s);
    if n == 0 {
      separators := "";
    } else {
      var rest := SeparatorsBefore(s[n..]);
      SeparatesOneMore(s, rest);
      separators := s[..n] + rest;
    }
  }

  /** However a literal is divided into segments, it is read as the value of them all. */
  lemma {:induction false} SegmentsReadBack(l: Segments)
    requires WellSeparated(l)
    ensures ReadLiteral(Text(l)) == Some((Value(l), ""))
  {
    match l
    case Last(str) =>
      QuotedReadsBack(str, "");
      assert Quoted(str) + "" == Quoted(str);
    case More(str, separators, rest) =>
      SegmentsReadBack(rest);
      SeparatorsThen(separators, Text(rest));
      ReadQuoted(str, separators + Text(rest));
  }

  lemma FirstSegment(s: string, segment: string, t: string)
    requires BeginsWithQuote(s) && ReadSegment(s[1..]) == Some((segment, t))
    ensures s == Quoted(segment) + t
  {
    OnlyDoubled(s[1..], segment, t);
    assert s == [QUOTE] + s[1..];
  }

  lemma {:induction false} SegmentsOf(s: string, str: string) returns (l: Segments)
    requires ReadLiteral(s) == Some((str, ""))
    ensures WellSeparated(l) && Text(l) == s && Value(l) == str
    decreases |s|
  {
    var (segment, t) := ReadSegment(s[1..]).value;
    FirstSegment(s, segment, t);
    if Continues(t) {
      var next := AfterSeparators(t).0;
      var separators := SeparatorsBefore(t);
      var rest := SegmentsOf(next, ReadLiteral(next).value.0);
      l := More(segment, separators, rest);
    } else {
      l := Last(segment);
    }
  }

  /** The reader takes for literals exactly what section 5.3 does: well separated segments. */
  lemma LiteralsAreSegments(s: string, str: string)
    ensures ReadLiteral(s) == Some((str, "")) <==> exists l :: WellSeparated(l) && Text(l) == s && Value(l) == str
  {
    if ReadLiteral(s) == Some((str, "")) {
      var l := SegmentsOf(s, str);
    }
    forall l | WellSeparated(l) && Text(l) == s && Value(l) == str ensures ReadLiteral(s) == Some((str, "")) {
      SegmentsReadBack(l);
    }
  }

  /** Of the literals with this value, the quoted string is the only one of a single segment. */
  lemma OnlyQuoted(s: string, str: string)
    requires ReadLiteral(s) == Some((str, ""))
    ensures s == Quoted(str) <==> ReadSegment(s[1..]) == Some((str, ""))
  {
    assert Quoted(str) + "" == Quoted(str);
    if ReadSegment(s[1..]) == Some((str, "")) {
      FirstSegment(s, str, "");
    }
    ReadQuoted(str, "");
  }

  /** Quoted twice on two lines, it is one literal. */
  lemma ContinuedExample(str: string, str': string)
    ensures ReadLiteral(Quoted(str) + ("\n" + Quoted(str'))) == Some((str + str', ""))
  {
    assert "\n"[1..] == "";
    SegmentsReadBack(More(str, "\n", Last(str')));
  }
}
