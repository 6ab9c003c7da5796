/** The RE class: a pattern, whether it is valid, and the pattern anchored at both ends. */
module RegexObject {
  import opened Wrappers
  import opened RegexSyntax
  import opened SimpleRegex

  /** What RE::Init stores as full_pattern_. */
  function Anchored(s: string): string {
    (if s != "" && s[0] == '^' then "" else "^") + s + (if s == "" || s[|s| - 1] != '$' then "$" else "")
  }

  /** The pattern ends in a '$' that belongs to an escape sequence. */
  predicate EndsInEscapedDollar(s: string)
    requires IsValid(s)
  {
    s != "" && s[|s| - 1] == '$' && !Parsed(s).eol
  }

  predicate LastIsEscapedDollar(re: Regex) {
    !re.eol && re.items != [] && re.items[|re.items| - 1] == Item(Atom(true, '$'), Once)
  }

  function Last(s: string): char
    requires s != ""
  {
    s[|s| - 1]
  }

  lemma {:induction false} LastOfItems(items: seq<Item>, eol: bool)
    requires WellFormed(items)
    ensures var s := WrittenItems(items, eol);
            (s != "" && Last(s) == '$') <==> (eol || LastIsEscapedDollar(Regex(false, items, eol)))
  {
    if items != [] {
      LastOfItems(items[1..], eol);
      assert WellFormedAtom(items[0].atom);
      if items[1..] == [] && !eol {
        assert WrittenItems(items, eol) == Written(items[0]);
      }
    }
  }

  lemma {:induction false} AddingDollar(items: seq<Item>)
    ensures WrittenItems(items, false) + "$" == WrittenItems(items, true)
  {
    if items != [] {
      AddingDollar(items[1..]);
    }
  }

  lemma AnchoredIs(s: string, body: string, bol: bool)
    requires s == (if bol then "^" + body else body) && (body != "" ==> body[0] != '^')
    ensures Anchored(s) == "^" + body + if body != "" && Last(body) == '$' then "" else "$"
  {
    assert bol ==> s[0] == '^' && (body != "" ==> Last(s) == Last(body));
    assert "" + s == s && s + "" == s;
    assert bol && body == "" ==> Last(s) == '^';
  }

  /** How a written regex ends. */
  lemma WrittenEnds(re: Regex)
    requires WellFormed(re.items)
    ensures var s, body := WrittenRegex(re), WrittenItems(re.items, re.eol);
            && (body != "" ==> body[0] != '^' && s != "" && Last(s) == Last(body))
            && (s != "" && Last(s) == '$' <==> body != "" && Last(body) == '$')
            && (body != "" && Last(body) == '$' <==> re.eol || LastIsEscapedDollar(re))
  {
    LastOfItems(re.items, re.eol);
    FirstIsNoRepeat(re.items, re.eol);
  }

  lemma Framed(items: seq<Item>, eol: bool, escaped: bool)
    requires !(eol && escaped)
    ensures "^" + WrittenItems(items, eol) + (if eol || escaped then "" else "$") == "^" + WrittenItems(items, !escaped)
  {
    AddingDollar(items);
    var body := WrittenItems(items, eol);
    assert "^" + body + "" == "^" + body && "^" + body + "$" == "^" + (body + "$");
  }

  lemma AnchoredWritten(re: Regex)
    requires WellFormed(re.items)
    ensures var s := WrittenRegex(re);
            && Anchored(s) == WrittenRegex(Regex(true, re.items, !LastIsEscapedDollar(re)))
            && (s != "" && Last(s) == '$' && !re.eol <==> LastIsEscapedDollar(re))
  {
    var body := WrittenItems(re.items, re.eol);
    WrittenEnds(re);
    assert "" + body == body;
    AnchoredIs(WrittenRegex(re), body, re.bol);
    Framed(re.items, re.eol, LastIsEscapedDollar(re));
  }

  /**
   * The anchored pattern of a valid pattern is valid; it is the same regex
   * with both anchors, except that a final escaped '$' gets no anchor after it.
   */
  lemma AnchoredIsValid(s: string)
    requires IsValid(s)
    ensures IsValid(Anchored(s))
    ensures Parsed(Anchored(s)) == Regex(true, Parsed(s).items, !EndsInEscapedDollar(s))
    ensures EndsInEscapedDollar(s) <==> LastIsEscapedDollar(Parsed(s))
  {
    AnchoredWritten(Parsed(s));
    ReadBack(Regex(true, Parsed(s).items, !LastIsEscapedDollar(Parsed(s))));
  }

  lemma {:induction false} EndsInDollar(items: seq<Item>, w: string)
    requires items != [] && items[|items| - 1] == Item(Atom(true, '$'), Once) && Denotes(items, w)
    ensures w != "" && w[|w| - 1] == '$'
  {
    var k :| 0 <= k <= |w| && ItemDenotes(items[0], w[..k]) && Denotes(items[1..], w[k..]);
    if |items| > 1 {
      EndsInDollar(items[1..], w[k..]);
    } else {
      assert Denotes([], w[k..]);
      assert w[..k][0] == w[0];
    }
  }

  function Sample(a: Atom): char {
    if !a.escaped then (if a.c == '.' then 'x' else a.c)
    else match a.c
      case 'd' => '0' case 'D' => 'x' case 'f' => FORM_FEED case 'n' => '\n' case 'r' => '\r'
      case 's' => ' ' case 'S' => 'x' case 't' => '\t' case 'v' => VERTICAL_TAB case 'w' => 'x' case 'W' => ' '
      case punct => punct
  }

  function SampleOf(items: seq<Item>): string {
    if items == [] then "" else [Sample(items[0].atom)] + SampleOf(items[1..])
  }

  lemma {:induction false} EveryLanguageHasAWord(items: seq<Item>)
    requires WellFormed(items)
    ensures Denotes(items, SampleOf(items))
  {
    if items != [] {
      EveryLanguageHasAWord(items[1..]);
      var w := SampleOf(items);
      assert w[..1] == [Sample(items[0].atom)] && w[1..] == SampleOf(items[1..]);
      assert ItemDenotes(items[0], w[..1]);
    }
  }

  /** What FullMatch decides: the documented whole-string match, or a prefix match after a final escaped '$'. */
  ghost predicate FullMatches(s: string, str: string)
    requires IsValid(s)
  {
    if EndsInEscapedDollar(s) then DenotesHead(Parsed(s).items, false, str) else Denotes(Parsed(s).items, str)
  }

  lemma AnchoredDecidesFullMatch(s: string, str: string)
    requires IsValid(s)
    ensures IsValid(Anchored(s)) && (DenotesSomewhere(Parsed(Anchored(s)), str) <==> FullMatches(s, str))
  {
    AnchoredIsValid(s);
    SomewhereFromHead(Parsed(Anchored(s)), str);
    assert str[..|str|] == str;
  }

  /**
   * FullMatch decides membership of the whole string in the language, for all
   * strings, exactly for the patterns that do not end in an escaped '$'.
   */
  lemma FullMatchIsWholeStringMatch(s: string)
    requires IsValid(s)
    ensures (forall str :: FullMatches(s, str) <==> Denotes(Parsed(s).items, str)) <==> !EndsInEscapedDollar(s)
  {
    var items := Parsed(s).items;
    if EndsInEscapedDollar(s) {
      AnchoredIsValid(s);
      var str := PrefixOnly(items);
      assert FullMatches(s, str);
    }
  }

  lemma PrefixOnly(items: seq<Item>) returns (str: string)
    requires WellFormed(items) && items != [] && items[|items| - 1] == Item(Atom(true, '$'), Once)
    ensures DenotesHead(items, false, str) && !Denotes(items, str)
  {
    EveryLanguageHasAWord(items);
    var w := SampleOf(items);
    str := w + "x";
    assert str[..|w|] == w;
    if Denotes(items, str) {
      EndsInDollar(items, str);
    }
  }

  /** The pattern "\$" full-matches "$x", although "$x" is not in its language. */
  lemma EscapedDollarExample()
    ensures IsValid("\\$") && FullMatches("\\$", "$x") && !Denotes(Parsed("\\$").items, "$x")
  {
    var re := Regex(false, [Item(Atom(true, '$'), Once)], false);
    assert re.items[1..] == [];
    assert WrittenRegex(re) == "\\$";
    ReadBack(re);
    assert "$x"[..1] == "$" && "$"[..1] == "$" && "$"[1..] == "";
    assert ItemDenotes(re.items[0], "$"[..1]) && Denotes(re.items[1..], "$"[1..]);
    assert Denotes(re.items, "$x"[..1]);
    if Denotes(re.items, "$x") {
      EndsInDollar(re.items, "$x");
    }
  }

  /** A pattern for the whole of a string that is one character repeated. */
  lemma OneCharacter(c: char, rep: Rep, s: string)
    requires WellFormedAtom(Atom(false, c)) && c != '.'
    ensures DenotesSomewhere(Regex(true, [Item(Atom(false, c), rep)], true), s) <==>
            Admits(rep, |s|) && forall i | 0 <= i < |s| :: s[i] == c
  {
    var re := Regex(true, [Item(Atom(false, c), rep)], true);
    SomewhereFromHead(re, s);
    HeadOfRepetition(Atom(false, c), rep, [], true, s);
    assert re.items == [Item(Atom(false, c), rep)] + [];
    forall i | 0 <= i <= |s| ensures DenotesHead([], true, s[i..]) <==> i == |s| {
      assert s[i..][..|s[i..]|] == s[i..];
    }
  }

  lemma PatternOf(c: char, rep: Rep, symbol: string)
    requires WellFormedAtom(Atom(false, c))
    requires (symbol, rep) in [("", Once), ("?", ZeroOrOne), ("*", ZeroOrMore), ("+", OneOrMore)]
    ensures var pattern := "^" + [c] + symbol + "$";
            IsValid(pattern) && Parsed(pattern) == Regex(true, [Item(Atom(false, c), rep)], true)
  {
    var re := Regex(true, [Item(Atom(false, c), rep)], true);
    ReadBack(re);
    assert re.items[1..] == [];
    assert WrittenRegex(re) == "^" + [c] + symbol + "$";
  }

  /** "?" stands for at most one, "*" for any number, and "+" for at least one. */
  lemma RepetitionsAsDocumented(c: char, s: string)
    requires WellFormedAtom(Atom(false, c)) && c != '.'
    ensures var once, maybe := "^" + [c] + "" + "$", "^" + [c] + "?" + "$";
            var any, some := "^" + [c] + "*" + "$", "^" + [c] + "+" + "$";
            && IsValid(once) && IsValid(maybe) && IsValid(any) && IsValid(some)
            && (DenotesSomewhere(Parsed(once), s) <==> s == [c])
            && (DenotesSomewhere(Parsed(maybe), s) <==> s == "" || s == [c])
            && (DenotesSomewhere(Parsed(any), s) <==> forall i | 0 <= i < |s| :: s[i] == c)
            && (DenotesSomewhere(Parsed(some), s) <==> s != "" && forall i | 0 <= i < |s| :: s[i] == c)
  {
    PatternOf(c, Once, "");
    PatternOf(c, ZeroOrOne, "?");
    PatternOf(c, ZeroOrMore, "*");
    PatternOf(c, OneOrMore, "+");
    OneCharacter(c, Once, s);
    OneCharacter(c, ZeroOrOne, s);
    OneCharacter(c, ZeroOrMore, s);
    OneCharacter(c, OneOrMore, s);
  }

  /** memcpy */
  method Copy(buffer: array<char>, at: nat, s: string)
    requires at + |s| <= buffer.Length
    modifies buffer
    ensures buffer[..] == old(buffer[..at]) + s + old(buffer[at + |s|..])
  {
    forall i | 0 <= i < |s| {
      buffer[at + i] := s[i];
    }
  }

  class RE {
    var pattern: Option<string>
    var fullPattern: Option<string>
    var isValid: bool

    ghost predicate Valid()
      reads this
    {
      && (isValid <==> pattern.Some? && IsValid(pattern.value))
      && fullPattern == if isValid then Some(Anchored(pattern.value)) else None
    }

    /** RE::Init */
    constructor (regex: Option<string>)
      ensures Valid() && pattern == regex
    {
      pattern, fullPattern := regex, None;
      isValid := false;
      new;
      var ok := ValidateRegex(regex);
      isValid := ok;
      if !ok { return; }
      var s := regex.value;
      var len := |s|;
      var buffer := new char[len + 3];
      var at := 0;
      if s == "" || s[0] != '^' {
        buffer[at] := '^';
        at := at + 1;
      }
      ghost var caret := if s != "" && s[0] == '^' then "" else "^";
      assert buffer[..at] == caret;
      Copy(buffer, at, s);
      at := at + len;
      assert buffer[..at] == caret + s;
      if len == 0 || s[len - 1] != '$' {
        buffer[at] := '$';
        at := at + 1;
      }
      buffer[at] := '\0';
      assert buffer[..at] == Anchored(s);
      fullPattern := Some(buffer[..at]);
    }

    static method FullMatch(str: string, re: RE) returns (matches: bool)
      requires re.Valid() && |str| <= MAX_COUNT
      ensures matches <==> re.isValid && FullMatches(re.pattern.value, str)
    {
      if !re.isValid { return false; }
      AnchoredDecidesFullMatch(re.pattern.value, str);
      matches := MatchRegexAnywhere(re.fullPattern, Some(str));
    }

    static method PartialMatch(str: string, re: RE) returns (matches: bool)
      requires re.Valid() && |str| <= MAX_COUNT
      ensures matches <==> re.isValid && DenotesSomewhere(Parsed(re.pattern.value), str)
    {
      if !re.isValid { return false; }
      matches := MatchRegexAnywhere(re.pattern, Some(str));
    }
  }
}
