/**
 * The syntax of Google Test's simple regular expressions: abstract syntax,
 * how it is written down, what the documentation says it denotes, and the
 * scan by which a string is accepted. C strings are the characters before
 * their terminating NUL.
 */
module RegexSyntax {
  const FORM_FEED := '\U{0C}'
  const VERTICAL_TAB := '\U{0B}'

  predicate IsAsciiDigit(ch: char) { '0' <= ch <= '9' }

  predicate IsAsciiPunct(ch: char) {
    '!' <= ch <= '/' || ':' <= ch <= '@' || '[' <= ch <= '`' || '{' <= ch <= '~'
  }

  /** The four ranges are the characters the source lists one by one. */
  lemma PunctuationListed(ch: char)
    ensures IsAsciiPunct(ch) <==> ch in "^-!\"#$%&'()*+,./:;<=>?@[\\]_`{|}~"
  {
  }

  predicate IsRepeat(ch: char) { ch in {'?', '*', '+'} }

  predicate IsAsciiWhiteSpace(ch: char) { ch in {' ', FORM_FEED, '\n', '\r', '\t', VERTICAL_TAB} }

  predicate IsAsciiWordChar(ch: char) {
    'a' <= ch <= 'z' || 'A' <= ch <= 'Z' || '0' <= ch <= '9' || ch == '_'
  }

  predicate IsValidEscape(ch: char) { IsAsciiPunct(ch) || ch in {'d', 'D', 'f', 'n', 'r', 's', 'S', 't', 'v', 'w', 'W'} }

  function AtomMatchesChar(escaped: bool, pattern: char, ch: char): bool {
    if escaped then
      match pattern
      case 'd' => IsAsciiDigit(ch)
      case 'D' => !IsAsciiDigit(ch)
      case 'f' => ch == FORM_FEED
      case 'n' => ch == '\n'
      case 'r' => ch == '\r'
      case 's' => IsAsciiWhiteSpace(ch)
      case 'S' => !IsAsciiWhiteSpace(ch)
      case 't' => ch == '\t'
      case 'v' => ch == VERTICAL_TAB
      case 'w' => IsAsciiWordChar(ch)
      case 'W' => !IsAsciiWordChar(ch)
      case _ => IsAsciiPunct(pattern) && pattern == ch
    else
      (pattern == '.' && ch != '\n') || pattern == ch
  }

  /** A literal character or period, or a backslash and the character after it. */
  datatype Atom = Atom(escaped: bool, c: char)

  datatype Rep = Once | ZeroOrOne | ZeroOrMore | OneOrMore

  datatype Item = Item(atom: Atom, rep: Rep)

  datatype Regex = Regex(bol: bool, items: seq<Item>, eol: bool)

  /** What may stand after a backslash: the classes and control characters of the table, and punctuation. */
  predicate IsDocumentedEscape(ch: char) {
    || ch in {'d', 'D', 'f', 'n', 'r', 's', 'S', 't', 'v', 'w', 'W'}
    || ch in {'^', '-', '!', '\"', '#', '$', '%', '&', '\'', '(', ')', '*', '+', ',', '.', '/',
              ':', ';', '<', '=', '>', '?', '@', '[', '\\', ']', '_', '`', '{', '|', '}', '~'}
  }

  lemma EscapesListed(ch: char)
    ensures IsValidEscape(ch) <==> IsDocumentedEscape(ch)
  {
  }

  predicate WellFormedAtom(a: Atom) {
    if a.escaped then IsDocumentedEscape(a.c) else a.c !in {'\\', '^', '$', '?', '*', '+', '(', ')', '[', ']', '{', '}', '|'}
  }

  predicate WellFormed(items: seq<Item>) {
    forall it <- items :: WellFormedAtom(it.atom)
  }

  // ----- Writing a regex down -----

  function Written(it: Item): string {
    (if it.atom.escaped then "\\" else "") + [it.atom.c] +
    match it.rep
    case Once => ""
    case ZeroOrOne => "?"
    case ZeroOrMore => "*"
    case OneOrMore => "+"
  }

  function WrittenItems(items: seq<Item>, eol: bool): string {
    if items == [] then if eol then "$" else "" else Written(items[0]) + WrittenItems(items[1..], eol)
  }

  function WrittenRegex(re: Regex): string {
    (if re.bol then "^" else "") + WrittenItems(re.items, re.eol)
  }

  // ----- What a regex denotes, after the table in gtest-death-test.h -----

  predicate AtomDenotes(a: Atom, ch: char)
    decreases a.c in {'D', 'S', 'W'}
  {
    if !a.escaped then (if a.c == '.' then ch != '\n' else ch == a.c)
    else match a.c
      case 'd' => ch in "0123456789"
      case 'f' => ch == FORM_FEED
      case 'n' => ch == '\n'
      case 'r' => ch == '\r'
      case 's' => ch == ' ' || ch in ['\t', '\n', VERTICAL_TAB, FORM_FEED, '\r']
      case 't' => ch == '\t'
      case 'v' => ch == VERTICAL_TAB
      case 'w' => 'a' <= ch <= 'z' || 'A' <= ch <= 'Z' || ch == '_' || ch in "0123456789"
      case 'D' => !AtomDenotes(Atom(true, 'd'), ch)
      case 'S' => !AtomDenotes(Atom(true, 's'), ch)
      case 'W' => !AtomDenotes(Atom(true, 'w'), ch)
      case punct => ch == punct
  }

  lemma AtomsAsDocumented(a: Atom, ch: char)
    requires WellFormedAtom(a)
    ensures AtomMatchesChar(a.escaped, a.c, ch) <==> AtomDenotes(a, ch)
  {
    EscapesListed(a.c);
  }

  predicate Admits(rep: Rep, n: nat) {
    match rep
    case Once => n == 1
    case ZeroOrOne => n <= 1
    case ZeroOrMore => true
    case OneOrMore => n >= 1
  }

  ghost predicate ItemDenotes(it: Item, w: string) {
    Admits(it.rep, |w|) && forall i | 0 <= i < |w| :: AtomDenotes(it.atom, w[i])
  }

  /** `w` is in the language of the items one after the other. */
  ghost predicate Denotes(items: seq<Item>, w: string) {
    if items == [] then w == ""
    else exists k :: 0 <= k <= |w| && ItemDenotes(items[0], w[..k]) && Denotes(items[1..], w[k..])
  }

  /** Some prefix of `s` is in the language; the whole of it, after '$'. */
  ghost predicate DenotesHead(items: seq<Item>, eol: bool, s: string) {
    exists k :: 0 <= k <= |s| && (eol ==> k == |s|) && Denotes(items, s[..k])
  }

  /** Some substring of `s` is in the language, '^' and '$' standing for the ends of `s`. */
  ghost predicate DenotesSomewhere(re: Regex, s: string) {
    exists i, j :: 0 <= i <= j <= |s| && (re.bol ==> i == 0) && (re.eol ==> j == |s|) && Denotes(re.items, s[i..j])
  }

  // ----- The scan -----

  /** The verdict of ValidateRegex on what is left, at or past the beginning, after a repeatable atom or not. */
  predicate Accepts(first: bool, repeatable: bool, s: string)
    decreases |s|
  {
    if s == "" then true
    else if s[0] == '\\' then |s| >= 2 && IsValidEscape(s[1]) && Accepts(false, true, s[2..])
    else
      && !(s[0] == '^' && !first)
      && !(s[0] == '$' && |s| > 1)
      && s[0] !in {'(', ')', '[', ']', '{', '}', '|'}
      && !(IsRepeat(s[0]) && !repeatable)
      && Accepts(false, s[0] !in {'^', '$', '?', '*', '+'}, s[1..])
  }

  function RepOf(ch: char): Rep
    requires IsRepeat(ch)
  {
    if ch == '?' then ZeroOrOne else if ch == '*' then ZeroOrMore else OneOrMore
  }

  /** The length of the leading atom. */
  function AtomLength(s: string): nat { if s != "" && s[0] == '\\' then 2 else 1 }

  /** The leading item of an accepted string, and what is left after it. */
  function Leading(s: string): (r: (Item, string))
    requires Accepts(false, false, s) && s != "" && s[0] != '$'
    ensures Accepts(false, false, r.1) && |r.1| < |s|
    ensures WellFormedAtom(r.0.atom) && s == Written(r.0) + r.1
  {
    var n := AtomLength(s);
    EscapesListed(s[n - 1]);
    var atom := Atom(s[0] == '\\', s[n - 1]);
    if n < |s| && IsRepeat(s[n]) then
      assert s[n..][1..] == s[n + 1..] && Accepts(false, true, s[n..]);
      assert s == Written(Item(atom, RepOf(s[n]))) + s[n + 1..];
      (Item(atom, RepOf(s[n])), s[n + 1..])
    else
      assert Accepts(false, true, s[n..]);
      (Item(atom, Once), s[n..])
  }

  function Items(s: string): (items: seq<Item>)
    requires Accepts(false, false, s)
    ensures WellFormed(items) && s == WrittenItems(items, EndsAnchored(s))
  {
    if s == "" || s[0] == '$' then [] else [Leading(s).0] + Items(Leading(s).1)
  }

  /** Whether the accepted string ends in a '$' of its own. */
  predicate EndsAnchored(s: string)
    requires Accepts(false, false, s)
  {
    if s == "" then false else if s[0] == '$' then true else EndsAnchored(Leading(s).1)
  }

  predicate IsValid(s: string) { Accepts(true, false, s) }

  /** The regex an accepted string writes down. */
  function Parsed(s: string): (re: Regex)
    requires IsValid(s)
    ensures WellFormed(re.items) && WrittenRegex(re) == s
  {
    var bol := s != "" && s[0] == '^';
    var body := if bol then s[1..] else s;
    Regex(bol, Items(body), EndsAnchored(body))
  }

  /** What may follow an item: something accepted that would not be taken for its repetition. */
  predicate Follows(rest: string) {
    Accepts(false, false, rest) && (rest != "" ==> !IsRepeat(rest[0]))
  }

  lemma AtomIsAccepted(a: Atom, rest: string)
    requires WellFormedAtom(a) && Accepts(false, true, rest)
    ensures var s := Written(Item(a, Once)) + rest;
            && s != "" && s[0] != '$' && Accepts(false, false, s)
            && (s[0] == '\\') == a.escaped && s[AtomLength(s) - 1] == a.c && s[AtomLength(s)..] == rest
  {
    var s := Written(Item(a, Once)) + rest;
    EscapesListed(a.c);
    assert Written(Item(a, Once)) == if a.escaped then ['\\', a.c] else [a.c];
    if a.escaped {
      assert s[0] == '\\' && s[1] == a.c && s[2..] == rest;
    } else {
      assert s[0] == a.c && s[1..] == rest;
    }
  }

  lemma OnceIsAccepted(a: Atom, rest: string)
    requires WellFormedAtom(a) && Follows(rest)
    ensures var s := Written(Item(a, Once)) + rest;
            s != "" && s[0] != '$' && Accepts(false, false, s) && Leading(s) == (Item(a, Once), rest)
  {
    AtomIsAccepted(a, rest);
  }

  lemma RepeatedIsAccepted(a: Atom, rep: Rep, rest: string)
    requires WellFormedAtom(a) && rep != Once && Follows(rest)
    ensures var s := Written(Item(a, rep)) + rest;
            s != "" && s[0] != '$' && Accepts(false, false, s) && Leading(s) == (Item(a, rep), rest)
  {
    var ch := if rep == ZeroOrOne then '?' else if rep == ZeroOrMore then '*' else '+';
    var tail := [ch] + rest;
    assert tail[1..] == rest && Accepts(false, true, tail);
    AtomIsAccepted(a, tail);
    assert Written(Item(a, rep)) + rest == Written(Item(a, Once)) + tail;
  }

  lemma {:induction false} WrittenIsAccepted(items: seq<Item>, eol: bool)
    requires WellFormed(items)
    ensures Accepts(false, false, WrittenItems(items, eol))
    ensures Items(WrittenItems(items, eol)) == items && EndsAnchored(WrittenItems(items, eol)) == eol
  {
    if items != [] {
      var it, rest := items[0], WrittenItems(items[1..], eol);
      WrittenIsAccepted(items[1..], eol);
      FirstIsNoRepeat(items[1..], eol);
      if it.rep == Once {
        OnceIsAccepted(it.atom, rest);
      } else {
        RepeatedIsAccepted(it.atom, it.rep, rest);
      }
      assert it == Item(it.atom, it.rep) && items == [it] + items[1..];
    }
  }

  lemma FirstIsNoRepeat(items: seq<Item>, eol: bool)
    requires WellFormed(items)
    ensures var s := WrittenItems(items, eol); s != "" ==> !IsRepeat(s[0]) && s[0] != '^'
  {
    if items != [] {
      assert WellFormedAtom(items[0].atom);
    }
  }

  /**
   * The scan accepts exactly the strings that write down a well-formed regex,
   * and reading one back gives the regex that was written.
   */
  lemma AcceptsExactlyTheGrammar(s: string)
    ensures IsValid(s) <==> exists re: Regex :: WellFormed(re.items) && WrittenRegex(re) == s
  {
    if IsValid(s) {
      assert WrittenRegex(Parsed(s)) == s;
    }
    forall re: Regex | WellFormed(re.items) && WrittenRegex(re) == s ensures IsValid(s) {
      ReadBack(re);
    }
  }

  lemma ReadBack(re: Regex)
    requires WellFormed(re.items)
    ensures IsValid(WrittenRegex(re)) && Parsed(WrittenRegex(re)) == re
  {
    var body := WrittenItems(re.items, re.eol);
    WrittenIsAccepted(re.items, re.eol);
    FirstIsNoRepeat(re.items, re.eol);
    if re.bol {
      assert WrittenRegex(re)[1..] == body;
    } else {
      assert WrittenRegex(re) == body;
    }
  }
}
