/** The validator and the matcher of Google Test's simple regular expressions. */
module SimpleRegex {
  import opened Wrappers
  import opened RegexSyntax

  const MAX_COUNT: nat := 0xFFFF_FFFF_FFFF_FFFE  // static_cast<size_t>(-1) - 1

  method ValidateRegex(regex: Option<string>) returns (isValid: bool)
    ensures isValid <==> regex.Some? && IsValid(regex.value)
  {
    if regex.None? { return false; }
    var s := regex.value;
    isValid := true;
    var prevRepeatable := false;
    var i := 0;
    while i < |s|
      invariant 0 <= i <= |s|
      invariant isValid && Accepts(i == 0, prevRepeatable, s[i..]) <==> IsValid(s)
    {
      if s[i] == '\\' {
        i := i + 1;
        if i == |s| {
          return false;
        }
        if !IsValidEscape(s[i]) {
          isValid := false;
        }
        prevRepeatable := true;
      } else {
        var ch := s[i];
        if ch == '^' && i > 0 {
          isValid := false;
        } else if ch == '$' && i + 1 < |s| {
          isValid := false;
        } else if ch in {'(', ')', '[', ']', '{', '}', '|'} {
          isValid := false;
        } else if IsRepeat(ch) && !prevRepeatable {
          isValid := false;
        }
        prevRepeatable := ch !in {'^', '$', '?', '*', '+'};
      }
      i := i + 1;
    }
  }

  // ----- How languages split -----

  lemma HeadOfItems(it: Item, rest: seq<Item>, eol: bool, s: string)
    ensures DenotesHead([it] + rest, eol, s) <==>
            exists i :: 0 <= i <= |s| && ItemDenotes(it, s[..i]) && DenotesHead(rest, eol, s[i..])
  {
    var items := [it] + rest;
    forall k | 0 <= k <= |s| && (eol ==> k == |s|) && Denotes(items, s[..k])
      ensures exists i :: 0 <= i <= |s| && ItemDenotes(it, s[..i]) && DenotesHead(rest, eol, s[i..])
    {
      var i :| 0 <= i <= k && ItemDenotes(items[0], s[..k][..i]) && Denotes(items[1..], s[..k][i..]);
      assert s[..k][..i] == s[..i] && s[..k][i..] == s[i..][..k - i];
    }
    forall i | 0 <= i <= |s| && ItemDenotes(it, s[..i]) && DenotesHead(rest, eol, s[i..])
      ensures DenotesHead(items, eol, s)
    {
      var k :| 0 <= k <= |s[i..]| && (eol ==> k == |s[i..]|) && Denotes(rest, s[i..][..k]);
      var w := s[..i + k];
      assert w[..i] == s[..i] && w[i..] == s[i..][..k];
      assert Denotes(items, w);
    }
  }

  /** A repeated item takes some number of leading characters, all matching the atom. */
  lemma HeadOfRepetition(atom: Atom, rep: Rep, rest: seq<Item>, eol: bool, s: string)
    ensures DenotesHead([Item(atom, rep)] + rest, eol, s) <==>
            exists i :: 0 <= i <= |s| && Admits(rep, i) && (forall j | 0 <= j < i :: AtomDenotes(atom, s[j])) &&
                        DenotesHead(rest, eol, s[i..])
  {
    HeadOfItems(Item(atom, rep), rest, eol, s);
    forall i | 0 <= i <= |s|
      ensures ItemDenotes(Item(atom, rep), s[..i]) <==>
              Admits(rep, i) && (forall j | 0 <= j < i :: AtomDenotes(atom, s[j]))
    {
      assert forall j | 0 <= j < i :: s[..i][j] == s[j];
    }
  }

  /** An atom by itself takes one character. */
  lemma HeadOfAtom(atom: Atom, rest: seq<Item>, eol: bool, s: string)
    ensures DenotesHead([Item(atom, Once)] + rest, eol, s) <==>
            s != "" && AtomDenotes(atom, s[0]) && DenotesHead(rest, eol, s[1..])
  {
    HeadOfRepetition(atom, Once, rest, eol, s);
  }

  /** How an accepted regex begins, unless it is empty or '$'. */
  lemma FirstItem(regex: string)
    requires Accepts(false, false, regex) && regex != "" && regex[0] != '$'
    ensures var escaped := regex[0] == '\\';
            var r := if escaped then regex[1..] else regex;
            && r != "" && WellFormedAtom(Atom(escaped, r[0]))
            && if |r| > 1 && IsRepeat(r[1]) then
                 && Accepts(false, false, r[2..]) && EndsAnchored(regex) == EndsAnchored(r[2..])
                 && Items(regex) == [Item(Atom(escaped, r[0]), RepOf(r[1]))] + Items(r[2..])
               else
                 && Accepts(false, false, r[1..]) && EndsAnchored(regex) == EndsAnchored(r[1..])
                 && Items(regex) == [Item(Atom(escaped, r[0]), Once)] + Items(r[1..])
  {
    var tail := Leading(regex).1;
    var r := if regex[0] == '\\' then regex[1..] else regex;
    assert tail == if |r| > 1 && IsRepeat(r[1]) then r[2..] else r[1..];
  }

  // ----- The matcher -----

  method MatchRepetitionAndRegexAtHead(escaped: bool, c: char, repeat: char, regex: string, str: string)
    returns (matches: bool)
    requires IsRepeat(repeat) && WellFormedAtom(Atom(escaped, c)) && Accepts(false, false, regex)
    requires |str| <= MAX_COUNT
    ensures matches <==> DenotesHead([Item(Atom(escaped, c), RepOf(repeat))] + Items(regex), EndsAnchored(regex), str)
    decreases |regex|, 1
  {
    ghost var atom, rest, eol := Atom(escaped, c), Items(regex), EndsAnchored(regex);
    HeadOfRepetition(atom, RepOf(repeat), rest, eol, str);
    var minCount := if repeat == '+' then 1 else 0;
    var maxCount := if repeat == '?' then 1 else MAX_COUNT;
    var i := 0;
    while i <= maxCount
      invariant 0 <= i <= |str|
      invariant forall j | 0 <= j < i :: AtomDenotes(atom, str[j])
      invariant forall j | minCount <= j < i :: !DenotesHead(rest, eol, str[j..])
    {
      if i >= minCount {
        var tail := MatchRegexAtHead(regex, str[i..]);
        if tail {
          return true;
        }
      }
      if i < |str| {
        AtomsAsDocumented(atom, str[i]);
      }
      if i == |str| || !AtomMatchesChar(escaped, c, str[i]) {
        return false;
      }
      i := i + 1;
    }
    return false;
  }

  method MatchRegexAtHead(regex: string, str: string) returns (matches: bool)
    requires Accepts(false, false, regex) && |str| <= MAX_COUNT
    ensures matches <==> DenotesHead(Items(regex), EndsAnchored(regex), str)
    decreases |regex|, 0
  {
    if regex == "" {
      assert Denotes([], str[..0]);
      return true;
    }
    if regex[0] == '$' {
      assert Denotes([], str[..0]);
      return str == "";
    }
    FirstItem(regex);
    var escaped := regex[0] == '\\';
    var r := if escaped then regex[1..] else regex;
    if |r| > 1 && IsRepeat(r[1]) {
      matches := MatchRepetitionAndRegexAtHead(escaped, r[0], r[1], r[2..], str);
    } else {
      HeadOfAtom(Atom(escaped, r[0]), Items(r[1..]), EndsAnchored(r[1..]), str);
      if str == "" { return false; }
      AtomsAsDocumented(Atom(escaped, r[0]), str[0]);
      if !AtomMatchesChar(escaped, r[0], str[0]) { return false; }
      matches := MatchRegexAtHead(r[1..], str[1..]);
    }
  }

  method MatchRegexAnywhere(regex: Option<string>, str: Option<string>) returns (matches: bool)
    requires regex.Some? ==> IsValid(regex.value)
    requires str.Some? ==> |str.value| <= MAX_COUNT
    ensures matches <==> regex.Some? && str.Some? && DenotesSomewhere(Parsed(regex.value), str.value)
  {
    if regex.None? || str.None? { return false; }
    var re, s := regex.value, str.value;
    ghost var parsed := Parsed(re);
    if re != "" && re[0] == '^' {
      SomewhereFromHead(parsed, s);
      matches := MatchRegexAtHead(re[1..], s);
      return;
    }
    ghost var items, eol := Items(re), EndsAnchored(re);
    assert parsed == Regex(false, items, eol);
    SomewhereIsSomeHead(parsed, s);
    var i := 0;
    while true
      invariant 0 <= i <= |s|
      invariant forall j | 0 <= j < i :: !DenotesHead(items, eol, s[j..])
      decreases |s| - i
    {
      matches := MatchRegexAtHead(re, s[i..]);
      if matches || i == |s| { break; }
      i := i + 1;
    }
  }

  lemma SomewhereFromHead(re: Regex, s: string)
    requires re.bol
    ensures DenotesSomewhere(re, s) <==> DenotesHead(re.items, re.eol, s)
  {
    forall k | 0 <= k <= |s| ensures s[0..k] == s[..k] {}
    forall k | 0 <= k <= |s| && (re.eol ==> k == |s|) && Denotes(re.items, s[..k]) ensures DenotesSomewhere(re, s) {
      assert Denotes(re.items, s[0..k]);
    }
  }

  lemma SomewhereIsSomeHead(re: Regex, s: string)
    requires !re.bol
    ensures DenotesSomewhere(re, s) <==> exists i :: 0 <= i <= |s| && DenotesHead(re.items, re.eol, s[i..])
  {
    forall i, j | 0 <= i <= j <= |s| ensures s[i..j] == s[i..][..j - i] {}
    forall i, j | 0 <= i <= j <= |s| && (re.eol ==> j == |s|) && Denotes(re.items, s[i..j])
      ensures DenotesHead(re.items, re.eol, s[i..])
    {
      assert Denotes(re.items, s[i..][..j - i]);
    }
    forall i | 0 <= i <= |s| && DenotesHead(re.items, re.eol, s[i..]) ensures DenotesSomewhere(re, s) {
      var k :| 0 <= k <= |s[i..]| && (re.eol ==> k == |s[i..]|) && Denotes(re.items, s[i..][..k]);
      assert Denotes(re.items, s[i..i + k]);
    }
  }
}
