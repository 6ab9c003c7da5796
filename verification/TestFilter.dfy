/** The test filter: glob patterns, ':'-separated lists of them, and the '-' that starts the negative list. */
module TestFilter {
  import opened Fields

  // ----- The matcher -----

  /** The first ':' of the pattern, like its end, marks the end of it. */
  function PatternMatchesString(pattern: string, str: string): bool
    decreases |pattern| + |str|
  {
    if pattern == "" || pattern[0] == ':' then str == ""
    else if pattern[0] == '?' then str != "" && PatternMatchesString(pattern[1..], str[1..])
    else if pattern[0] == '*' then
      (str != "" && PatternMatchesString(pattern, str[1..])) || PatternMatchesString(pattern[1..], str)
    else str != "" && pattern[0] == str[0] && PatternMatchesString(pattern[1..], str[1..])
  }

  // ----- What a pattern means -----

  function Concat(pieces: seq<string>): string {
    if pieces == [] then "" else pieces[0] + Concat(pieces[1..])
  }

  predicate Fits(ch: char, piece: string) {
    ch == '*' || (|piece| == 1 && (ch == '?' || piece[0] == ch))
  }

  ghost predicate IsSplit(pieces: seq<string>, pattern: string, str: string) {
    && |pieces| == |pattern|
    && Concat(pieces) == str
    && forall i | 0 <= i < |pattern| :: Fits(pattern[i], pieces[i])
  }

  /** The string can be cut into one piece for each pattern character, each fitting its character. */
  ghost predicate GlobMatches(pattern: string, str: string) {
    exists pieces :: IsSplit(pieces, pattern, str)
  }

  ghost predicate SomeGlobMatches(patterns: seq<string>, str: string) {
    exists p <- patterns :: GlobMatches(p, str)
  }

  lemma SplitCons(pieces: seq<string>, pattern: string, str: string)
    requires pattern != "" && pieces != []
    ensures IsSplit(pieces, pattern, str) <==>
            Fits(pattern[0], pieces[0]) && pieces[0] <= str && IsSplit(pieces[1..], pattern[1..], str[|pieces[0]|..])
  {
    if IsSplit(pieces, pattern, str) {
      SplitTail(pieces, pattern, str);
    }
    if Fits(pattern[0], pieces[0]) && pieces[0] <= str && IsSplit(pieces[1..], pattern[1..], str[|pieces[0]|..]) {
      SplitWith(pieces, pattern, str);
    }
  }

  lemma SplitTail(pieces: seq<string>, pattern: string, str: string)
    requires pattern != "" && IsSplit(pieces, pattern, str)
    ensures Fits(pattern[0], pieces[0]) && pieces[0] <= str && IsSplit(pieces[1..], pattern[1..], str[|pieces[0]|..])
  {
    assert str == pieces[0] + Concat(pieces[1..]);
    assert forall i | 0 <= i < |pattern[1..]| :: pattern[1..][i] == pattern[i + 1] && pieces[1..][i] == pieces[i + 1];
  }

  lemma SplitWith(pieces: seq<string>, pattern: string, str: string)
    requires pattern != "" && pieces != []
    requires Fits(pattern[0], pieces[0]) && pieces[0] <= str && IsSplit(pieces[1..], pattern[1..], str[|pieces[0]|..])
    ensures IsSplit(pieces, pattern, str)
  {
    assert str == pieces[0] + str[|pieces[0]|..];
    forall i | 0 <= i < |pattern| ensures Fits(pattern[i], pieces[i]) {
      if i > 0 { assert Fits(pattern[1..][i - 1], pieces[1..][i - 1]); }
    }
  }

  lemma GlobCons(pattern: string, str: string)
    requires pattern != ""
    ensures GlobMatches(pattern, str) <==>
            exists k :: 0 <= k <= |str| && Fits(pattern[0], str[..k]) && GlobMatches(pattern[1..], str[k..])
  {
    forall pieces | IsSplit(pieces, pattern, str)
      ensures exists k :: 0 <= k <= |str| && Fits(pattern[0], str[..k]) && GlobMatches(pattern[1..], str[k..])
    {
      SplitCons(pieces, pattern, str);
      var k := |pieces[0]|;
      assert str[..k] == pieces[0];
    }
    forall k | 0 <= k <= |str| && Fits(pattern[0], str[..k]) && GlobMatches(pattern[1..], str[k..])
      ensures GlobMatches(pattern, str)
    {
      var rest :| IsSplit(rest, pattern[1..], str[k..]);
      var pieces := [str[..k]] + rest;
      assert pieces[1..] == rest;
      SplitCons(pieces, pattern, str);
    }
  }

  lemma GlobEmpty(str: string)
    ensures GlobMatches("", str) <==> str == ""
  {
    if str == "" {
      assert IsSplit([], "", str);
    }
  }

  function UpToColon(pattern: string): string {
    if pattern == "" || pattern[0] == ':' then "" else [pattern[0]] + UpToColon(pattern[1..])
  }

  /** The recursive matcher decides the meaning of the pattern before the first ':'. */
  lemma {:induction false} MatcherDecidesGlob(pattern: string, str: string)
    ensures PatternMatchesString(pattern, str) <==> GlobMatches(UpToColon(pattern), str)
    decreases |pattern| + |str|
  {
    var glob := UpToColon(pattern);
    if glob == "" {
      GlobEmpty(str);
    } else {
      GlobCons(glob, str);
      assert glob[1..] == UpToColon(pattern[1..]);
      if pattern[0] == '*' {
        MatcherDecidesGlob(pattern[1..], str);
        assert str[0..] == str && Fits('*', str[..0]);
        if str != "" {
          MatcherDecidesGlob(pattern, str[1..]);
          GlobCons(glob, str[1..]);
          StarTakesOneMore(glob, str);
        }
      } else if str != "" {
        MatcherDecidesGlob(pattern[1..], str[1..]);
        assert str[..1][0] == str[0];
      }
    }
  }

  lemma StarTakesOneMore(glob: string, str: string)
    requires glob != "" && glob[0] == '*' && str != ""
    ensures GlobMatches(glob, str) <==> GlobMatches(glob[1..], str) || GlobMatches(glob, str[1..])
  {
    GlobCons(glob, str);
    GlobCons(glob, str[1..]);
    assert str[0..] == str && Fits('*', str[..0]);
    forall k | 0 < k <= |str| ensures str[k..] == str[1..][k - 1..] {}
    forall k | 0 <= k < |str| && GlobMatches(glob[1..], str[1..][k..]) ensures GlobMatches(glob, str) {
      assert str[1..][k..] == str[k + 1..] && Fits('*', str[..k + 1]);
    }
    forall k | 0 < k <= |str| && GlobMatches(glob[1..], str[k..]) ensures GlobMatches(glob, str[1..]) {
      assert str[1..][k - 1..] == str[k..] && Fits('*', str[1..][..k - 1]);
    }
  }

  // ----- Filters -----

  /** Some pattern of the ':'-separated list matches the whole name. */
  ghost predicate InFilter(name: string, filter: string) {
    SomeGlobMatches(FieldsOf(filter, ':'), name)
  }

  method MatchesFilter(name: string, filter: string) returns (matches: bool)
    ensures matches <==> InFilter(name, filter)
  {
    var cur := filter;
    ghost var tried: seq<string> := [];
    while true
      invariant FieldsOf(filter, ':') == tried + FieldsOf(cur, ':')
      invariant forall p <- tried :: !GlobMatches(p, name)
      decreases |cur|
    {
      MatcherDecidesGlob(cur, name);
      FirstPattern(cur);
      ghost var rest := FieldsOf(cur, ':')[1..];
      assert FieldsOf(cur, ':') == [UpToColon(cur)] + rest;
      if PatternMatchesString(cur, name) {
        assert UpToColon(cur) in FieldsOf(filter, ':');
        return true;
      }
      if ':' !in cur {
        assert rest == [];
        return false;
      }
      tried := tried + [UpToColon(cur)];
      cur := cur[FirstIn(cur, ':') + 1..];
      assert FieldsOf(filter, ':') == tried + rest;
    }
  }

  lemma FirstPattern(cur: string)
    ensures FieldsOf(cur, ':')[0] == UpToColon(cur)
    ensures if ':' in cur then FieldsOf(cur, ':')[1..] == FieldsOf(cur[FirstIn(cur, ':') + 1..], ':')
            else |FieldsOf(cur, ':')| == 1
  {
    UpToColonIs(cur);
    var fields := FieldsOf(cur, ':');
    FirstField(fields, cur, ':');
    if ':' in cur {
      var i := FirstIn(cur, ':');
      assert |fields| == 1 ==> cur in fields;
      var n := |fields[0]|;
      assert forall k | 0 <= k < n :: cur[k] == fields[0][k] && fields[0][k] in fields[0];
      assert n == i;
      FieldsUnique(fields[1..], FieldsOf(cur[i + 1..], ':'), cur[i + 1..], ':');
    }
  }

  lemma {:induction false} UpToColonIs(s: string)
    ensures UpToColon(s) == if ':' in s then s[..FirstIn(s, ':')] else s
  {
    if s != "" && s[0] != ':' {
      UpToColonIs(s[1..]);
      assert s == [s[0]] + s[1..];
    }
  }

  const UNIVERSAL_FILTER := "*"

  /** The positive and the negative list of a filter flag. */
  function Split(flag: string): (string, string) {
    if '-' !in flag then (flag, "")
    else
      var dash := FirstIn(flag, '-');
      (if dash == 0 then UNIVERSAL_FILTER else flag[..dash], flag[dash + 1..])
  }

  ghost predicate Selects(flag: string, testCase: string, test: string) {
    var name := testCase + "." + test;
    InFilter(name, Split(flag).0) && !InFilter(name, Split(flag).1)
  }

  method FilterMatchesTest(flag: string, testCase: string, test: string) returns (selected: bool)
    ensures selected <==> Selects(flag, testCase, test)
  {
    var name := testCase + "." + test;
    var positive, negative;
    if '-' !in flag {
      positive, negative := flag, "";
    } else {
      var dash := FirstIn(flag, '-');
      positive, negative := flag[..dash], flag[dash + 1..];
      if positive == "" {
        positive := UNIVERSAL_FILTER;
      }
    }
    var inPositive := MatchesFilter(name, positive);
    var inNegative := false;
    if inPositive {
      inNegative := MatchesFilter(name, negative);
    }
    selected := inPositive && !inNegative;
  }

  /** An absent or empty negative list excludes nothing. */
  lemma NoNegativeExcludesNothing(flag: string, testCase: string, test: string)
    requires Split(flag).1 == ""
    ensures Selects(flag, testCase, test) <==> InFilter(testCase + "." + test, Split(flag).0)
  {
    OnlyEmptyPattern(testCase + "." + test);
  }

  lemma OnlyEmptyPattern(name: string)
    ensures InFilter(name, "") <==> name == ""
  {
    FieldsUnique(FieldsOf("", ':'), [""], "", ':');
    GlobEmpty(name);
    assert forall p <- [""] :: p == "";
    assert "" in [""];
  }

  /** The first '-' of a filter ends its positive list, which stands for "*" if empty; the rest is its negative list. */
  lemma PositiveMinusNegative(positive: string, negative: string, testCase: string, test: string)
    requires '-' !in positive
    ensures var name := testCase + "." + test;
            Selects(positive + "-" + negative, testCase, test) <==>
              InFilter(name, if positive == "" then "*" else positive) && !InFilter(name, negative)
  {
    var flag := positive + "-" + negative;
    assert flag[|positive|] == '-';
    assert flag[..|positive|] == positive && flag[|positive| + 1..] == negative;
  }

  /** And a filter without '-' is all positive. */
  lemma PositiveOnly(flag: string, testCase: string, test: string)
    requires '-' !in flag
    ensures Selects(flag, testCase, test) <==> InFilter(testCase + "." + test, flag)
  {
    NoNegativeExcludesNothing(flag, testCase, test);
  }

  /** A filter that starts with '-' selects everything its negative list does not name. */
  lemma LeadingDashSelectsTheRest(flag: string, testCase: string, test: string)
    requires flag != "" && flag[0] == '-'
    ensures Selects(flag, testCase, test) <==> !InFilter(testCase + "." + test, flag[1..])
  {
    StarMatchesAll(testCase + "." + test);
  }

  lemma StarMatchesAll(name: string)
    ensures InFilter(name, UNIVERSAL_FILTER)
  {
    FieldsUnique(FieldsOf("*", ':'), ["*"], "*", ':');
    assert Concat([name]) == name + Concat([name][1..]);
    assert IsSplit([name], "*", name);
    assert "*" in ["*"];
  }

  /** None of the characters that mean something in a filter. */
  predicate IsPlain(name: string) {
    forall i :: 0 <= i < |name| ==> name[i] !in {'*', '?', ':', '-'}
  }

  lemma {:induction false} PlainGlob(pattern: string, str: string)
    requires IsPlain(pattern)
    ensures GlobMatches(pattern, str) <==> str == pattern
  {
    if pattern == "" {
      GlobEmpty(str);
    } else {
      GlobCons(pattern, str);
      if str != "" {
        PlainGlob(pattern[1..], str[1..]);
        assert str[..1] == [str[0]] && (str == pattern <==> str[0] == pattern[0] && str[1..] == pattern[1..]);
      }
    }
  }

  lemma LoneStar(str: string)
    ensures GlobMatches("*", str)
  {
    GlobCons("*", str);
    assert str[|str|..] == "" && Fits('*', str[..|str|]);
    GlobEmpty("");
    assert "*"[1..] == "";
  }

  /** A plain text and '*': what begins with the text. */
  lemma {:induction false} TextThenStar(text: string, str: string)
    requires IsPlain(text)
    ensures GlobMatches(text + "*", str) <==> text <= str
  {
    if text == "" {
      assert text + "*" == "*";
      LoneStar(str);
    } else {
      GlobCons(text + "*", str);
      assert (text + "*")[1..] == text[1..] + "*";
      if str != "" {
        TextThenStar(text[1..], str[1..]);
        assert str[..1] == [str[0]];
        assert text <= str <==> text[0] == str[0] && text[1..] <= str[1..];
      }
    }
  }

  /** '*' and a pattern: what has an end that the pattern matches. */
  lemma StarThen(pattern: string, str: string)
    ensures GlobMatches("*" + pattern, str) <==> exists k :: 0 <= k <= |str| && GlobMatches(pattern, str[k..])
  {
    GlobCons("*" + pattern, str);
    assert ("*" + pattern)[1..] == pattern;
    forall k | 0 <= k <= |str| && GlobMatches(pattern, str[k..]) ensures GlobMatches("*" + pattern, str) {
      assert Fits('*', str[..k]);
    }
  }

  predicate EndsIn(str: string, text: string) { |text| <= |str| && str[|str| - |text|..] == text }

  predicate Contains(str: string, text: string) { exists k :: 0 <= k <= |str| && text <= str[k..] }

  /** '*' and a plain text: what ends in the text. */
  lemma StarThenText(text: string, str: string)
    requires IsPlain(text)
    ensures GlobMatches("*" + text, str) <==> EndsIn(str, text)
  {
    StarThen(text, str);
    forall k | 0 <= k <= |str| ensures GlobMatches(text, str[k..]) <==> str[k..] == text {
      PlainGlob(text, str[k..]);
    }
  }

  /** A plain text between two stars: what contains the text. */
  lemma StarTextStar(text: string, str: string)
    requires IsPlain(text)
    ensures GlobMatches("*" + (text + "*"), str) <==> Contains(str, text)
  {
    StarThen(text + "*", str);
    forall k | 0 <= k <= |str| ensures GlobMatches(text + "*", str[k..]) <==> text <= str[k..] {
      TextThenStar(text, str[k..]);
    }
  }

  lemma TwoPatterns(first: string, second: string, name: string)
    requires ':' !in first && ':' !in second
    ensures InFilter(name, first + ":" + second) <==> GlobMatches(first, name) || GlobMatches(second, name)
  {
    var patterns, filter := [first, second], first + ":" + second;
    assert patterns[1..] == [second] && Join(patterns, ':') == filter;
    FieldsUnique(FieldsOf(filter, ':'), patterns, filter, ':');
    assert patterns[0] in patterns && patterns[1] in patterns;
  }

  /** A plain name as a filter selects just the tests of that full name. */
  lemma PlainFilter(name: string, testCase: string, test: string)
    requires IsPlain(name)
    ensures Selects(name, testCase, test) <==> testCase + "." + test == name
  {
    assert forall ch <- name :: ch !in {'*', '?', ':', '-'};
    FieldsUnique(FieldsOf(name, ':'), [name], name, ':');
    PlainGlob(name, testCase + "." + test);
    assert name in [name] && forall p <- [name] :: p == name;
    NoNegativeExcludesNothing(name, testCase, test);
  }
}
