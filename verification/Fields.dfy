/** Strings as fields separated by a delimiter character. */
module Fields {
  function Join(fields: seq<string>, delimiter: char): string
    requires fields != []
  {
    if |fields| == 1 then fields[0] else fields[0] + [delimiter] + Join(fields[1..], delimiter)
  }

  /** The fields of `s`: joined again they give `s`, and none contains the delimiter. */
  ghost predicate AreFieldsOf(fields: seq<string>, s: string, delimiter: char) {
    fields != [] && Join(fields, delimiter) == s && forall f <- fields :: delimiter !in f
  }

  lemma {:induction false} FieldsUnique(f: seq<string>, g: seq<string>, s: string, delimiter: char)
    requires AreFieldsOf(f, s, delimiter) && AreFieldsOf(g, s, delimiter)
    ensures f == g
    decreases |f|
  {
    FirstField(f, s, delimiter);
    FirstField(g, s, delimiter);
    var a := |f[0]|;
    FirstNotLonger(f, g, s, delimiter);
    FirstNotLonger(g, f, s, delimiter);
    assert f[0] == s[..a] == g[0];
    if |f| > 1 && |g| > 1 {
      FieldsUnique(f[1..], g[1..], s[a + 1..], delimiter);
    }
    assert f == [f[0]] + f[1..] && g == [g[0]] + g[1..];
  }

  lemma FirstNotLonger(f: seq<string>, g: seq<string>, s: string, delimiter: char)
    requires AreFieldsOf(f, s, delimiter) && AreFieldsOf(g, s, delimiter)
    ensures |g[0]| <= |f[0]|
  {
    FirstField(f, s, delimiter);
    FirstField(g, s, delimiter);
    assert forall i | 0 <= i < |g[0]| :: s[i] == g[0][i] && g[0][i] in g[0];
  }

  lemma FirstField(fields: seq<string>, s: string, delimiter: char)
    requires AreFieldsOf(fields, s, delimiter)
    ensures var n := |fields[0]|;
            if |fields| == 1 then s == fields[0]
            else n < |s| && s[..n] == fields[0] && s[n] == delimiter && AreFieldsOf(fields[1..], s[n + 1..], delimiter)
  {
  }

  lemma {:induction false} JoinAppend(fields: seq<string>, last: string, delimiter: char)
    requires fields != []
    ensures Join(fields + [last], delimiter) == Join(fields, delimiter) + [delimiter] + last
  {
    if |fields| == 1 {
      assert (fields + [last])[1..] == [last];
    } else {
      assert (fields + [last])[1..] == fields[1..] + [last];
      JoinAppend(fields[1..], last, delimiter);
    }
  }

  ghost function FieldsOf(s: string, delimiter: char): (fields: seq<string>)
    ensures AreFieldsOf(fields, s, delimiter)
  {
    FieldsExist(s, delimiter);
    var fields :| AreFieldsOf(fields, s, delimiter);
    fields
  }

  lemma {:induction false} FieldsExist(s: string, delimiter: char)
    ensures exists fields :: AreFieldsOf(fields, s, delimiter)
  {
    if delimiter in s {
      var i := FirstIn(s, delimiter);
      FieldsExist(s[i + 1..], delimiter);
      var rest :| AreFieldsOf(rest, s[i + 1..], delimiter);
      var fields := [s[..i]] + rest;
      assert fields[1..] == rest;
      assert s == s[..i] + [delimiter] + s[i + 1..];
      assert AreFieldsOf(fields, s, delimiter);
    } else {
      assert AreFieldsOf([s], s, delimiter);
    }
  }

  function FirstIn(s: string, ch: char): (i: nat)
    requires ch in s
    ensures i < |s| && s[i] == ch && ch !in s[..i]
  {
    if s[0] == ch then 0 else
    var i := FirstIn(s[1..], ch);
    assert s[..i + 1] == [s[0]] + s[1..][..i];
    i + 1
  }

  function Count(s: string, ch: char): nat {
    if s == "" then 0 else (if s[0] == ch then 1 else 0) + Count(s[1..], ch)
  }

  lemma {:induction false} CountAppend(s: string, t: string, ch: char)
    ensures Count(s + t, ch) == Count(s, ch) + Count(t, ch)
  {
    if s == "" {
      assert s + t == t;
    } else {
      assert (s + t)[1..] == s[1..] + t;
      CountAppend(s[1..], t, ch);
    }
  }

  lemma {:induction false} CountZero(s: string, ch: char)
    ensures Count(s, ch) == 0 <==> ch !in s
  {
    if s != "" {
      CountZero(s[1..], ch);
      assert s == [s[0]] + s[1..];
    }
  }

  lemma {:induction false} FieldCount(fields: seq<string>, delimiter: char)
    requires fields != [] && forall f <- fields :: delimiter !in f
    ensures Count(Join(fields, delimiter), delimiter) == |fields| - 1
  {
    CountZero(fields[0], delimiter);
    if |fields| > 1 {
      FieldCount(fields[1..], delimiter);
      CountAppend(fields[0], [delimiter] + Join(fields[1..], delimiter), delimiter);
      assert fields[0] + [delimiter] + Join(fields[1..], delimiter) == fields[0] + ([delimiter] + Join(fields[1..], delimiter));
    }
  }
}
