/**
 * FilePath on a POSIX system: normalized path names, the candidate names for
 * an output file, and the search for one that does not exist yet.
 */
module FilePath {
  import opened Collections
  import opened Decimal

  const SEP := '/'
  const CURRENT_DIRECTORY := "./"

  /** Runs of separators shortened to one. */
  function Collapsed(s: string): string {
    if |s| < 2 then s
    else if s[0] == SEP && s[1] == SEP then Collapsed(s[1..])
    else [s[0]] + Collapsed(s[1..])
  }

  predicate IsNormal(s: string) {
    forall i :: 0 <= i < |s| - 1 ==> !(s[i] == SEP && s[i + 1] == SEP)
  }

  /** The value of a FilePath object. */
  type Path = s: string | IsNormal(s)

  /** FilePath::Normalize, copying through two moving pointers into a zeroed buffer. */
  method Normalize(pathname: string) returns (normal: Path)
    ensures normal == Collapsed(pathname)
  {
    var dest := new char[|pathname| + 1](_ => '\0');
    var src, at := 0, 0;
    ghost var copied := "";
    while src < |pathname|
      invariant 0 <= at <= src <= |pathname|
      invariant dest[..at] == copied
      invariant copied + Collapsed(pathname[src..]) == Collapsed(pathname)
    {
      dest[at] := pathname[src];
      ghost var from := src;
      if pathname[src] != SEP {
        src := src + 1;
      } else {
        src := SkipSeparators(pathname, src);
      }
      at := at + 1;
      TurnCopies(pathname, from, src, copied);
      copied := copied + [pathname[from]];
    }
    CollapsedIsNormal(pathname);
    assert pathname[src..] == "";
    assert copied == Collapsed(pathname);
    dest[at] := '\0';
    normal := dest[..at];
  }

  /** The inner loop of Normalize. */
  method SkipSeparators(pathname: string, from: nat) returns (src: nat)
    requires from < |pathname| && pathname[from] == SEP
    ensures from < src <= |pathname| && (forall i :: from <= i < src ==> pathname[i] == SEP)
    ensures src < |pathname| ==> pathname[src] != SEP
  {
    src := from;
    while src < |pathname| && pathname[src] == SEP
      invariant from <= src <= |pathname| && forall i :: from <= i < src ==> pathname[i] == SEP
    {
      src := src + 1;
    }
  }

  /** One turn of the loop: a single character, or a whole run of separators, gives one character. */
  lemma {:induction false} StepCollapses(s: string, from: nat, upTo: nat)
    requires from < upTo <= |s|
    requires if s[from] != SEP then upTo == from + 1
             else (forall i :: from <= i < upTo ==> s[i] == SEP) && (upTo < |s| ==> s[upTo] != SEP)
    ensures Collapsed(s[from..]) == [s[from]] + Collapsed(s[upTo..])
    decreases upTo - from
  {
    assert s[from..][1..] == s[from + 1..];
    if upTo > from + 1 {
      StepCollapses(s, from + 1, upTo);
    }
  }

  lemma TurnCopies(s: string, from: nat, upTo: nat, copied: string)
    requires from < upTo <= |s|
    requires if s[from] != SEP then upTo == from + 1
             else (forall i :: from <= i < upTo ==> s[i] == SEP) && (upTo < |s| ==> s[upTo] != SEP)
    ensures (copied + [s[from]]) + Collapsed(s[upTo..]) == copied + Collapsed(s[from..])
  {
    StepCollapses(s, from, upTo);
  }

  lemma {:induction false} CollapsedIsNormal(s: string)
    ensures IsNormal(Collapsed(s)) && (s != "" ==> Collapsed(s) != "" && Collapsed(s)[0] == s[0])
  {
    if |s| >= 2 {
      CollapsedIsNormal(s[1..]);
    }
  }

  lemma {:induction false} NormalStays(s: string)
    requires IsNormal(s)
    ensures Collapsed(s) == s
  {
    if |s| >= 2 {
      assert s[0] == SEP ==> s[0 + 1] != SEP;
      NormalStays(s[1..]);
    }
  }

  /** The names between the separators. */
  function Components(s: string): seq<string> {
    ComponentsFrom("", s)
  }

  function ComponentsFrom(name: string, s: string): seq<string>
    decreases |s|
  {
    if s == "" then if name == "" then [] else [name]
    else if s[0] == SEP then (if name == "" then [] else [name]) + ComponentsFrom("", s[1..])
    else ComponentsFrom(name + [s[0]], s[1..])
  }

  lemma {:induction false} CollapsedComponents(name: string, s: string)
    ensures ComponentsFrom(name, Collapsed(s)) == ComponentsFrom(name, s)
    decreases |s|
  {
    if |s| >= 2 {
      if s[0] == SEP && s[1] == SEP {
        assert s[1..][0] == SEP && s[1..][1..] == s[2..];
        CollapsedComponents(name, s[1..]);
        assert ComponentsFrom("", s[1..]) == ComponentsFrom("", s[2..]);
      } else {
        CollapsedComponents(if s[0] == SEP then "" else name + [s[0]], s[1..]);
        assert Collapsed(s)[1..] == Collapsed(s[1..]);
      }
    }
  }

  lemma {:induction false} CollapsedLast(s: string)
    requires s != ""
    ensures Collapsed(s) != "" && s[|s| - 1] == Collapsed(s)[|Collapsed(s)| - 1]
  {
    if |s| >= 2 { CollapsedLast(s[1..]); }
  }

  /** Normalizing gives a normal name with the same components that is as absolute, and as much a directory. */
  lemma NormalizeKeepsMeaning(s: string)
    ensures IsNormal(Collapsed(s)) && Collapsed(Collapsed(s)) == Collapsed(s)
    ensures Components(Collapsed(s)) == Components(s)
    ensures s != "" ==> Collapsed(s) != "" && Collapsed(s)[0] == s[0] && Collapsed(s)[|Collapsed(s)| - 1] == s[|s| - 1]
  {
    CollapsedIsNormal(s);
    NormalStays(Collapsed(s));
    CollapsedComponents("", s);
    if s != "" { CollapsedLast(s); }
  }

  // ----- Deriving names -----

  predicate IsDirectory(p: string) { p != "" && p[|p| - 1] == SEP }

  function WithoutTrailingSeparator(p: Path): (q: Path) {
    if IsDirectory(p) then p[..|p| - 1] else p
  }

  /** The index just after the last separator; 0 if there is none. */
  function AfterLastSeparator(p: string): (n: nat)
    ensures n <= |p| && (n > 0 ==> p[n - 1] == SEP) && forall i :: n <= i < |p| ==> p[i] != SEP
  {
    if p == "" then 0 else if p[|p| - 1] == SEP then |p| else AfterLastSeparator(p[..|p| - 1])
  }

  /** RemoveFileName */
  function DirectoryPart(p: Path): (q: Path)
    ensures IsDirectory(q)
  {
    if AfterLastSeparator(p) > 0 then p[..AfterLastSeparator(p)] else CURRENT_DIRECTORY
  }

  function ConcatPaths(directory: Path, relative: Path): (p: Path) {
    if directory == "" then relative else
    var joined := WithoutTrailingSeparator(directory) + [SEP] + relative;
    CollapsedIsNormal(joined);
    Collapsed(joined)
  }

  /** RemoveFileName takes off exactly what follows the last separator. */
  lemma DirectoryPartCuts(p: Path)
    ensures if SEP in p then DirectoryPart(p) <= p && SEP !in p[|DirectoryPart(p)|..] else DirectoryPart(p) == CURRENT_DIRECTORY
  {
    var n := AfterLastSeparator(p);
    assert n > 0 ==> p[n - 1] in p;
    if SEP in p {
      var i :| 0 <= i < |p| && p[i] == SEP;
      assert n > i;
    }
  }

  /** It is "./" exactly for a bare name and for a name right below "./". */
  lemma DirectoryPartIsHere(p: Path)
    ensures DirectoryPart(p) == CURRENT_DIRECTORY <==> SEP !in p || (CURRENT_DIRECTORY <= p && SEP !in p[2..])
  {
    DirectoryPartCuts(p);
    if CURRENT_DIRECTORY <= p {
      assert p[1] in p;
      var n := |DirectoryPart(p)|;
      if n > 2 {
        assert p[n - 1] == SEP && p[2..][n - 3] == SEP;
      }
    }
  }

  /** In particular not for "/a_file". */
  lemma RemoveFileNameExample()
    ensures DirectoryPart("/a_file") == "/" != CURRENT_DIRECTORY
  {
    var p := "/a_file";
    DirectoryPartCuts(p);
    assert p[0] in p;
    assert p[|DirectoryPart(p)| - 1] == SEP;
    assert forall i :: 0 < i < |p| ==> p[i] != SEP;
    assert p[..1] == "/";
  }

  lemma {:induction false} ComponentsSplit(name: string, s: string, t: string)
    ensures ComponentsFrom(name, s + [SEP] + t) == ComponentsFrom(name, s) + Components(t)
    decreases |s|
  {
    var all := s + [SEP] + t;
    if s == "" {
      assert all[1..] == t;
    } else {
      var s' := if s[0] == SEP then "" else name + [s[0]];
      assert all[1..] == s[1..] + [SEP] + t;
      ComponentsSplit(s', s[1..], t);
    }
  }

  lemma {:induction false} OneComponent(name: string, s: string)
    requires name + s != "" && SEP !in s
    ensures ComponentsFrom(name, s) == [name + s]
    decreases |s|
  {
    if s == "" {
      assert name + s == name;
    } else {
      assert name + [s[0]] + s[1..] == name + s;
      OneComponent(name + [s[0]], s[1..]);
    }
  }

  lemma TrailingSeparatorAddsNothing(p: Path)
    ensures Components(WithoutTrailingSeparator(p)) == Components(p)
  {
    if IsDirectory(p) {
      var q := WithoutTrailingSeparator(p);
      assert p == q + [SEP] + "";
      ComponentsSplit("", q, "");
    }
  }

  /** ConcatPaths names the relative path below the directory. */
  lemma ConcatPathsComponents(directory: Path, relative: Path)
    ensures Components(ConcatPaths(directory, relative)) == Components(directory) + Components(relative)
  {
    if directory != "" {
      ComponentsSplit("", WithoutTrailingSeparator(directory), relative);
      TrailingSeparatorAddsNothing(directory);
      CollapsedComponents("", WithoutTrailingSeparator(directory) + [SEP] + relative);
    }
  }

  /** And it begins as the directory does and ends as the relative path does, or in a separator if that is empty. */
  lemma ConcatPathsEnds(directory: Path, relative: Path)
    ensures var p := ConcatPaths(directory, relative);
            if directory == "" then p == relative else
            && p != "" && p[0] == directory[0]
            && p[|p| - 1] == if relative == "" then SEP else relative[|relative| - 1]
  {
    if directory != "" {
      var joined := WithoutTrailingSeparator(directory) + [SEP] + relative;
      CollapsedIsNormal(joined);
      CollapsedLast(joined);
    }
  }

  function NumberSuffix(number: nat): string {
    if number == 0 then "" else "_" + Numeral(number)
  }

  function FileName(baseName: Path, number: nat, extension: string): string {
    if number == 0 then baseName + "." + extension else baseName + "_" + Numeral(number) + "." + extension
  }

  function MakeFileName(directory: Path, baseName: Path, number: nat, extension: string): Path {
    CollapsedIsNormal(FileName(baseName, number, extension));
    ConcatPaths(directory, Collapsed(FileName(baseName, number, extension)))
  }

  /** MakeFileName names base.extension, or base_number.extension, in the directory. */
  lemma CandidateComponents(directory: Path, baseName: Path, number: nat, extension: string)
    ensures Components(MakeFileName(directory, baseName, number, extension)) ==
            Components(directory) +
            Components(if number == 0 then baseName + "." + extension else baseName + "_" + Numeral(number) + "." + extension)
  {
    var name := FileName(baseName, number, extension);
    CollapsedIsNormal(name);
    ConcatPathsComponents(directory, Collapsed(name));
    CollapsedComponents("", name);
  }

  /** Collapsing acts on the two sides of a boundary separately when no separator follows it. */
  lemma {:induction false} CollapsedConcat(s: string, t: string)
    requires t != "" && t[0] != SEP
    ensures Collapsed(s + t) == Collapsed(s) + Collapsed(t)
  {
    if s == "" {
      assert s + t == t;
    } else {
      assert (s + t)[1..] == s[1..] + t;
      CollapsedConcat(s[1..], t);
    }
  }

  predicate HasNoSeparator(s: string) { forall i :: 0 <= i < |s| ==> s[i] != SEP }

  lemma {:induction false} CollapsedWithoutSeparators(s: string, t: string)
    requires HasNoSeparator(s)
    ensures Collapsed(s + t) == s + Collapsed(t)
  {
    if s == "" {
      assert s + t == t;
    } else {
      assert (s + t)[1..] == s[1..] + t;
      CollapsedWithoutSeparators(s[1..], t);
      assert [s[0]] + (s[1..] + Collapsed(t)) == s + Collapsed(t);
    }
  }

  /** The part of a candidate name before the number. */
  function NamePrefix(directory: Path, baseName: Path): string {
    if directory == "" then baseName
    else Collapsed(WithoutTrailingSeparator(directory) + [SEP] + baseName)
  }

  lemma SuffixHasNoSeparators(number: nat)
    ensures HasNoSeparator(NumberSuffix(number) + ".")
  {
    var digits := Numeral(number);
    assert forall i :: 0 <= i < |digits| ==> digits[i] in digits && IsDigit(digits[i]);
  }

  lemma CollapsedAround(front: string, middle: string, rest: string)
    requires middle != "" && HasNoSeparator(middle)
    ensures Collapsed(front + (middle + rest)) == Collapsed(front) + (middle + Collapsed(rest))
  {
    CollapsedConcat(front, middle + rest);
    CollapsedWithoutSeparators(middle, rest);
  }

  lemma FileShape(baseName: Path, number: nat, extension: string)
    ensures Collapsed(FileName(baseName, number, extension)) == baseName + (NumberSuffix(number) + "." + Collapsed(extension))
  {
    var middle := NumberSuffix(number) + ".";
    assert FileName(baseName, number, extension) == baseName + (middle + extension);
    SuffixHasNoSeparators(number);
    CollapsedAround(baseName, middle, extension);
    NormalStays(baseName);
  }

  lemma InDirectory(front: string, name: string, middle: string, rest: Path)
    requires middle != "" && HasNoSeparator(middle)
    ensures Collapsed(front + (name + (middle + rest))) == Collapsed(front + name) + (middle + rest)
  {
    assert front + (name + (middle + rest)) == (front + name) + (middle + rest);
    CollapsedAround(front + name, middle, rest);
    NormalStays(rest);
  }

  /** However names are normalized, the number stands between a prefix and a tail that do not depend on it. */
  lemma CandidateShape(directory: Path, baseName: Path, number: nat, extension: string)
    ensures MakeFileName(directory, baseName, number, extension) ==
            NamePrefix(directory, baseName) + (NumberSuffix(number) + "." + Collapsed(extension))
  {
    FileShape(baseName, number, extension);
    if directory != "" {
      CollapsedIsNormal(extension);
      SuffixHasNoSeparators(number);
      InDirectory(WithoutTrailingSeparator(directory) + [SEP], baseName, NumberSuffix(number) + ".", Collapsed(extension));
    }
  }

  lemma SameMiddle(prefix: string, a: string, b: string, tail: string)
    requires prefix + (a + tail) == prefix + (b + tail)
    ensures a == b
  {
    var s := prefix + (a + tail);
    assert |a| == |b|;
    assert s[|prefix|..|prefix| + |a|] == a && s[|prefix|..|prefix| + |a|] == b;
  }

  lemma SuffixesDiffer(m: nat, n: nat)
    requires NumberSuffix(m) + "." == NumberSuffix(n) + "."
    ensures m == n
  {
    var a, b := NumberSuffix(m), NumberSuffix(n);
    assert a == (a + ".")[..|a|] && b == (b + ".")[..|b|];
    if m > 0 && n > 0 {
      assert Numeral(m) == a[1..] && Numeral(n) == b[1..];
    }
  }

  /** Different numbers give different candidates. */
  lemma CandidatesDiffer(directory: Path, baseName: Path, m: nat, n: nat, extension: string)
    requires MakeFileName(directory, baseName, m, extension) == MakeFileName(directory, baseName, n, extension)
    ensures m == n
  {
    CandidateShape(directory, baseName, m, extension);
    CandidateShape(directory, baseName, n, extension);
    SameMiddle(NamePrefix(directory, baseName), NumberSuffix(m) + ".", NumberSuffix(n) + ".", Collapsed(extension));
    SuffixesDiffer(m, n);
  }

  // ----- Searching -----

  /** The candidates numbered below `n`. */
  function Candidates(directory: Path, baseName: Path, extension: string, n: nat): (names: set<string>)
    ensures forall name <- names :: exists k :: 0 <= k < n && name == MakeFileName(directory, baseName, k, extension)
  {
    if n == 0 then {} else Candidates(directory, baseName, extension, n - 1) + {MakeFileName(directory, baseName, n - 1, extension)}
  }

  lemma {:induction false} CandidateCount(directory: Path, baseName: Path, extension: string, n: nat)
    ensures |Candidates(directory, baseName, extension, n)| == n
  {
    if n > 0 {
      CandidateCount(directory, baseName, extension, n - 1);
      var last := MakeFileName(directory, baseName, n - 1, extension);
      if last in Candidates(directory, baseName, extension, n - 1) {
        var k :| 0 <= k < n - 1 && last == MakeFileName(directory, baseName, k, extension);
        CandidatesDiffer(directory, baseName, k, n - 1, extension);
      }
    }
  }

  /**
   * FilePath::GenerateUniqueFileName over a file system in which finitely many
   * names exist: it ends, with the candidate of the smallest number that does not.
   */
  method GenerateUniqueFileName(existing: set<string>, directory: Path, baseName: Path, extension: string)
    returns (fullPathname: Path, ghost number: nat)
    ensures fullPathname == MakeFileName(directory, baseName, number, extension) && fullPathname !in existing
    ensures forall k :: 0 <= k < number ==> MakeFileName(directory, baseName, k, extension) in existing
    ensures number <= |existing|
  {
    var n := 0;
    NotMoreThan(existing, directory, baseName, 0, extension);
    while true
      invariant forall k :: 0 <= k < n ==> MakeFileName(directory, baseName, k, extension) in existing
      invariant n <= |existing|
      decreases |existing| - n
    {
      fullPathname := MakeFileName(directory, baseName, n, extension);
      number := n;
      n := n + 1;
      if fullPathname !in existing { break; }
      NotMoreThan(existing, directory, baseName, n, extension);
    }
  }

  /** Pigeonhole: if the first `n` candidates all exist, at least `n` names do. */
  lemma NotMoreThan(existing: set<string>, directory: Path, baseName: Path, n: nat, extension: string)
    requires forall k :: 0 <= k < n ==> MakeFileName(directory, baseName, k, extension) in existing
    ensures n <= |existing|
  {
    CandidateCount(directory, baseName, extension, n);
    assert Candidates(directory, baseName, extension, n) <= existing;
    SubsetSize(Candidates(directory, baseName, extension, n), existing);
  }
}
