/**
 * The threadsafe style: the parent re-executes the program and tells it by a
 * flag which death test to run. Covers writing the flag, splitting and
 * parsing it in the child, and the factory that then lets only that death
 * test through.
 */
module DeathTestFlag {
  import opened Wrappers
  import opened Decimal
  import opened Fields
  import opened MachineIntegers

  // ----- Splitting -----

  /** std::string::find(delimiter, pos) */
  method Find(s: string, delimiter: char, pos: nat) returns (at: Option<nat>)
    requires pos <= |s|
    ensures at.None? ==> delimiter !in s[pos..]
    ensures at.Some? ==> pos <= at.value < |s| && s[at.value] == delimiter && delimiter !in s[pos..at.value]
  {
    for i := pos to |s|
      invariant delimiter !in s[pos..i]
    {
      if s[i] == delimiter { return Some(i); }
    }
    return None;
  }

  method SplitString(s: string, delimiter: char) returns (fields: seq<string>)
    ensures AreFieldsOf(fields, s, delimiter)
  {
    fields := [];
    var pos := 0;
    while true
      invariant 0 <= pos <= |s|
      invariant forall f <- fields :: delimiter !in f
      invariant fields == [] ==> pos == 0
      invariant fields != [] ==> pos > 0 && s[..pos] == Join(fields, delimiter) + [delimiter]
      decreases |s| - pos
    {
      var colon := Find(s, delimiter, pos);
      ghost var was := fields;
      if colon.None? {
        fields := fields + [s[pos..]];
        if was != [] {
          JoinAppend(was, s[pos..], delimiter);
          assert s == s[..pos] + s[pos..];
        }
        return;
      }
      fields := fields + [s[pos..colon.value]];
      if was != [] {
        JoinAppend(was, s[pos..colon.value], delimiter);
      }
      pos := colon.value + 1;
    }
  }

  // ----- Natural numbers -----

  /** static_cast<int> of an unsigned 64-bit value. */
  function Narrowed(v: nat): int {
    var low := v % TWO_32;
    if low < TWO_31 then low else low - TWO_32
  }

  /** static_cast<unsigned long long> of an int. */
  function Widened(i: int): int { if i < 0 then i + TWO_64 else i }

  /** ParseNaturalNumber<int>; None where it returns false and leaves *number alone. */
  function ParseNaturalNumber(s: string): Option<int> {
    if s == "" || !IsDigit(s[0]) then None
    else if !AllDigits(s) then None          // *end != '\0'
    else if Value(s) >= TWO_64 then None     // errno == ERANGE
    else if Widened(Narrowed(Value(s))) == Value(s) then Some(Narrowed(Value(s)))
    else None
  }

  /**
   * ParseNaturalNumber accepts exactly the digit strings whose value survives
   * the narrowing to int: those below 2^31, read as themselves, and those
   * among the last 2^31 of the 64-bit range, read as negative numbers.
   */
  lemma WhatParseNaturalNumberAccepts(s: string)
    ensures ParseNaturalNumber(s).Some? <==>
            s != "" && AllDigits(s) && (Value(s) < 0x8000_0000 || 0xFFFF_FFFF_8000_0000 <= Value(s) < 0x1_0000_0000_0000_0000)
    ensures s != "" && AllDigits(s) && Value(s) < 0x8000_0000 ==> ParseNaturalNumber(s) == Some(Value(s))
    ensures s != "" && AllDigits(s) && 0xFFFF_FFFF_8000_0000 <= Value(s) < 0x1_0000_0000_0000_0000 ==>
            ParseNaturalNumber(s) == Some(Value(s) - 0x1_0000_0000_0000_0000)
  {
    if s != "" && AllDigits(s) && Value(s) < TWO_64 {
      NarrowingSurvived(Value(s));
    }
  }

  lemma NarrowingSurvived(v: nat)
    requires v < TWO_64
    ensures Widened(Narrowed(v)) == v <==> v < TWO_31 || v >= TWO_64 - TWO_31
    ensures v < TWO_31 ==> Narrowed(v) == v
    ensures v >= TWO_64 - TWO_31 ==> Narrowed(v) == v - TWO_64
  {
    var high := v / TWO_32;
    assert v == high * TWO_32 + v % TWO_32;
    if v >= TWO_64 - TWO_31 {
      assert high == TWO_32 - 1;
    }
  }

  /** A number that is not natural comes back from a string of digits. */
  lemma NotAlwaysNatural()
    ensures ParseNaturalNumber(Numeral(0xFFFF_FFFF_FFFF_FFFF)) == Some(-1)
  {
    WhatParseNaturalNumberAccepts(Numeral(0xFFFF_FFFF_FFFF_FFFF));
  }

  // ----- The flag -----

  datatype Flag = NoFlag | BadFlag | Flag(file: string, line: int, index: int, writeFd: int)

  /** The value ExecDeathTest::AssumeRole gives the child's flag. */
  function FlagValue(file: string, line: nat, index: nat, writeFd: nat): string {
    file + "|" + Numeral(line) + "|" + Numeral(index) + "|" + Numeral(writeFd)
  }

  /** What the child makes of the fields. */
  function FlagOf(fields: seq<string>): Flag {
    if |fields| != 4 then BadFlag else
    match (ParseNaturalNumber(fields[1]), ParseNaturalNumber(fields[2]), ParseNaturalNumber(fields[3]))
    case (Some(line), Some(index), Some(writeFd)) => Flag(fields[0], line, index, writeFd)
    case _ => BadFlag
  }

  /** ParseInternalRunDeathTestFlag; BadFlag stands for DeathTestAbort. */
  method ParseInternalRunDeathTestFlag(value: string) returns (flag: Flag)
    ensures flag == if value == "" then NoFlag else FlagOf(FieldsOf(value, '|'))
  {
    if value == "" { return NoFlag; }
    var fields := SplitString(value, '|');
    FieldsUnique(fields, FieldsOf(value, '|'), value, '|');
    if |fields| != 4 { return BadFlag; }
    var line := ParseNaturalNumber(fields[1]);
    var index := ParseNaturalNumber(fields[2]);
    var writeFd := ParseNaturalNumber(fields[3]);
    if line.None? || index.None? || writeFd.None? { return BadFlag; }
    flag := Flag(fields[0], line.value, index.value, writeFd.value);
  }

  /**
   * The child reads back exactly what its parent wrote, for all natural ints,
   * exactly when the file name has no '|'; otherwise it aborts.
   */
  lemma FlagRoundTrip(file: string, line: nat, index: nat, writeFd: nat)
    requires line < TWO_31 && index < TWO_31 && writeFd < TWO_31
    ensures FlagOf(FieldsOf(FlagValue(file, line, index, writeFd), '|')) ==
            if '|' !in file then Flag(file, line, index, writeFd) else BadFlag
  {
    var a, b, c := Numeral(line), Numeral(index), Numeral(writeFd);
    if '|' !in file {
      FourFields(file, a, b, c);
      WhatParseNaturalNumberAccepts(a);
      WhatParseNaturalNumberAccepts(b);
      WhatParseNaturalNumberAccepts(c);
    } else {
      TooManyFields(file, a, b, c);
    }
  }

  lemma JoinedThree(a: string, b: string, c: string)
    ensures Join([a, b, c], '|') == a + "|" + b + "|" + c
  {
    assert [a, b, c][1..] == [b, c] && [b, c][1..] == [c];
    assert Join([b, c], '|') == b + ['|'] + c;
  }

  lemma FourFields(file: string, a: string, b: string, c: string)
    requires forall f <- [file, a, b, c] :: '|' !in f
    ensures FieldsOf(file + "|" + a + "|" + b + "|" + c, '|') == [file, a, b, c]
  {
    var s, fields := file + "|" + a + "|" + b + "|" + c, [file, a, b, c];
    JoinedThree(a, b, c);
    assert fields[1..] == [a, b, c];
    assert Join(fields, '|') == s;
    FieldsUnique(fields, FieldsOf(s, '|'), s, '|');
  }

  lemma TooManyFields(file: string, a: string, b: string, c: string)
    requires '|' in file && forall f <- [a, b, c] :: '|' !in f
    ensures FlagOf(FieldsOf(file + "|" + a + "|" + b + "|" + c, '|')) == BadFlag
  {
    var s := file + "|" + a + "|" + b + "|" + c;
    JoinedThree(a, b, c);
    FieldCount(FieldsOf(s, '|'), '|');
    FieldCount([a, b, c], '|');
    CountZero(file, '|');
    CountAppend(file + "|", Join([a, b, c], '|'), '|');
    CountAppend(file, "|", '|');
    assert s == file + "|" + Join([a, b, c], '|');
  }

  // ----- The factory -----

  datatype Style = Threadsafe | Fast | UnknownStyle

  datatype Creation = Failed | Skipped | CreatedExec | CreatedNoExec

  /** A place in the sources, as __FILE__ and __LINE__ give it. */
  datatype Site = Site(file: string, line: int)

  /** What Create answers at the `index`-th death test of the running test. */
  function CreationAt(flag: Flag, index: nat, site: Site, style: Style): Creation {
    if flag.Flag? && index > flag.index then Failed
    else if flag.Flag? && !(flag.file == site.file && flag.line == site.line && flag.index == index) then Skipped
    else match style
      case Threadsafe => CreatedExec
      case Fast => CreatedNoExec
      case UnknownStyle => Failed
  }

  /** Whether the factory is to create this death test: always in a parent, and in a child the one its flag names. */
  predicate IsWanted(flag: Flag, index: nat, site: Site) {
    flag.Flag? ==> flag.file == site.file && flag.line == site.line && flag.index == index
  }

  /** A wanted one is created in the style asked for; of the others those up to the flag's are skipped, and the later ones fail. */
  lemma WhatTheFactoryAnswers(flag: Flag, index: nat, site: Site, style: Style)
    ensures var creation := CreationAt(flag, index, site, style);
            && (creation == CreatedExec <==> IsWanted(flag, index, site) && style == Threadsafe)
            && (creation == CreatedNoExec <==> IsWanted(flag, index, site) && style == Fast)
            && (creation == Skipped <==> !IsWanted(flag, index, site) && index <= flag.index)
  {
  }

  /** The part of TestResult that counts death tests, and the factory that advances it. */
  class CurrentTest {
    var deathTestCount: nat

    constructor ()
      ensures deathTestCount == 0
    {
      deathTestCount := 0;
    }

    /** DefaultDeathTestFactory::Create */
    method Create(flag: Flag, site: Site, style: Style) returns (creation: Creation)
      modifies this
      ensures deathTestCount == old(deathTestCount) + 1
      ensures creation == CreationAt(flag, deathTestCount, site, style)
    {
      deathTestCount := deathTestCount + 1;
      if flag.Flag? {
        if deathTestCount > flag.index {
          return Failed;
        }
        if !(flag.file == site.file && flag.line == site.line && flag.index == deathTestCount) {
          return Skipped;
        }
      }
      if style == Threadsafe {
        creation := CreatedExec;
      } else if style == Fast {
        creation := CreatedNoExec;
      } else {
        creation := Failed;
      }
    }

    /** What ExecDeathTest::AssumeRole in the parent passes on after Create: text that the child reads as this death test. */
    method ChildFlag(site: Site, writeFd: nat) returns (value: string)
      requires 0 <= site.line < TWO_31 && writeFd < TWO_31 && deathTestCount < TWO_31
      ensures value != "" && value == FlagValue(site.file, site.line, deathTestCount, writeFd)
      ensures FlagOf(FieldsOf(value, '|')) ==
              if '|' !in site.file then Flag(site.file, site.line, deathTestCount, writeFd) else BadFlag
    {
      value := FlagValue(site.file, site.line, deathTestCount, writeFd);
      FlagRoundTrip(site.file, site.line, deathTestCount, writeFd);
    }

    /** A test body reaches its death tests, at these places, one after the other. */
    method Reach(flag: Flag, sites: seq<Site>, style: Style) returns (answers: seq<Creation>)
      requires deathTestCount == 0
      modifies this
      ensures deathTestCount == |sites| && answers == Creations(flag, sites, style)
    {
      answers := [];
      for i := 0 to |sites|
        invariant deathTestCount == i && answers == Creations(flag, sites[..i], style)
      {
        var answer := Create(flag, sites[i], style);
        answers := answers + [answer];
        assert answers == Creations(flag, sites[..i + 1], style);
      }
      assert sites[..|sites|] == sites;
    }
  }

  /** The answers a test gets whose death tests stand at `sites`, in the order they are reached. */
  function Creations(flag: Flag, sites: seq<Site>, style: Style): (answers: seq<Creation>)
    ensures |answers| == |sites|
  {
    seq(|sites|, i requires 0 <= i < |sites| => CreationAt(flag, i + 1, sites[i], style))
  }

  /**
   * Re-execution reaches the death test its parent meant and no other: the
   * child parses the flag its parent wrote at the k-th death test, skips every
   * earlier one, executes the k-th, and would fail at any later one.
   */
  lemma ChildRunsTheIntendedTest(sites: seq<Site>, k: nat, writeFd: nat)
    requires 1 <= k <= |sites| && k < TWO_31 && writeFd < TWO_31
    requires '|' !in sites[k - 1].file && 0 <= sites[k - 1].line < TWO_31
    ensures var here := sites[k - 1];
            var flag := FlagOf(FieldsOf(FlagValue(here.file, here.line, k, writeFd), '|'));
            var answers := Creations(flag, sites, Threadsafe);
            && flag.Flag? && flag.writeFd == writeFd
            && (forall i :: 0 <= i < k - 1 ==> answers[i] == Skipped)
            && answers[k - 1] == CreatedExec
            && (forall i :: k <= i < |sites| ==> answers[i] == Failed)
  {
    FlagRoundTrip(sites[k - 1].file, sites[k - 1].line, k, writeFd);
  }

  /**
   * The parent comes to its k-th death test and writes the flag; the child
   * parses it and comes through the same body. It aborts at once exactly when
   * the file name has a '|'; otherwise only the k-th death test is created.
   */
  method ReExecute(sites: seq<Site>, k: nat, writeFd: nat) returns (flag: Flag, answers: seq<Creation>)
    requires 1 <= k <= |sites| && k < TWO_31 && writeFd < TWO_31 && 0 <= sites[k - 1].line < TWO_31
    ensures var here := sites[k - 1];
            if '|' in here.file then flag == BadFlag && answers == [] else
            && flag == Flag(here.file, here.line, k, writeFd) && |answers| == |sites|
            && forall i :: 0 <= i < |sites| ==>
                 answers[i] == if i < k - 1 then Skipped else if i == k - 1 then CreatedExec else Failed
  {
    var parent := new CurrentTest();
    var reached := parent.Reach(NoFlag, sites[..k], Threadsafe);
    assert reached[k - 1] == CreatedExec;
    var value := parent.ChildFlag(sites[k - 1], writeFd);
    flag := ParseInternalRunDeathTestFlag(value);
    if flag == BadFlag {
      return flag, [];
    }
    var child := new CurrentTest();
    answers := child.Reach(flag, sites, Threadsafe);
    ChildRunsTheIntendedTest(sites, k, writeFd);
  }
}
