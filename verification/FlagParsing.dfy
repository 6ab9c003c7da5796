/**
 * Command line flags: recognizing one, and taking the recognized ones out of
 * argv in place. An element of argv is a string, None for the closing NULL.
 */
module FlagParsing {
  import opened Wrappers
  import D = Decimal

  datatype Flag =
    | AlsoRunDisabledTests | BreakOnFailure | CatchExceptions | Color | DeathTestStyle | DeathTestUseFork
    | Filter | InternalRunDeathTest | ListTests | Output | PrintTime | RandomSeed | Repeat | Shuffle
    | StackTraceDepth | StreamResultTo | ThrowOnFailure

  datatype Kind = BoolFlag | Int32Flag | StringFlag

  datatype Value = Bool(b: bool) | Int32(n: int) | Text(s: string)

  /** The order in which an argument is tried for each flag. */
  const FLAGS: seq<Flag> := [
    AlsoRunDisabledTests, BreakOnFailure, CatchExceptions, Color, DeathTestStyle, DeathTestUseFork,
    Filter, InternalRunDeathTest, ListTests, Output, PrintTime, RandomSeed, Repeat, Shuffle,
    StackTraceDepth, StreamResultTo, ThrowOnFailure]

  function Name(flag: Flag): string {
    match flag
    case AlsoRunDisabledTests => "also_run_disabled_tests"
    case BreakOnFailure => "break_on_failure"
    case CatchExceptions => "catch_exceptions"
    case Color => "color"
    case DeathTestStyle => "death_test_style"
    case DeathTestUseFork => "death_test_use_fork"
    case Filter => "filter"
    case InternalRunDeathTest => "internal_run_death_test"
    case ListTests => "list_tests"
    case Output => "output"
    case PrintTime => "print_time"
    case RandomSeed => "random_seed"
    case Repeat => "repeat"
    case Shuffle => "shuffle"
    case StackTraceDepth => "stack_trace_depth"
    case StreamResultTo => "stream_result_to"
    case ThrowOnFailure => "throw_on_failure"
  }

  function KindOf(flag: Flag): Kind {
    match flag
    case Color | DeathTestStyle | Filter | InternalRunDeathTest | Output | StreamResultTo => StringFlag
    case RandomSeed | Repeat | StackTraceDepth => Int32Flag
    case _ => BoolFlag
  }

  const PREFIX := "--gtest_"

  // ----- One argument -----

  function ParseFlagValue(str: string, flag: string, defOptional: bool): Option<string> {
    var flagStr := PREFIX + flag;
    if !(flagStr <= str) then None else
    var flagEnd := str[|flagStr|..];
    if defOptional && flagEnd == "" then Some(flagEnd)
    else if flagEnd == "" || flagEnd[0] != '=' then None
    else Some(flagEnd[1..])
  }

  predicate IsTrue(value: string) { value == "" || (value[0] != '0' && value[0] != 'f' && value[0] != 'F') }

  const INT32_MAX: int := 0x7FFF_FFFF

  predicate IsSpace(ch: char) { ch == ' ' || '\t' <= ch <= '\r' }

  /** strtol to the end of the text, into a long of at least 64 bits; nothing at all is read as 0. */
  function ParseInt32(str: string): Option<int> {
    if str == "" then Some(0)
    else if IsSpace(str[0]) then if |str| == 1 then None else ParseInt32(str[1..])
    else
      var digits := if str[0] == '-' || str[0] == '+' then str[1..] else str;
      if digits == "" || !D.AllDigits(digits) then None else
      var n: int := if str[0] == '-' then 0 - D.Value(digits) else D.Value(digits);
      if -INT32_MAX - 1 <= n <= INT32_MAX then Some(n) else None
  }

  /** ParseBoolFlag, ParseInt32Flag or ParseStringFlag: the value to store, if the argument is this flag. */
  function ParsedAs(arg: string, flag: Flag): Option<Value> {
    match ParseFlagValue(arg, Name(flag), KindOf(flag) == BoolFlag)
    case None => None
    case Some(value) =>
      match KindOf(flag)
      case BoolFlag => Some(Bool(IsTrue(value)))
      case StringFlag => Some(Text(value))
      case Int32Flag =>
        match ParseInt32(value)
        case None => None
        case Some(n) => Some(Int32(n))
  }

  /** The first of these flags that the argument sets, and what to. */
  function Setting(arg: string, flags: seq<Flag>): Option<(Flag, Value)> {
    if flags == [] then None
    else if ParsedAs(arg, flags[0]).Some? then Some((flags[0], ParsedAs(arg, flags[0]).value))
    else Setting(arg, flags[1..])
  }

  // ----- No argument sets two flags -----

  lemma NameHasNoEquals(f: Flag)
    ensures '=' !in Name(f)
  {
    if KindOf(f) == BoolFlag {
      BoolNameHasNoEquals(f);
    }
  }

  lemma BoolNameHasNoEquals(f: Flag)
    requires KindOf(f) == BoolFlag
    ensures '=' !in Name(f)
  {
  }

  predicate EndsName(s: string) { s == "" || s[0] == '=' }

  /** A name that ends where the argument does, or at '=', is the only one that does. */
  lemma OneName(arg: string, f: Flag, g: Flag)
    requires PREFIX + Name(f) <= arg && EndsName(arg[|PREFIX + Name(f)|..])
    requires PREFIX + Name(g) <= arg && EndsName(arg[|PREFIX + Name(g)|..])
    ensures f == g
  {
    var rest := arg[|PREFIX|..];
    StripPrefix(arg, Name(f));
    StripPrefix(arg, Name(g));
    NameHasNoEquals(f);
    NameHasNoEquals(g);
    SameName(rest, Name(f), Name(g));
  }

  lemma StripPrefix(arg: string, name: string)
    requires PREFIX + name <= arg
    ensures PREFIX <= arg && name <= arg[|PREFIX|..] && arg[|PREFIX + name|..] == arg[|PREFIX|..][|name|..]
  {
    assert arg[|PREFIX|..|PREFIX| + |name|] == name;
  }

  lemma SameName(rest: string, name: string, name': string)
    requires name <= rest && EndsName(rest[|name|..]) && '=' !in name
    requires name' <= rest && EndsName(rest[|name'|..]) && '=' !in name'
    ensures name == name'
  {
  }

  lemma OneFlag(arg: string, f: Flag, g: Flag)
    requires ParsedAs(arg, f).Some? && ParsedAs(arg, g).Some?
    ensures f == g
  {
    OneName(arg, f, g);
  }

  lemma {:induction false} SettingIsParsed(arg: string, flags: seq<Flag>, f: Flag)
    requires f in flags
    ensures ParsedAs(arg, f).Some? ==> Setting(arg, flags) == Some((f, ParsedAs(arg, f).value))
  {
    if ParsedAs(arg, f).Some? && flags[0] != f {
      if ParsedAs(arg, flags[0]).Some? {
        OneFlag(arg, flags[0], f);
      }
      SettingIsParsed(arg, flags[1..], f);
    }
  }

  /** arg is "--gtest_" name "=" value */
  predicate Assigns(arg: string, f: Flag, value: string) { arg == PREFIX + Name(f) + "=" + value }

  /** "--name=text" */
  ghost predicate SetsText(arg: string, name: string, v: Value) { v.Text? && arg == name + "=" + v.s }

  /** "--name=number" */
  ghost predicate SetsInt32(arg: string, name: string, v: Value) {
    v.Int32? && exists text: string :: arg == name + "=" + text && ParseInt32(text) == Some(v.n)
  }

  /** "--name" for true, and "--name=value" where a value that begins with 0, f or F is false. */
  ghost predicate SetsBool(arg: string, name: string, v: Value) {
    || (arg == name && v == Bool(true))
    || exists text: string :: arg == name + "=" + text && v == Bool(!("0" <= text || "f" <= text || "F" <= text))
  }

  /** The flags as the help text names them. */
  function DocumentedName(f: Flag): string {
    "--gtest_" +
    match f
    case AlsoRunDisabledTests => "also_run_disabled_tests"
    case BreakOnFailure => "break_on_failure"
    case CatchExceptions => "catch_exceptions"
    case Color => "color"
    case DeathTestStyle => "death_test_style"
    case DeathTestUseFork => "death_test_use_fork"
    case Filter => "filter"
    case InternalRunDeathTest => "internal_run_death_test"
    case ListTests => "list_tests"
    case Output => "output"
    case PrintTime => "print_time"
    case RandomSeed => "random_seed"
    case Repeat => "repeat"
    case Shuffle => "shuffle"
    case StackTraceDepth => "stack_trace_depth"
    case StreamResultTo => "stream_result_to"
    case ThrowOnFailure => "throw_on_failure"
  }

  /** The argument sets this flag to this value, as the flags are documented. */
  ghost predicate Sets(arg: string, f: Flag, v: Value) {
    match f
    case Filter | Output | Color | StreamResultTo | DeathTestStyle | InternalRunDeathTest => SetsText(arg, DocumentedName(f), v)
    case Repeat | RandomSeed | StackTraceDepth => SetsInt32(arg, DocumentedName(f), v)
    case AlsoRunDisabledTests | BreakOnFailure | CatchExceptions | DeathTestUseFork | ListTests | PrintTime
      | Shuffle | ThrowOnFailure => SetsBool(arg, DocumentedName(f), v)
  }

  /** The same by the name and the kind of the flag. */
  ghost predicate SetsNamed(arg: string, f: Flag, v: Value) {
    match KindOf(f)
    case StringFlag => SetsText(arg, PREFIX + Name(f), v)
    case Int32Flag => SetsInt32(arg, PREFIX + Name(f), v)
    case BoolFlag => SetsBool(arg, PREFIX + Name(f), v)
  }

  lemma NamesAsDocumented(arg: string, f: Flag, v: Value)
    ensures SetsNamed(arg, f, v) <==> Sets(arg, f, v)
  {
    assert PREFIX + Name(f) == DocumentedName(f);
  }

  lemma AssignedIsParsed(arg: string, f: Flag, value: string, defOptional: bool)
    requires Assigns(arg, f, value)
    ensures ParseFlagValue(arg, Name(f), defOptional) == Some(value)
  {
  }

  lemma ParsedIsAssigned(arg: string, f: Flag, defOptional: bool)
    requires ParseFlagValue(arg, Name(f), defOptional).Some?
    ensures var value := ParseFlagValue(arg, Name(f), defOptional).value;
            Assigns(arg, f, value) || (defOptional && arg == PREFIX + Name(f) && value == "")
  {
    var flagStr := PREFIX + Name(f);
  }

  lemma ParsedAsSets(arg: string, f: Flag, v: Value)
    ensures ParsedAs(arg, f) == Some(v) <==> SetsNamed(arg, f, v)
  {
    var r := ParseFlagValue(arg, Name(f), KindOf(f) == BoolFlag);
    if r.Some? {
      ParsedIsAssigned(arg, f, KindOf(f) == BoolFlag);
    }
    forall text: string | Assigns(arg, f, text) ensures r == Some(text) {
      AssignedIsParsed(arg, f, text, KindOf(f) == BoolFlag);
    }
    if arg == PREFIX + Name(f) {
      assert arg[|PREFIX + Name(f)|..] == "";
    }
  }

  /** An argument sets a flag exactly when it has the documented form for it, whatever the order in which flags are tried. */
  lemma SettingSets(arg: string, f: Flag, v: Value)
    ensures Setting(arg, FLAGS) == Some((f, v)) <==> Sets(arg, f, v)
  {
    ParsedAsSets(arg, f, v);
    NamesAsDocumented(arg, f, v);
    SettingIsParsed(arg, FLAGS, f);
    SettingParses(arg, FLAGS);
  }

  lemma {:induction false} SettingParses(arg: string, flags: seq<Flag>)
    ensures Setting(arg, flags).Some? ==> ParsedAs(arg, Setting(arg, flags).value.0) == Some(Setting(arg, flags).value.1)
  {
    if flags != [] {
      SettingParses(arg, flags[1..]);
    }
  }

  /** Every int is read back from its decimal text exactly when it has 32 bits. */
  lemma Int32ReadsBack(n: int)
    ensures ParseInt32(if n < 0 then "-" + D.Numeral(-n) else D.Numeral(n)) == if -0x8000_0000 <= n <= 0x7FFF_FFFF then Some(n) else None
  {
    var digits := D.Numeral(if n < 0 then -n else n);
    assert digits[0] in digits && D.IsDigit(digits[0]);
    assert ("-" + digits)[1..] == digits;
  }

  /** White space, a sign or none, and digits. */
  ghost predicate Spells(str: string, spaces: string, sign: string, digits: string) {
    && str == spaces + sign + digits
    && (forall i :: 0 <= i < |spaces| ==> spaces[i] in {' ', '\t', '\n', '\U{0B}', '\U{0C}', '\r'})
    && sign in ["", "+", "-"]
    && digits != "" && D.AllDigits(digits)
  }

  function Spelled(sign: string, digits: string): int
    requires D.AllDigits(digits)
  {
    if sign == "-" then 0 - D.Value(digits) else D.Value(digits)
  }

  lemma SpelledIsParsed(str: string, sign: string, digits: string)
    requires Spells(str, "", sign, digits)
    ensures var n := Spelled(sign, digits);
            ParseInt32(str) == if -INT32_MAX - 1 <= n <= INT32_MAX then Some(n) else None
  {
    assert str == sign + digits;
    assert digits[0] in digits && D.IsDigit(digits[0]);
    assert sign == "" ==> str == digits;
    assert sign != "" ==> str[1..] == digits && str[0] == sign[0];
  }

  lemma {:induction false} SpacedIsParsed(str: string, spaces: string, sign: string, digits: string)
    requires Spells(str, spaces, sign, digits)
    ensures var n := Spelled(sign, digits);
            ParseInt32(str) == if -INT32_MAX - 1 <= n <= INT32_MAX then Some(n) else None
    decreases |spaces|
  {
    if spaces == "" {
      SpelledIsParsed(str, sign, digits);
    } else {
      assert str[0] == spaces[0] && str[1..] == spaces[1..] + sign + digits;
      SpacedIsParsed(str[1..], spaces[1..], sign, digits);
    }
  }

  lemma UnspacedIsSpelled(str: string) returns (sign: string, digits: string)
    requires ParseInt32(str).Some? && str != "" && !IsSpace(str[0])
    ensures Spells(str, "", sign, digits)
  {
    assert ["", "+", "-"][0] == "" && ["", "+", "-"][1] == "+" && ["", "+", "-"][2] == "-";
    if str[0] == '-' || str[0] == '+' {
      sign, digits := [str[0]], str[1..];
    } else {
      sign, digits := "", str;
    }
    assert str == "" + sign + digits;
  }

  lemma OneSpaceMore(str: string, spaces: string, sign: string, digits: string)
    requires str != "" && IsSpace(str[0]) && Spells(str[1..], spaces, sign, digits)
    ensures Spells(str, [str[0]] + spaces, sign, digits)
  {
    assert str == [str[0]] + str[1..] == [str[0]] + (spaces + sign + digits) == [str[0]] + spaces + sign + digits;
  }

  lemma {:induction false} ParsedIsSpelled(str: string) returns (spaces: string, sign: string, digits: string)
    requires ParseInt32(str).Some? && str != ""
    ensures Spells(str, spaces, sign, digits)
  {
    if IsSpace(str[0]) {
      spaces, sign, digits := ParsedIsSpelled(str[1..]);
      OneSpaceMore(str, spaces, sign, digits);
      spaces := [str[0]] + spaces;
    } else {
      spaces := "";
      sign, digits := UnspacedIsSpelled(str);
    }
  }

  /** Exactly the integers of 32 bits are accepted, after white space and with or without a sign, and nothing at all as 0. */
  lemma WhatParseInt32Accepts(str: string, n: int)
    ensures ParseInt32(str) == Some(n) <==>
            || (str == "" && n == 0)
            || (-0x8000_0000 <= n <= 0x7FFF_FFFF &&
                exists spaces, sign, digits :: Spells(str, spaces, sign, digits) && Spelled(sign, digits) == n)
  {
    if str != "" && ParseInt32(str) == Some(n) {
      var spaces, sign, digits := ParsedIsSpelled(str);
      SpacedIsParsed(str, spaces, sign, digits);
    }
    forall spaces, sign, digits | Spells(str, spaces, sign, digits) && Spelled(sign, digits) == n && -INT32_MAX - 1 <= n <= INT32_MAX
      ensures ParseInt32(str) == Some(n)
    {
      SpacedIsParsed(str, spaces, sign, digits);
    }
  }

  // ----- The command line -----

  predicate HasGoogleTestFlagPrefix(str: string) {
    if "--" <= str then IsGoogleTestName(str[2..])
    else if "-" <= str || "/" <= str then IsGoogleTestName(str[1..])
    else false
  }

  predicate IsGoogleTestName(str: string) {
    !("gtest_internal_" <= str) && ("gtest_" <= str || "gtest-" <= str)
  }

  predicate StartsWithName(arg: string, name: string) {
    "--" + name <= arg || "-" + name <= arg || "/" + name <= arg
  }

  lemma AfterDash(arg: string, dash: string, name: string)
    ensures dash + name <= arg <==> dash <= arg && name <= arg[|dash|..]
  {
    if dash + name <= arg {
      assert arg[|dash|..][..|name|] == name;
    }
    if dash <= arg && name <= arg[|dash|..] {
      assert arg[..|dash| + |name|] == dash + name;
    }
  }

  lemma StartsWithDash(arg: string, name: string)
    requires name != "" && name[0] != '-'
    ensures StartsWithName(arg, name) <==>
            if "--" <= arg then name <= arg[2..] else ("-" <= arg || "/" <= arg) && name <= arg[1..]
  {
    AfterDash(arg, "--", name);
    AfterDash(arg, "-", name);
    AfterDash(arg, "/", name);
    assert "--" <= arg ==> arg[1..] != "" && arg[1..][0] == '-';
  }

  /** Help is shown for what looks like a Google Test flag, after one or two dashes or a slash, but not for an internal one. */
  lemma PrefixAsDocumented(arg: string)
    ensures HasGoogleTestFlagPrefix(arg) <==>
            (StartsWithName(arg, "gtest_") || StartsWithName(arg, "gtest-")) && !StartsWithName(arg, "gtest_internal_")
  {
    StartsWithDash(arg, "gtest_");
    StartsWithDash(arg, "gtest-");
    StartsWithDash(arg, "gtest_internal_");
  }

  predicate WantsHelp(arg: string) {
    arg == "--help" || arg == "-h" || arg == "-?" || arg == "/?" || HasGoogleTestFlagPrefix(arg)
  }

  /** Help is asked for by name, or by what looks like a flag of Google Test that is not internal. */
  lemma HelpAsDocumented(arg: string)
    ensures WantsHelp(arg) <==>
            || arg in ["--help", "-h", "-?", "/?"]
            || ((StartsWithName(arg, "gtest_") || StartsWithName(arg, "gtest-")) && !StartsWithName(arg, "gtest_internal_"))
  {
    PrefixAsDocumented(arg);
  }

  /** What is asked of an argument: what it sets, if it is a flag, and whether it wants help. The loop does not care how. */
  datatype Reading = Reading(setting: string -> Option<(Flag, Value)>, wantsHelp: string -> bool)

  const GOOGLE_TEST := Reading(arg => Setting(arg, FLAGS), WantsHelp)

  /** What each argument sets; the program's name sets nothing. */
  type Settings = seq<Option<(Flag, Value)>>

  function SettingsBy(args: seq<string>, how: Reading): Settings {
    seq(|args|, j requires 0 <= j < |args| => if j == 0 then None else how.setting(args[j]))
  }

  function SettingsOf(args: seq<string>): Settings { SettingsBy(args, GOOGLE_TEST) }

  /** The first n arguments with the flags taken out. */
  function Kept<T>(args: seq<T>, settings: Settings, n: nat): seq<T>
    requires n <= |args| == |settings|
  {
    if n == 0 then []
    else if settings[n - 1].Some? then Kept(args, settings, n - 1)
    else Kept(args, settings, n - 1) + [args[n - 1]]
  }

  /** The flags after the first n arguments. */
  function Applied(values: map<Flag, Value>, settings: Settings, n: nat): map<Flag, Value>
    requires n <= |settings|
  {
    if n == 0 then values else
    match settings[n - 1]
    case None => Applied(values, settings, n - 1)
    case Some((f, v)) => Applied(values, settings, n - 1)[f := v]
  }

  /** An argument other than the program's name asks for help. */
  ghost predicate HelpWanted(args: seq<string>, settings: Settings, how: Reading, n: nat)
    requires n <= |args| == |settings|
  {
    exists j :: 0 < j < n && settings[j].None? && how.wantsHelp(args[j])
  }

  /** argv when the first n arguments have been examined: those kept, those to come, and then NULL. */
  function Layout(kept: seq<string>, args: seq<string>, n: nat, k: nat): Option<string> {
    if k < |kept| then Some(kept[k])
    else if k - |kept| + n < |args| then Some(args[k - |kept| + n])
    else None
  }

  ghost predicate LaidOut(argv: seq<Option<string>>, kept: seq<string>, args: seq<string>, n: nat) {
    |argv| == |args| + 1 && forall k :: 0 <= k < |argv| ==> argv[k] == Layout(kept, args, n, k)
  }

  lemma LaidOutWith(argv: seq<Option<string>>, kept: seq<string>, args: seq<string>, n: nat)
    requires LaidOut(argv, kept, args, n) && |kept| <= n < |args|
    ensures argv[|kept|] == Some(args[n]) && LaidOut(argv, kept + [args[n]], args, n + 1)
  {
    var kept' := kept + [args[n]];
    forall k | 0 <= k < |argv| ensures argv[k] == Layout(kept', args, n + 1, k) {
      assert argv[k] == Layout(kept, args, n, k);
    }
  }

  /** What is left of a command line: the arguments that are not flags, and then NULL. */
  ghost predicate Compacted(argv: seq<Option<string>>, argc: nat, args: seq<string>, settings: Settings)
    requires |args| == |settings|
  {
    argc == |Kept(args, settings, |args|)| && LaidOut(argv, Kept(args, settings, |args|), args, |args|)
  }

  class GoogleTestFlags {
    var values: map<Flag, Value>
    var help: bool

    /** The inner loop: everything after element i moves down by one, the closing NULL too. */
    method ShiftLeft(argv: array<Option<string>>, i: nat, argc: nat, ghost args: seq<string>, ghost kept: seq<string>, ghost n: nat)
      requires LaidOut(argv[..], kept, args, n) && n < |args|
      requires i == |kept| && argc == i + (|args| - n) < argv.Length
      modifies argv
      ensures LaidOut(argv[..], kept, args, n + 1)
    {
      var j := i;
      while j != argc
        invariant i <= j <= argc
        invariant forall k :: 0 <= k < argv.Length ==> argv[k] == Layout(kept, args, if k < j then n + 1 else n, k)
        decreases argc - j
      {
        argv[j] := argv[j + 1];
        j := j + 1;
      }
    }

    /**
     * Whether the argument, the n-th, is a flag; if so it is set, and if not it may still ask for help.
     * `initial` and `helped` are the flags before the first argument.
     */
    method Examine(arg: string, how: Reading, ghost args: seq<string>, ghost n: nat, ghost initial: map<Flag, Value>, ghost helped: bool)
      returns (recognized: bool)
      requires 0 < n < |args| && arg == args[n]
      requires values == Applied(initial, SettingsBy(args, how), n)
      requires help == (helped || HelpWanted(args, SettingsBy(args, how), how, n))
      modifies this
      ensures recognized <==> SettingsBy(args, how)[n].Some?
      ensures values == Applied(initial, SettingsBy(args, how), n + 1)
      ensures help == (helped || HelpWanted(args, SettingsBy(args, how), how, n + 1))
    {
      var setting := how.setting(arg);
      recognized := setting.Some?;
      assert SettingsBy(args, how)[n] == setting;
      if recognized {
        values := values[setting.value.0 := setting.value.1];
      } else if how.wantsHelp(arg) {
        help := true;
      }
    }

    method ParseGoogleTestFlagsOnlyImpl(argc: nat, argv: array<Option<string>>, how: Reading, ghost args: seq<string>)
      returns (argc': nat)
      requires |args| == argc && LaidOut(argv[..], [], args, 0)
      modifies this, argv
      ensures Compacted(argv[..], argc', args, SettingsBy(args, how))
      ensures values == Applied(old(values), SettingsBy(args, how), argc)
      ensures help == (old(help) || HelpWanted(args, SettingsBy(args, how), how, argc))
      ensures argc > 0 ==> argc' > 0 && argv[0] == Some(args[0])
      ensures forall k :: argc' <= k < argv.Length ==> argv[k] == None
    {
      argc' := argc;
      if argc == 0 {
        return;
      }
      ProgramStaysFirst(args, how, argc);
      ghost var settings := SettingsBy(args, how);
      ghost var n, kept := 1, [] + [args[0]];
      LaidOutWith(argv[..], [], args, 0);
      var i := 1;
      while i < argc'
        invariant 1 <= i == |kept| <= argc' <= argc && n == i + (argc - argc')
        invariant kept == Kept(args, settings, n)
        invariant LaidOut(argv[..], kept, args, n)
        invariant values == Applied(old(values), settings, n)
        invariant help == (old(help) || HelpWanted(args, settings, how, n))
        decreases argc' - i
      {
        LaidOutWith(argv[..], kept, args, n);
        var recognized := Examine(argv[i].value, how, args, n, old(values), old(help));
        if recognized {
          ShiftLeft(argv, i, argc', args, kept, n);
          argc' := argc' - 1;
          i := i - 1;
        } else {
          kept := kept + [args[n]];
        }
        i := i + 1;
        n := n + 1;
      }
    }

    /** The same for the flags of Google Test. */
    method ParseGoogleTestFlagsOnly(argc: nat, argv: array<Option<string>>, ghost args: seq<string>) returns (argc': nat)
      requires |args| == argc && LaidOut(argv[..], [], args, 0)
      modifies this, argv
      ensures Compacted(argv[..], argc', args, SettingsOf(args))
      ensures values == Applied(old(values), SettingsOf(args), argc)
      ensures help == (old(help) || HelpWanted(args, SettingsOf(args), GOOGLE_TEST, argc))
      ensures argc > 0 ==> argc' > 0 && argv[0] == Some(args[0])
      ensures forall k :: argc' <= k < argv.Length ==> argv[k] == None
    {
      argc' := ParseGoogleTestFlagsOnlyImpl(argc, argv, GOOGLE_TEST, args);
    }
  }

  /** The program's name stays first, whatever it looks like. */
  lemma {:induction false} ProgramStaysFirst(args: seq<string>, how: Reading, n: nat)
    requires 0 < n <= |args|
    ensures var kept := Kept(args, SettingsBy(args, how), n); kept != [] && kept[0] == args[0]
  {
    if n > 1 { ProgramStaysFirst(args, how, n - 1); }
  }

  // ----- What is kept and what is set -----

  /** Where the arguments that are kept stand on the command line. */
  ghost function KeptAt(settings: Settings, n: nat): (at: seq<nat>)
    requires n <= |settings|
    ensures forall k :: 0 <= k < |at| ==> at[k] < n
    ensures forall k, l :: 0 <= k < l < |at| ==> at[k] < at[l]
  {
    if n == 0 then []
    else if settings[n - 1].Some? then KeptAt(settings, n - 1)
    else KeptAt(settings, n - 1) + [n - 1]
  }

  /** All that is not a flag, and nothing else. */
  lemma {:induction false} KeptAreUnrecognized(settings: Settings, n: nat)
    requires n <= |settings|
    ensures forall j: nat :: j in KeptAt(settings, n) <==> j < n && settings[j].None?
  {
    if n > 0 {
      KeptAreUnrecognized(settings, n - 1);
    }
  }

  lemma {:induction false} KeptCount<T>(args: seq<T>, settings: Settings, n: nat)
    requires n <= |args| == |settings|
    ensures |Kept(args, settings, n)| == |KeptAt(settings, n)|
  {
    if n > 0 {
      KeptCount(args, settings, n - 1);
    }
  }

  /** In the order it came. */
  lemma {:induction false} KeptInOrder<T>(args: seq<T>, settings: Settings, n: nat, k: nat)
    requires n <= |args| == |settings| && k < |KeptAt(settings, n)|
    ensures |Kept(args, settings, n)| == |KeptAt(settings, n)|
    ensures Kept(args, settings, n)[k] == args[KeptAt(settings, n)[k]]
  {
    KeptCount(args, settings, n);
    if settings[n - 1].Some? {
      KeptInOrder(args, settings, n - 1, k);
    } else {
      var kept, at := Kept(args, settings, n - 1), KeptAt(settings, n - 1);
      KeptCount(args, settings, n - 1);
      assert Kept(args, settings, n) == kept + [args[n - 1]] && KeptAt(settings, n) == at + [n - 1];
      if k < |at| {
        KeptInOrder(args, settings, n - 1, k);
        assert (at + [n - 1])[k] == at[k];
      }
    }
  }

  predicate SetBy(settings: Settings, j: nat, f: Flag)
    requires j < |settings|
  {
    settings[j].Some? && settings[j].value.0 == f
  }

  /** The last argument that sets a flag decides its value. */
  lemma {:induction false} LastWins(values: map<Flag, Value>, settings: Settings, n: nat, j: nat, f: Flag)
    requires j < n <= |settings| && SetBy(settings, j, f)
    requires forall l :: j < l < n ==> !SetBy(settings, l, f)
    ensures f in Applied(values, settings, n) && Applied(values, settings, n)[f] == settings[j].value.1
  {
    if n - 1 > j {
      assert !SetBy(settings, n - 1, f);
      LastWins(values, settings, n - 1, j, f);
    }
  }

  /** And a flag that none sets stays as it was. */
  lemma {:induction false} NoneSets(values: map<Flag, Value>, settings: Settings, n: nat, f: Flag)
    requires n <= |settings| && forall l :: 0 <= l < n ==> !SetBy(settings, l, f)
    ensures f in Applied(values, settings, n) <==> f in values
    ensures f in values ==> f in Applied(values, settings, n) && Applied(values, settings, n)[f] == values[f]
  {
    if n > 0 {
      assert !SetBy(settings, n - 1, f);
      NoneSets(values, settings, n - 1, f);
    }
  }

  // ----- The command line of a threadsafe death test's child -----

  /** The parent's own arguments, a filter for the running test, and the flag that names the death test. */
  function ChildArguments(args: seq<string>, test: string, value: string): seq<string> {
    args + [PREFIX + Name(Filter) + "=" + test, PREFIX + Name(InternalRunDeathTest) + "=" + value]
  }

  lemma ChildArgumentsAre(args: seq<string>, test: string, value: string)
    ensures ChildArguments(args, test, value) ==
            args + ["--gtest_" + "filter" + "=" + test, "--gtest_" + "internal_run_death_test" + "=" + value]
  {
  }

  lemma ArgumentSets(args: seq<string>, j: nat, f: Flag, value: string)
    requires 0 < j < |args| && KindOf(f) == StringFlag && Assigns(args[j], f, value)
    ensures SettingsOf(args)[j] == Some((f, Text(value)))
  {
    SettingSets(args[j], f, Text(value));
    NamesAsDocumented(args[j], f, Text(value));
  }

  /** Whatever flags the parent was given, the child is told of its own test and death test. */
  lemma ChildSeesItsFlags(values: map<Flag, Value>, args: seq<string>, test: string, value: string)
    requires args != []
    ensures var all := ChildArguments(args, test, value);
            var seen := Applied(values, SettingsOf(all), |all|);
            && Filter in seen && seen[Filter] == Text(test)
            && InternalRunDeathTest in seen && seen[InternalRunDeathTest] == Text(value)
  {
    var all := ChildArguments(args, test, value);
    var n := |args|;
    ArgumentSets(all, n, Filter, test);
    ArgumentSets(all, n + 1, InternalRunDeathTest, value);
    LastWins(values, SettingsOf(all), n + 2, n, Filter);
    LastWins(values, SettingsOf(all), n + 2, n + 1, InternalRunDeathTest);
  }

  lemma {:induction false} AppliedPrefix(values: map<Flag, Value>, s: Settings, t: Settings, n: nat)
    requires n <= |s| && n <= |t| && forall j :: 0 <= j < n ==> s[j] == t[j]
    ensures Applied(values, s, n) == Applied(values, t, n)
  {
    if n > 0 {
      AppliedPrefix(values, s, t, n - 1);
    }
  }

  lemma OthersUntouched(values: map<Flag, Value>, s: Settings, n: nat, f: Flag)
    requires n + 2 <= |s| && !SetBy(s, n, f) && !SetBy(s, n + 1, f)
    ensures var seen, before := Applied(values, s, n + 2), Applied(values, s, n);
            (f in seen <==> f in before) && (f in seen ==> seen[f] == before[f])
  {
    var middle := Applied(values, s, n + 1);
    assert (f in middle <==> f in Applied(values, s, n)) && (f in middle ==> middle[f] == Applied(values, s, n)[f]);
  }

  /** All other flags are in the child what they are in the parent. */
  lemma OtherFlagsAsInParent(values: map<Flag, Value>, args: seq<string>, test: string, value: string, f: Flag)
    requires args != [] && f != Filter && f != InternalRunDeathTest
    ensures var all := ChildArguments(args, test, value);
            var seen, parents := Applied(values, SettingsOf(all), |all|), Applied(values, SettingsOf(args), |args|);
            && (f in seen <==> f in parents)
            && (f in seen ==> seen[f] == parents[f])
  {
    var all, n := ChildArguments(args, test, value), |args|;
    ArgumentSets(all, n, Filter, test);
    ArgumentSets(all, n + 1, InternalRunDeathTest, value);
    AppliedPrefix(values, SettingsOf(all), SettingsOf(args), n);
    OthersUntouched(values, SettingsOf(all), n, f);
  }
}
