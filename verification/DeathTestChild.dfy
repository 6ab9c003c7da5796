/**
 * The child of a threadsafe death test from its command line to the tests it
 * runs: the flags the parent appends, and what FilterTests makes of them.
 */
module DeathTestChild {
  import opened Wrappers
  import opened FlagParsing
  import opened TestFilter
  import opened TestOrder
  import TestRun

  /** The flags that FilterTests goes by. */
  function SettingsFrom(flags: map<Flag, Value>): TestRun.Settings {
    TestRun.Settings(
      if Filter in flags && flags[Filter].Text? then flags[Filter].s else UNIVERSAL_FILTER,
      AlsoRunDisabledTests in flags && flags[AlsoRunDisabledTests] == Bool(true))
  }

  function FullName(cases: seq<Case>, c: nat, k: nat): string
    requires c < |cases| && k < |cases[c].infos|
  {
    cases[c].name + "." + cases[c].infos[k].name
  }

  /** The flags after a command line. */
  function FlagsAfter(values: map<Flag, Value>, args: seq<string>): map<Flag, Value> {
    Applied(values, SettingsOf(args), |args|)
  }

  /**
   * The parent runs a test with a plain name, whatever its own command line
   * selects. Its child, which is not sharded, marks that test, and of the
   * others only those of the same full name that the parent might run too.
   */
  lemma ChildMarksItsTest(values: map<Flag, Value>, args: seq<string>, value: string, r: Registry, c: nat, k: nat)
    requires args != [] && c < |r.cases| && k < |r.cases[c].infos| && IsPlain(FullName(r.cases, c, k))
    requires TestRun.Runnable(SettingsFrom(FlagsAfter(values, args)), r.cases[c].name, r.cases[c].infos[k].name)
    ensures var parents := SettingsFrom(FlagsAfter(values, args));
            var childs := SettingsFrom(FlagsAfter(values, ChildArguments(args, FullName(r.cases, c, k), value)));
            var marked := TestRun.FilteredRegistry(childs, None, r).cases;
            && marked[c].infos[k].shouldRun
            && forall d, l :: 0 <= d < |r.cases| && 0 <= l < |r.cases[d].infos| ==>
                 (marked[d].infos[l].shouldRun <==>
                    && FullName(r.cases, d, l) == FullName(r.cases, c, k)
                    && (parents.alsoRunDisabled || !TestRun.Disabled(r.cases[d].name, r.cases[d].infos[l].name)))
  {
    var name := FullName(r.cases, c, k);
    ChildSeesItsFlags(values, args, name, value);
    OtherFlagsAsInParent(values, args, name, value, AlsoRunDisabledTests);
    forall d, l | 0 <= d < |r.cases| && 0 <= l < |r.cases[d].infos|
      ensures Selects(name, r.cases[d].name, r.cases[d].infos[l].name) <==> FullName(r.cases, d, l) == name
    {
      PlainFilter(name, r.cases[d].name, r.cases[d].infos[l].name);
    }
  }
}
