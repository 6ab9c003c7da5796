/**
 * The registry of tests as a value, and what registering, shuffling,
 * unshuffling, filtering and running do to it.
 */
module TestOrder {
  import opened TestFilter

  const DEATH_TEST_CASE_FILTER := "*DeathTest:*DeathTest/*"
  const DISABLE_TEST_FILTER := "DISABLED_*:*/DISABLED_*"

  datatype TestInfo = TestInfo(name: string, isDisabled: bool, matchesFilter: bool, shouldRun: bool)

  datatype Case = Case(name: string, infos: seq<TestInfo>, indices: seq<int>, shouldRun: bool)

  datatype Registry = Registry(cases: seq<Case>, indices: seq<int>, lastDeath: int)

  const EMPTY := Registry([], [], -1)

  function NewTest(name: string): TestInfo { TestInfo(name, false, false, false) }

  function NewCase(name: string): Case { Case(name, [], [], false) }

  ghost predicate IsDeathCase(name: string) { InFilter(name, DEATH_TEST_CASE_FILTER) }

  lemma IsPlainText(text: string)
    requires text in ["DeathTest", "DeathTest/", "DISABLED_", "/DISABLED_"]
    ensures IsPlain(text) && ':' !in text
  {
  }

  /** Death test cases by name. */
  lemma DeathCaseNames(name: string)
    ensures IsDeathCase(name) <==> EndsIn(name, "DeathTest") || Contains(name, "DeathTest/")
  {
    IsPlainText("DeathTest");
    IsPlainText("DeathTest/");
    StarThenText("DeathTest", name);
    StarTextStar("DeathTest/", name);
    TwoPatterns("*DeathTest", "*DeathTest/*", name);
    assert "*" + "DeathTest" == "*DeathTest" && "*" + ("DeathTest/" + "*") == "*DeathTest/*";
    assert "*DeathTest" + ":" + "*DeathTest/*" == DEATH_TEST_CASE_FILTER;
  }

  /** Disabled names. */
  lemma DisabledNames(name: string)
    ensures InFilter(name, DISABLE_TEST_FILTER) <==> "DISABLED_" <= name || Contains(name, "/DISABLED_")
  {
    IsPlainText("DISABLED_");
    IsPlainText("/DISABLED_");
    TextThenStar("DISABLED_", name);
    StarTextStar("/DISABLED_", name);
    TwoPatterns("DISABLED_*", "*/DISABLED_*", name);
    assert "DISABLED_" + "*" == "DISABLED_*" && "*" + ("/DISABLED_" + "*") == "*/DISABLED_*";
    assert "DISABLED_*" + ":" + "*/DISABLED_*" == DISABLE_TEST_FILTER;
  }

  // ----- Registering -----

  /** Where the case of this name is; past the end if nowhere. */
  function FindCase(cases: seq<Case>, name: string): (i: nat)
    ensures i <= |cases| && (i < |cases| ==> cases[i].name == name)
    ensures forall k :: 0 <= k < i ==> cases[k].name != name
  {
    if cases == [] then 0
    else if cases[0].name == name then 0
    else 1 + FindCase(cases[1..], name)
  }

  /** One test index for each test, one case index for each case. */
  predicate WellShaped(r: Registry) {
    && |r.indices| == |r.cases| && -1 <= r.lastDeath < |r.cases|
    && forall i :: 0 <= i < |r.cases| ==> |r.cases[i].indices| == |r.cases[i].infos|
  }

  ghost function WithCase(r: Registry, name: string): (r': Registry)
    requires WellShaped(r)
    ensures WellShaped(r') && FindCase(r'.cases, name) < |r'.cases|
  {
    if FindCase(r.cases, name) < |r.cases| then r
    else if IsDeathCase(name) then
      var at := r.lastDeath + 1;
      var r' := Registry(r.cases[..at] + [NewCase(name)] + r.cases[at..], r.indices + [|r.indices|], at);
      assert r'.cases[at].name == name;
      r'
    else
      var r' := Registry(r.cases + [NewCase(name)], r.indices + [|r.indices|], r.lastDeath);
      assert r'.cases[|r.cases|].name == name;
      r'
  }

  lemma NewCaseFound(r: Registry, name: string)
    requires WellShaped(r) && FindCase(r.cases, name) == |r.cases|
    ensures FindCase(WithCase(r, name).cases, name) == if IsDeathCase(name) then r.lastDeath + 1 else |r.cases|
  {
    var at, r' := if IsDeathCase(name) then r.lastDeath + 1 else |r.cases|, WithCase(r, name);
    assert r'.cases[at].name == name && forall k :: 0 <= k < at ==> r'.cases[k] == r.cases[k];
  }

  function AddedTo(c: Case, test: string): Case {
    c.(infos := c.infos + [NewTest(test)], indices := c.indices + [|c.indices|])
  }

  ghost function WithTest(r: Registry, name: string, test: string): (r': Registry)
    requires WellShaped(r)
    ensures WellShaped(r')
  {
    var r' := WithCase(r, name);
    var i := FindCase(r'.cases, name);
    r'.(cases := r'.cases[i := AddedTo(r'.cases[i], test)])
  }

  /** A registration: the name of the test case and of the test. */
  datatype Registration = Registration(testCase: string, test: string)

  ghost function Registered(regs: seq<Registration>): (r: Registry)
    ensures WellShaped(r)
  {
    if regs == [] then EMPTY else
    var n := |regs| - 1;
    WithTest(Registered(regs[..n]), regs[n].testCase, regs[n].test)
  }

  /** The case names in the order they are first seen. */
  function FirstSeen(regs: seq<Registration>): seq<string> {
    if regs == [] then [] else
    var n := |regs| - 1;
    var seen := FirstSeen(regs[..n]);
    if regs[n].testCase in seen then seen else seen + [regs[n].testCase]
  }

  ghost function Kept(names: seq<string>, death: bool): seq<string> {
    if names == [] then [] else
    var n := |names| - 1;
    Kept(names[..n], death) + if IsDeathCase(names[n]) == death then [names[n]] else []
  }

  /** The tests registered under a case name, in order. */
  function TestsOf(regs: seq<Registration>, name: string): seq<TestInfo> {
    if regs == [] then [] else
    var n := |regs| - 1;
    TestsOf(regs[..n], name) + if regs[n].testCase == name then [NewTest(regs[n].test)] else []
  }

  function Names(cases: seq<Case>): (names: seq<string>)
    ensures |names| == |cases| && forall i :: 0 <= i < |cases| ==> names[i] == cases[i].name
  {
    seq(|cases|, i requires 0 <= i < |cases| => cases[i].name)
  }

  /** Nothing but 0, 1, 2, ... */
  predicate InOrder(s: seq<int>) { forall k :: 0 <= k < |s| ==> s[k] == k }

  predicate Unshuffled(r: Registry) {
    InOrder(r.indices) && forall i :: 0 <= i < |r.cases| ==> InOrder(r.cases[i].indices)
  }

  /** The cases are the names seen, death cases first, each part in the order seen, with their tests. */
  ghost predicate Partitions(r: Registry, seen: seq<string>, regs: seq<Registration>) {
    && Names(r.cases) == Kept(seen, true) + Kept(seen, false)
    && r.lastDeath == |Kept(seen, true)| - 1
    && Unshuffled(r)
    && (forall i :: 0 <= i < |r.cases| ==> r.cases[i].infos == TestsOf(regs, r.cases[i].name))
  }

  lemma {:induction false} KeptMembers(names: seq<string>, death: bool, name: string)
    ensures name in Kept(names, death) <==> name in names && IsDeathCase(name) == death
  {
    if names != [] {
      var n := |names| - 1;
      KeptMembers(names[..n], death, name);
      assert names == names[..n] + [names[n]];
    }
  }

  lemma FoundIffSeen(r: Registry, seen: seq<string>, regs: seq<Registration>, name: string)
    requires Partitions(r, seen, regs)
    ensures FindCase(r.cases, name) < |r.cases| <==> name in seen
  {
    KeptMembers(seen, true, name);
    KeptMembers(seen, false, name);
    assert name in Names(r.cases) <==> name in seen;
    var i := FindCase(r.cases, name);
    if i < |r.cases| {
      assert Names(r.cases)[i] == name;
    }
  }

  lemma {:induction false} NoTestsUnseen(regs: seq<Registration>, name: string)
    requires name !in FirstSeen(regs)
    ensures TestsOf(regs, name) == []
  {
    if regs != [] {
      NoTestsUnseen(regs[..|regs| - 1], name);
    }
  }

  function Seeing(seen: seq<string>, name: string): seq<string> {
    if name in seen then seen else seen + [name]
  }

  lemma CaseStep(r: Registry, seen: seq<string>, regs: seq<Registration>, name: string)
    requires WellShaped(r) && Partitions(r, seen, regs) && (name !in seen ==> TestsOf(regs, name) == [])
    ensures Partitions(WithCase(r, name), Seeing(seen, name), regs)
  {
    FoundIffSeen(r, seen, regs, name);
    if name !in seen {
      if IsDeathCase(name) {
        NewDeathCase(r, seen, regs, name);
      } else {
        NewOtherCase(r, seen, regs, name);
      }
    }
  }

  lemma NewDeathCase(r: Registry, seen: seq<string>, regs: seq<Registration>, name: string)
    requires WellShaped(r) && Partitions(r, seen, regs) && TestsOf(regs, name) == [] && IsDeathCase(name)
    ensures var at := r.lastDeath + 1;
            Partitions(Registry(r.cases[..at] + [NewCase(name)] + r.cases[at..], r.indices + [|r.indices|], at), seen + [name], regs)
  {
    assert (seen + [name])[..|seen|] == seen;
    var deaths, others := Kept(seen, true), Kept(seen, false);
    NewCaseAt(r.cases, |deaths|, name, regs);
    assert (deaths + others)[..|deaths|] == deaths && (deaths + others)[|deaths|..] == others;
  }

  lemma NewOtherCase(r: Registry, seen: seq<string>, regs: seq<Registration>, name: string)
    requires WellShaped(r) && Partitions(r, seen, regs) && TestsOf(regs, name) == [] && !IsDeathCase(name)
    ensures Partitions(Registry(r.cases + [NewCase(name)], r.indices + [|r.indices|], r.lastDeath), seen + [name], regs)
  {
    assert (seen + [name])[..|seen|] == seen;
    var deaths, others := Kept(seen, true), Kept(seen, false);
    NewCaseAt(r.cases, |r.cases|, name, regs);
    assert r.cases[..|r.cases|] + [NewCase(name)] + r.cases[|r.cases|..] == r.cases + [NewCase(name)];
    assert Names(r.cases)[..|r.cases|] + [name] + Names(r.cases)[|r.cases|..] == deaths + (others + [name]);
  }

  lemma NewCaseAt(cases: seq<Case>, at: nat, name: string, regs: seq<Registration>)
    requires at <= |cases| && TestsOf(regs, name) == []
    requires forall i :: 0 <= i < |cases| ==> cases[i].infos == TestsOf(regs, cases[i].name) && InOrder(cases[i].indices)
    ensures var cases' := cases[..at] + [NewCase(name)] + cases[at..];
            && Names(cases') == Names(cases)[..at] + [name] + Names(cases)[at..]
            && forall i :: 0 <= i < |cases'| ==> cases'[i].infos == TestsOf(regs, cases'[i].name) && InOrder(cases'[i].indices)
  {
    var cases' := cases[..at] + [NewCase(name)] + cases[at..];
    forall i | 0 <= i < |cases'| ensures cases'[i] == if i < at then cases[i] else if i == at then NewCase(name) else cases[i - 1] {}
  }

  lemma TestStep(r: Registry, seen: seq<string>, regs: seq<Registration>, reg: Registration)
    requires WellShaped(r) && Partitions(r, seen, regs) && Distinct(Names(r.cases))
    requires FindCase(r.cases, reg.testCase) < |r.cases|
    ensures var i := FindCase(r.cases, reg.testCase);
            Partitions(r.(cases := r.cases[i := AddedTo(r.cases[i], reg.test)]), seen, regs + [reg])
  {
    var i := FindCase(r.cases, reg.testCase);
    var r' := r.(cases := r.cases[i := AddedTo(r.cases[i], reg.test)]);
    assert (regs + [reg])[..|regs|] == regs;
    assert Names(r'.cases) == Names(r.cases);
    forall k | 0 <= k < |r'.cases| ensures r'.cases[k].infos == TestsOf(regs + [reg], r'.cases[k].name) {
      if k != i {
        assert Names(r.cases)[k] != Names(r.cases)[i];
      }
    }
  }

  predicate Distinct(names: seq<string>) {
    forall i, j :: 0 <= i < j < |names| ==> names[i] != names[j]
  }

  lemma {:induction false} KeptDistinct(names: seq<string>, death: bool)
    requires Distinct(names)
    ensures Distinct(Kept(names, death))
  {
    if names != [] {
      var n := |names| - 1;
      KeptDistinct(names[..n], death);
      KeptMembers(names[..n], death, names[n]);
    }
  }

  lemma PartsDistinct(names: seq<string>)
    requires Distinct(names)
    ensures Distinct(Kept(names, true) + Kept(names, false))
  {
    KeptDistinct(names, true);
    KeptDistinct(names, false);
    var deaths, others := Kept(names, true), Kept(names, false);
    forall i, j | 0 <= i < |deaths| && 0 <= j < |others| ensures deaths[i] != others[j] {
      KeptMembers(names, true, deaths[i]);
      KeptMembers(names, false, others[j]);
    }
  }

  lemma {:induction false} FirstSeenDistinct(regs: seq<Registration>)
    ensures Distinct(FirstSeen(regs))
  {
    if regs != [] {
      FirstSeenDistinct(regs[..|regs| - 1]);
    }
  }

  /**
   * Whatever is registered, in whatever order: the cases are the names first
   * seen, death test cases before the others and each part in the order seen;
   * last_death_test_case_ marks the boundary; every case has its tests in the
   * order registered; and no two cases share a name.
   */
  lemma {:induction false} RegistrationPartitions(regs: seq<Registration>)
    ensures Partitions(Registered(regs), FirstSeen(regs), regs)
    ensures Distinct(Names(Registered(regs).cases))
  {
    if regs != [] {
      var before, reg := regs[..|regs| - 1], regs[|regs| - 1];
      RegistrationPartitions(before);
      assert before + [reg] == regs;
      RegistrationStep(Registered(before), before, reg);
      FirstSeenDistinct(regs);
      PartsDistinct(FirstSeen(regs));
    }
  }

  lemma RegistrationStep(r: Registry, regs: seq<Registration>, reg: Registration)
    requires WellShaped(r) && Partitions(r, FirstSeen(regs), regs)
    ensures var seen := Seeing(FirstSeen(regs), reg.testCase);
            Partitions(WithTest(r, reg.testCase, reg.test), seen, regs + [reg])
  {
    var seen := Seeing(FirstSeen(regs), reg.testCase);
    if reg.testCase !in FirstSeen(regs) { NoTestsUnseen(regs, reg.testCase); }
    CaseStep(r, FirstSeen(regs), regs, reg.testCase);
    FirstSeenDistinct(regs);
    PartsDistinct(seen);
    TestStep(WithCase(r, reg.testCase), seen, regs, reg);
  }

  /** The boundary separates the cases by name: those up to it are the ones the death test filter matches. */
  lemma BoundaryIsByName(regs: seq<Registration>, c: nat)
    requires c < |Registered(regs).cases|
    ensures c <= Registered(regs).lastDeath <==> IsDeathCase(Registered(regs).cases[c].name)
  {
    RegistrationPartitions(regs);
    var seen, name := FirstSeen(regs), Registered(regs).cases[c].name;
    assert Names(Registered(regs).cases)[c] == name;
    KeptMembers(seen, true, name);
    KeptMembers(seen, false, name);
  }
}
