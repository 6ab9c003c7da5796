/**
 * UnitTestImpl and TestCase with their fields: registration, filtering and
 * sharding, shuffling, running an iteration and restoring the order.
 */
module TestRegistry {
  import opened Wrappers
  import opened TestFilter
  import opened Shuffle
  import opened Sharding
  import opened TestOrder
  import opened TestRun

  class TestCase {
    var name: string
    var infos: seq<TestInfo>
    var indices: seq<int>
    var shouldRun: bool

    function View(): Case
      reads this
    {
      Case(name, infos, indices, shouldRun)
    }

    constructor (name: string)
      ensures View() == NewCase(name)
    {
      this.name, infos, indices, shouldRun := name, [], [], false;
    }

    method AddTestInfo(test: string)
      modifies this
      ensures View() == AddedTo(old(View()), test)
    {
      infos := infos + [NewTest(test)];
      indices := indices + [|indices|];
    }

    method ShuffleTests() returns (ghost draws: seq<nat>)
      modifies this`indices
      ensures AllDraws(draws, |old(indices)|)
      ensures View() == ShuffledCase(old(View()), draws)
    {
      indices, draws := ShuffleRange(0, |indices|, indices);
    }

    method UnshuffleTests()
      modifies this`indices
      ensures View() == UnshuffledCase(old(View()))
    {
      var i := 0;
      while i < |indices|
        invariant 0 <= i <= |indices| == |old(indices)|
        invariant forall k :: 0 <= k < i ==> indices[k] == k
      {
        indices := indices[i := i];
        i := i + 1;
      }
      assert indices == Identity(|indices|);
    }
  }

  /** GetElementOr(v, i, -1) */
  function GetElementOr(v: seq<int>, i: int): int {
    if i < 0 || i >= |v| then -1 else v[i]
  }

  ghost predicate AllDifferent(cases: seq<TestCase>) {
    forall i, j :: 0 <= i < j < |cases| ==> cases[i] != cases[j]
  }

  ghost function Views(cases: seq<TestCase>): (views: seq<Case>)
    reads cases
    ensures |views| == |cases| && forall i :: 0 <= i < |cases| ==> views[i] == cases[i].View()
  {
    seq(|cases|, i requires 0 <= i < |cases| reads cases => cases[i].View())
  }

  class UnitTestImpl {
    var cases: seq<TestCase>
    var caseIndices: seq<int>
    var lastDeathTestCase: int

    ghost predicate Valid()
      reads this, cases
    {
      AllDifferent(cases) && WellShaped(View())
    }

    ghost function View(): (r: Registry)
      reads this, cases
      ensures |r.cases| == |cases|
    {
      Registry(Views(cases), caseIndices, lastDeathTestCase)
    }

    constructor ()
      ensures Valid() && View() == EMPTY
    {
      cases, caseIndices, lastDeathTestCase := [], [], -1;
    }

    /** std::find_if over the names of the cases */
    method FindByName(name: string) returns (i: nat)
      requires Valid()
      ensures i == FindCase(View().cases, name)
    {
      ghost var r := View();
      i := 0;
      while i < |cases| && cases[i].name != name
        invariant 0 <= i <= |cases| && forall k :: 0 <= k < i ==> r.cases[k].name != name
      {
        i := i + 1;
      }
      assert i < |cases| ==> r.cases[i].name == name;
    }

    /** UnitTestImpl::GetTestCase, the registering one. */
    method GetTestCase(name: string) returns (testCase: TestCase)
      requires Valid()
      modifies this
      ensures Valid() && View() == WithCase(old(View()), name)
      ensures forall c <- cases :: c in old(cases) || fresh(c)
      ensures |cases| > FindCase(View().cases, name) && testCase == cases[FindCase(View().cases, name)]
    {
      var found := FindByName(name);
      if found < |cases| {
        return cases[found];
      }
      testCase := new TestCase(name);
      AddCase(testCase);
    }

    /** GetTestCase's part for a name not seen before. */
    method AddCase(testCase: TestCase)
      requires Valid() && testCase !in cases && testCase.View() == NewCase(testCase.name)
      requires FindCase(View().cases, testCase.name) == |cases|
      modifies this
      ensures Valid() && View() == WithCase(old(View()), testCase.name)
      ensures forall c <- cases :: c in old(cases) || c == testCase
      ensures FindCase(View().cases, testCase.name) < |cases| && testCase == cases[FindCase(View().cases, testCase.name)]
    {
      NewCaseFound(View(), testCase.name);
      var isDeath := MatchesFilter(testCase.name, DEATH_TEST_CASE_FILTER);
      if isDeath {
        AddDeathCase(testCase);
      } else {
        AddOtherCase(testCase);
      }
    }

    /** GetTestCase's branch for a new death test case: after the last one defined so far. */
    method AddDeathCase(testCase: TestCase)
      requires Valid() && testCase !in cases && testCase.View() == NewCase(testCase.name)
      requires IsDeathCase(testCase.name) && FindCase(View().cases, testCase.name) == |cases|
      modifies this
      ensures Valid() && View() == WithCase(old(View()), testCase.name)
      ensures (forall c <- cases :: c in old(cases) || c == testCase)
      ensures 0 <= old(lastDeathTestCase) + 1 < |cases| && cases[old(lastDeathTestCase) + 1] == testCase
    {
      ghost var r := View();
      lastDeathTestCase := lastDeathTestCase + 1;
      Insert(lastDeathTestCase, testCase, r.cases);
      caseIndices := caseIndices + [|caseIndices|];
      assert View() == WithCase(r, testCase.name);
    }

    /** GetTestCase's branch for any other new test case: at the end. */
    method AddOtherCase(testCase: TestCase)
      requires Valid() && testCase !in cases && testCase.View() == NewCase(testCase.name)
      requires !IsDeathCase(testCase.name) && FindCase(View().cases, testCase.name) == |cases|
      modifies this
      ensures Valid() && View() == WithCase(old(View()), testCase.name)
      ensures (forall c <- cases :: c in old(cases) || c == testCase)
      ensures |cases| == |old(cases)| + 1 && cases[|old(cases)|] == testCase
    {
      Insert(|cases|, testCase, View().cases);
      caseIndices := caseIndices + [|caseIndices|];
    }

    /** std::vector::insert; at the end it is push_back. */
    method Insert(at: nat, testCase: TestCase, ghost views: seq<Case>)
      requires AllDifferent(cases) && at <= |cases| && testCase !in cases && views == Views(cases)
      modifies this`cases
      ensures AllDifferent(cases) && (forall c <- cases :: c in old(cases) || c == testCase)
      ensures |cases| == |old(cases)| + 1 && cases[at] == testCase
      ensures Views(cases) == views[..at] + [testCase.View()] + views[at..]
      ensures at == |views| ==> Views(cases) == views + [testCase.View()]
    {
      cases := cases[..at] + [testCase] + cases[at..];
    }

    /** UnitTestImpl::AddTestInfo */
    method AddTestInfo(name: string, test: string)
      requires Valid()
      modifies this, cases
      ensures Valid() && View() == WithTest(old(View()), name, test)
      ensures forall c <- cases :: c in old(cases) || fresh(c)
    {
      var testCase := GetTestCase(name);
      ghost var r, i := View(), FindCase(View().cases, name);
      assert testCase in cases;
      testCase.AddTestInfo(test);
      assert View().cases == r.cases[i := AddedTo(r.cases[i], test)];
    }

    /** UnitTestImpl::GetMutableTestCase */
    function GetMutableTestCase(i: int): TestCase?
      requires forall k :: 0 <= k < |caseIndices| ==> caseIndices[k] < |cases|
      reads this
    {
      var index := GetElementOr(caseIndices, i);
      if index < 0 then null else cases[index]
    }

    /** UnitTestImpl::GetTestCase, the const one: it looks the index up and then does not use it. */
    function ConstGetTestCase(i: int): TestCase?
      requires |caseIndices| == |cases|
      reads this
    {
      var index := GetElementOr(caseIndices, i);
      if index < 0 then null else cases[i]
    }

    /** The two accessors agree exactly outside the vector and where the case at this place has not moved. */
    lemma ConstGetTestCaseAgreesAt(i: int)
      requires Valid() && Order(caseIndices)
      ensures ConstGetTestCase(i) == GetMutableTestCase(i) <==> !(0 <= i < |cases|) || caseIndices[i] == i
    {
      if 0 <= i < |cases| && caseIndices[i] != i {
        var c := caseIndices[i];
        assert cases[if c < i then c else i] != cases[if c < i then i else c];
      }
    }

    /** So the const accessor gives the running order exactly when nothing is shuffled. */
    lemma ConstGetTestCaseAgrees()
      requires Valid() && Order(caseIndices)
      ensures (forall i :: ConstGetTestCase(i) == GetMutableTestCase(i)) <==> InOrder(caseIndices)
    {
      forall i ensures ConstGetTestCase(i) == GetMutableTestCase(i) <==> !(0 <= i < |cases|) || caseIndices[i] == i {
        ConstGetTestCaseAgreesAt(i);
      }
      if !InOrder(caseIndices) {
        var i :| 0 <= i < |caseIndices| && caseIndices[i] != i;
        assert ConstGetTestCase(i) != GetMutableTestCase(i);
      }
    }

    /** Two ordinary cases, shuffled by drawing 0: the first to run is the second one, the const accessor says the first. */
    lemma ConstGetTestCaseExample()
      requires Valid() && |cases| == 2 && lastDeathTestCase == -1
      requires caseIndices == Shuffled([0, 1], 0, 2, [0])
      ensures AllDraws([0], 2) && Order(caseIndices)
      ensures GetMutableTestCase(0) == cases[1] && ConstGetTestCase(0) == cases[0] != cases[1]
    {
      assert [0][..0] == [];
      assert Shuffled([0, 1], 0, 2, []) == [0, 1];
      assert caseIndices == [1, 0];
    }

    /** UnitTestImpl::FilterTests; the count it returns is of the tests selected on this shard. */
    method FilterTests(x: Settings, shard: Option<Shard>) returns (count: nat)
      requires Valid() && ValidShard(shard)
      modifies cases
      ensures Valid()
      ensures View() == FilteredRegistry(x, shard, old(View()))
      ensures count == SelectedUpTo(shard, RunnableAmong(x, old(View()).cases))
    {
      ghost var r := View();
      count := FilterEachCase(x, shard);
      assert View().cases == FilteredRegistry(x, shard, r).cases;
    }

    /** The outer loop of FilterTests. */
    method FilterEachCase(x: Settings, shard: Option<Shard>) returns (count: nat)
      requires AllDifferent(cases) && ValidShard(shard)
      modifies cases
      ensures forall k :: 0 <= k < |cases| ==> Views(cases)[k] == Filtered(x, shard, old(Views(cases)), k)
      ensures count == SelectedUpTo(shard, RunnableAmong(x, old(Views(cases))))
    {
      ghost var was := Views(cases);
      var runnable := 0;
      count := 0;
      for i := 0 to |cases|
        invariant runnable == RunnableAmong(x, was[..i]) && count == SelectedUpTo(shard, runnable)
        invariant FilteredUpTo(Views(cases), x, shard, was, i)
      {
        ghost var views := Views(cases);
        runnable, count := FilterAt(i, x, shard, was, runnable, count);
        OneMoreFiltered(views, x, shard, was, i);
      }
      assert was[..|cases|] == was;
    }

    /** One turn of the outer loop. */
    method FilterAt(i: nat, x: Settings, shard: Option<Shard>, ghost was: seq<Case>, runnable: nat, selected: nat)
      returns (runnable': nat, selected': nat)
      requires AllDifferent(cases) && ValidShard(shard) && i < |cases| == |was| && Views(cases)[i] == was[i]
      requires runnable == RunnableAmong(x, was[..i]) && selected == SelectedUpTo(shard, runnable)
      modifies cases[i]
      ensures Views(cases) == old(Views(cases))[i := Filtered(x, shard, was, i)]
      ensures runnable' == RunnableAmong(x, was[..i + 1]) && selected' == SelectedUpTo(shard, runnable')
    {
      OneMoreCase(x, was, i);
      runnable', selected' := FilterCase(cases[i], x, shard, was, i, runnable, selected);
    }

    /** UnitTestImpl::ShuffleTests */
    method ShuffleTests() returns (ghost draws: TestDraws)
      requires Valid()
      modifies this`caseIndices, cases
      ensures Valid() && DrawsFor(draws, old(View())) && View() == ShuffledRegistry(old(View()), draws)
    {
      ghost var r := View();
      ghost var deaths, others := ShuffleCaseIndices();
      assert Views(cases) == r.cases;
      ghost var tests := ShuffleEachCase();
      draws := TestDraws(deaths, others, tests);
      ShuffledIs(r, draws, Views(cases), caseIndices);
    }

    /** The death test cases first, and then the others. */
    method ShuffleCaseIndices() returns (ghost deaths: seq<nat>, ghost others: seq<nat>)
      requires |caseIndices| == |cases| && 0 <= lastDeathTestCase + 1 <= |cases|
      modifies this`caseIndices
      ensures AllDraws(deaths, lastDeathTestCase + 1) && AllDraws(others, |cases| - (lastDeathTestCase + 1))
      ensures caseIndices == Shuffled(Shuffled(old(caseIndices), 0, lastDeathTestCase + 1, deaths),
                                      lastDeathTestCase + 1, |cases| - (lastDeathTestCase + 1), others)
    {
      var deathCases, all := lastDeathTestCase + 1, |cases|;
      caseIndices, deaths := ShuffleRange(0, deathCases, caseIndices);
      caseIndices, others := ShuffleRange(deathCases, all, caseIndices);
    }

    /** The loop of ShuffleTests over the test cases. */
    method ShuffleEachCase() returns (ghost tests: seq<seq<nat>>)
      requires AllDifferent(cases)
      modifies cases
      ensures |tests| == |cases|
      ensures forall k :: 0 <= k < |cases| ==>
                AllDraws(tests[k], |old(Views(cases))[k].indices|) && Views(cases)[k] == ShuffledCase(old(Views(cases))[k], tests[k])
    {
      ghost var was := Views(cases);
      tests := [];
      for i := 0 to |cases|
        invariant |tests| == i
        invariant forall k :: 0 <= k < i ==>
                    AllDraws(tests[k], |was[k].indices|) && cases[k].View() == ShuffledCase(was[k], tests[k])
        invariant forall k :: i <= k < |cases| ==> cases[k].View() == was[k]
      {
        ghost var drawn := cases[i].ShuffleTests();
        tests := tests + [drawn];
      }
    }

    /** UnitTestImpl::UnshuffleTests */
    method UnshuffleTests()
      requires Valid()
      modifies this`caseIndices, cases
      ensures Valid() && View() == UnshuffledRegistry(old(View()))
    {
      ghost var r := View();
      for i := 0 to |cases|
        invariant |caseIndices| == |cases| && forall k :: 0 <= k < i ==> caseIndices[k] == k
        invariant forall k :: 0 <= k < i ==> cases[k].View() == UnshuffledCase(r.cases[k])
        invariant forall k :: i <= k < |cases| ==> cases[k].View() == r.cases[k]
      {
        cases[i].UnshuffleTests();
        caseIndices := caseIndices[i := i];
      }
      assert caseIndices == Identity(|cases|);
      assert View().cases == UnshuffledRegistry(r).cases;
    }

    /** TestCase::Run with TestInfo::Run; the log names the tests that ran by the place `c` of the case. */
    method RunTestCase(testCase: TestCase, c: int) returns (log: seq<Test>)
      requires Valid() && Sound(View()) && 0 <= c < |cases| && testCase == cases[c]
      ensures log == CaseRun(View(), c)
    {
      ghost var r := View();
      if !testCase.shouldRun { return []; }
      log := [];
      for j := 0 to |testCase.infos|
        invariant log == RanInCase(r, c, j)
      {
        var k := GetElementOr(testCase.indices, j);
        if testCase.infos[k].shouldRun {
          log := log + [Test(c, k)];
        }
      }
    }

    /** The loop over the test cases in RunAllTests. */
    method RunCases() returns (log: seq<Test>)
      requires Valid() && Sound(View())
      ensures log == RunOrder(View(), |cases|)
    {
      ghost var r := View();
      log := [];
      for i := 0 to |cases|
        invariant log == RunOrder(r, i)
      {
        var ran := RunTestCase(GetMutableTestCase(i), GetElementOr(caseIndices, i));
        log := log + ran;
      }
    }

    /**
     * The repetitions of RunAllTests after filtering: `rounds` of them, which are all for a repeat count
     * that is not negative, and any number of first ones for a negative count, which repeats for ever.
     * `setUpFails` says in which iterations the global set-up has a fatal failure.
     */
    method RunIterations(repeat: int, shuffle: bool, hasTestsToRun: bool, rounds: nat, setUpFails: seq<bool>)
      returns (logs: seq<seq<Test>>, ghost draws: seq<TestDraws>)
      requires Valid() && Unshuffled(View()) && CasesFollowTests(View())
      requires |setUpFails| == rounds && (repeat >= 0 ==> rounds == repeat)
      modifies this`caseIndices, cases
      ensures Valid() && View() == old(View())
      ensures |logs| == |draws| == rounds && forall i :: 0 <= i < rounds ==>
                if hasTestsToRun && !setUpFails[i] then IsIterationBy(old(View()), shuffle, draws[i], logs[i]) else logs[i] == []
    {
      ghost var r := View();
      logs, draws := [], [];
      var forever := repeat < 0;
      var i := 0;
      while (forever || i != repeat) && i < rounds
        invariant 0 <= i <= rounds
        invariant Valid() && View() == r && cases == old(cases) && |logs| == |draws| == i
        invariant forall k :: 0 <= k < i ==>
                    if hasTestsToRun && !setUpFails[k] then IsIterationBy(r, shuffle, draws[k], logs[k]) else logs[k] == []
      {
        var log;
        ghost var drawn;
        log, drawn := RunIteration(shuffle, hasTestsToRun, setUpFails[i]);
        logs, draws := logs + [log], draws + [drawn];
        i := i + 1;
      }
    }

    /**
     * UnitTestImpl::RunAllTests: select, then repeat, once in the child of a threadsafe death test. In every
     * iteration whose global set-up succeeds each selected test runs exactly once, death tests first, and the
     * rest of the order is that of registration, or the shuffled one.
     */
    method RunAllTests(x: Settings, shard: Option<Shard>, inDeathTestChild: bool, repeat: int, shuffle: bool,
                       rounds: nat, setUpFails: seq<bool>)
      returns (logs: seq<seq<Test>>, ghost draws: seq<TestDraws>)
      requires Valid() && Unshuffled(View()) && ValidShard(shard) && |setUpFails| == rounds
      requires inDeathTestChild ==> rounds == 1
      requires !inDeathTestChild && repeat >= 0 ==> rounds == repeat
      modifies this`caseIndices, cases
      ensures Valid() && View() == FilteredRegistry(x, if inDeathTestChild then None else shard, old(View()))
      ensures |logs| == |draws| == rounds
      ensures forall i :: 0 <= i < rounds ==> if setUpFails[i] then logs[i] == [] else IsIteration(View(), logs[i])
      ensures forall i :: 0 <= i < rounds && logs[i] != [] ==> InRunningOrder(View(), shuffle, draws[i], logs[i])
    {
      ghost var r := View();
      var sharding := if inDeathTestChild then None else shard;
      FilteringMarksCases(x, sharding, r);
      var count := FilterTests(x, sharding);
      logs, draws := RunIterations(if inDeathTestChild then 1 else repeat, shuffle, count > 0, rounds, setUpFails);
      if count == 0 {
        NothingToRun(x, sharding, r);
      }
    }

    /** One repetition: shuffle if asked to, run, restore the order. */
    method RunIteration(shuffle: bool, hasTestsToRun: bool, setUpFails: bool) returns (log: seq<Test>, ghost draws: TestDraws)
      requires Valid() && Unshuffled(View()) && CasesFollowTests(View())
      modifies this`caseIndices, cases
      ensures Valid() && View() == old(View())
      ensures if hasTestsToRun && !setUpFails then IsIterationBy(old(View()), shuffle, draws, log) else log == []
    {
      ghost var r := View();
      draws := TestDraws([], [], []);
      UnshuffledIsSound(r);
      if hasTestsToRun && shuffle {
        draws := ShuffleTests();
        ShuffleKeepsSound(r, draws);
        UnshuffleUndoesShuffle(r, draws);
      } else {
        UnshuffledStays(r);
        UnshuffledRunsInOrder(r, |r.cases|);
      }
      log := RunAndRestore(hasTestsToRun && !setUpFails, r);
    }

    /** Running the tests in the order they now have, and restoring registration order `r`. */
    method RunAndRestore(run: bool, ghost r: Registry) returns (log: seq<Test>)
      requires Valid() && Sound(View()) && SameTests(r, View()) && CasesFollowTests(r) && UnshuffledRegistry(View()) == r
      modifies this`caseIndices, cases
      ensures Valid() && View() == r
      ensures log == if run then RunOrder(old(View()), |r.cases|) else []
      ensures run ==> IsIteration(r, log)
    {
      log := [];
      if run {
        log := RunCases();
        IterationOf(r, View());
      }
      UnshuffleTests();
    }
  }

  /** What FilterTests finds out about one test before sharding. */
  method Examine(x: Settings, testCase: string, test: string)
    returns (isDisabled: bool, matchesFilter: bool, isRunnable: bool)
    ensures isDisabled <==> Disabled(testCase, test)
    ensures matchesFilter <==> Selects(x.filter, testCase, test)
    ensures isRunnable <==> Runnable(x, testCase, test)
  {
    isDisabled := MatchesFilter(testCase, DISABLE_TEST_FILTER);
    if !isDisabled {
      isDisabled := MatchesFilter(test, DISABLE_TEST_FILTER);
    }
    matchesFilter := FilterMatchesTest(x.filter, testCase, test);
    isRunnable := (x.alsoRunDisabled || !isDisabled) && matchesFilter;
  }

  /** One turn of the inner loop of FilterTests: test `j` of the `c`-th case. */
  method FilterTest(testCase: TestCase, j: nat, x: Settings, shard: Option<Shard>,
                    ghost cases: seq<Case>, ghost c: nat, runnable: nat, selected: nat) returns (runnable': nat, selected': nat)
    requires ValidShard(shard) && c < |cases| && j < |cases[c].infos| == |testCase.infos|
    requires testCase.name == cases[c].name && testCase.infos[j] == cases[c].infos[j]
    requires runnable == Rank(x, cases, c, j) && selected == SelectedUpTo(shard, runnable)
    modifies testCase`infos, testCase`shouldRun
    ensures testCase.View() == WithMarked(old(testCase.View()), x, shard, cases, c, j)
    ensures runnable' == Rank(x, cases, c, j + 1) && selected' == SelectedUpTo(shard, runnable')
  {
    var test := testCase.infos[j].name;
    var isDisabled, matchesFilter, isRunnable := Examine(x, testCase.name, test);
    var isSelected := isRunnable &&
      (shard.None? || ShouldRunTestOnShard(shard.value.total, shard.value.index, runnable));
    OneMoreInCase(x, shard, cases, c, j);
    runnable' := runnable + if isRunnable then 1 else 0;
    selected' := selected + if isSelected then 1 else 0;
    testCase.infos := testCase.infos[j := TestInfo(test, isDisabled, matchesFilter, isSelected)];
    testCase.shouldRun := testCase.shouldRun || isSelected;
  }

  /** The inner loop of FilterTests, over the tests of the `c`-th case. */
  method FilterCase(testCase: TestCase, x: Settings, shard: Option<Shard>,
                    ghost cases: seq<Case>, ghost c: nat, runnable: nat, selected: nat) returns (runnable': nat, selected': nat)
    requires ValidShard(shard) && c < |cases| && testCase.View() == cases[c]
    requires runnable == RunnableAmong(x, cases[..c]) && selected == SelectedUpTo(shard, runnable)
    modifies testCase
    ensures testCase.View() == Filtered(x, shard, cases, c)
    ensures runnable' == runnable + RunnableIn(x, cases[c].name, cases[c].infos)
    ensures selected' == SelectedUpTo(shard, runnable')
  {
    RankEnds(x, cases, c);
    runnable', selected' := runnable, selected;
    testCase.shouldRun := false;
    for j := 0 to |testCase.infos|
      invariant |testCase.infos| == |cases[c].infos|
      invariant runnable' == Rank(x, cases, c, j) && selected' == SelectedUpTo(shard, runnable')
      invariant PartlyFiltered(testCase.View(), x, shard, cases, c, j)
    {
      ghost var d := testCase.View();
      PartlyFilteredNext(d, x, shard, cases, c, j);
      runnable', selected' := FilterTest(testCase, j, x, shard, cases, c, runnable', selected');
    }
    AllFiltered(testCase.View(), x, shard, cases, c);
  }
}
