/** Which tests are selected to run, and the order one iteration runs them in. */
module TestRun {
  import opened Wrappers
  import opened TestFilter
  import opened Shuffle
  import opened Sharding
  import opened TestOrder

  // ----- Selecting -----

  datatype Settings = Settings(filter: string, alsoRunDisabled: bool)

  ghost predicate Disabled(testCase: string, test: string) {
    InFilter(testCase, DISABLE_TEST_FILTER) || InFilter(test, DISABLE_TEST_FILTER)
  }

  ghost predicate Runnable(x: Settings, testCase: string, test: string) {
    (x.alsoRunDisabled || !Disabled(testCase, test)) && Selects(x.filter, testCase, test)
  }

  ghost function RunnableIn(x: Settings, testCase: string, infos: seq<TestInfo>): nat {
    if infos == [] then 0 else
    var n := |infos| - 1;
    RunnableIn(x, testCase, infos[..n]) + if Runnable(x, testCase, infos[n].name) then 1 else 0
  }

  ghost function RunnableAmong(x: Settings, cases: seq<Case>): nat {
    if cases == [] then 0 else
    var n := |cases| - 1;
    RunnableAmong(x, cases[..n]) + RunnableIn(x, cases[n].name, cases[n].infos)
  }

  lemma OneMoreCase(x: Settings, cases: seq<Case>, c: nat)
    requires c < |cases|
    ensures RunnableAmong(x, cases[..c + 1]) == RunnableAmong(x, cases[..c]) + RunnableIn(x, cases[c].name, cases[c].infos)
  {
    assert cases[..c + 1][..c] == cases[..c];
  }

  /** The number of runnable tests before test `k` of case `c`, over all cases in registration order. */
  ghost function Rank(x: Settings, cases: seq<Case>, c: nat, k: nat): nat
    requires c < |cases| && k <= |cases[c].infos|
  {
    RunnableAmong(x, cases[..c]) + RunnableIn(x, cases[c].name, cases[c].infos[..k])
  }

  ghost predicate Selected(x: Settings, shard: Option<Shard>, cases: seq<Case>, c: nat, k: nat)
    requires ValidShard(shard) && c < |cases| && k < |cases[c].infos|
  {
    Runnable(x, cases[c].name, cases[c].infos[k].name) && OnShard(shard, Rank(x, cases, c, k))
  }

  ghost function Marked(x: Settings, shard: Option<Shard>, cases: seq<Case>, c: nat, k: nat): TestInfo
    requires ValidShard(shard) && c < |cases| && k < |cases[c].infos|
  {
    var test := cases[c].infos[k].name;
    TestInfo(test, Disabled(cases[c].name, test), Selects(x.filter, cases[c].name, test), Selected(x, shard, cases, c, k))
  }

  /** What FilterTests leaves a case as. */
  ghost function Filtered(x: Settings, shard: Option<Shard>, cases: seq<Case>, c: nat): (d: Case)
    requires ValidShard(shard) && c < |cases|
    ensures |d.infos| == |cases[c].infos|
  {
    cases[c].(infos := seq(|cases[c].infos|, k requires 0 <= k < |cases[c].infos| => Marked(x, shard, cases, c, k)),
              shouldRun := exists k :: 0 <= k < |cases[c].infos| && Selected(x, shard, cases, c, k))
  }

  /** A case of which the first j tests have been filtered. */
  ghost predicate PartlyFiltered(d: Case, x: Settings, shard: Option<Shard>, cases: seq<Case>, c: nat, j: nat)
    requires ValidShard(shard) && c < |cases| && j <= |cases[c].infos|
  {
    && d.name == cases[c].name && d.indices == cases[c].indices && |d.infos| == |cases[c].infos|
    && (forall k :: 0 <= k < j ==> d.infos[k] == Marked(x, shard, cases, c, k))
    && (forall k :: j <= k < |d.infos| ==> d.infos[k] == cases[c].infos[k])
    && (d.shouldRun <==> exists k :: 0 <= k < j && Selected(x, shard, cases, c, k))
  }

  /** What one turn of the inner loop of FilterTests makes of a case. */
  ghost function WithMarked(d: Case, x: Settings, shard: Option<Shard>, cases: seq<Case>, c: nat, j: nat): Case
    requires ValidShard(shard) && c < |cases| && j < |cases[c].infos| == |d.infos|
  {
    d.(infos := d.infos[j := Marked(x, shard, cases, c, j)], shouldRun := d.shouldRun || Selected(x, shard, cases, c, j))
  }

  lemma PartlyFilteredNext(d: Case, x: Settings, shard: Option<Shard>, cases: seq<Case>, c: nat, j: nat)
    requires ValidShard(shard) && c < |cases| && j < |cases[c].infos| && PartlyFiltered(d, x, shard, cases, c, j)
    ensures PartlyFiltered(WithMarked(d, x, shard, cases, c, j), x, shard, cases, c, j + 1)
  {
  }

  lemma AllFiltered(d: Case, x: Settings, shard: Option<Shard>, cases: seq<Case>, c: nat)
    requires ValidShard(shard) && c < |cases| && PartlyFiltered(d, x, shard, cases, c, |cases[c].infos|)
    ensures d == Filtered(x, shard, cases, c)
  {
    assert d.infos == Filtered(x, shard, cases, c).infos;
  }

  /** The cases of which the first i have been filtered. */
  ghost predicate FilteredUpTo(cases: seq<Case>, x: Settings, shard: Option<Shard>, was: seq<Case>, i: nat)
    requires ValidShard(shard) && i <= |was|
  {
    && |cases| == |was|
    && (forall k :: 0 <= k < i ==> cases[k] == Filtered(x, shard, was, k))
    && (forall k :: i <= k < |was| ==> cases[k] == was[k])
  }

  lemma OneMoreFiltered(cases: seq<Case>, x: Settings, shard: Option<Shard>, was: seq<Case>, i: nat)
    requires ValidShard(shard) && i < |was| && FilteredUpTo(cases, x, shard, was, i)
    ensures FilteredUpTo(cases[i := Filtered(x, shard, was, i)], x, shard, was, i + 1)
  {
  }

  lemma RankEnds(x: Settings, cases: seq<Case>, c: nat)
    requires c < |cases|
    ensures Rank(x, cases, c, 0) == RunnableAmong(x, cases[..c])
    ensures Rank(x, cases, c, |cases[c].infos|) == RunnableAmong(x, cases[..c]) + RunnableIn(x, cases[c].name, cases[c].infos)
  {
    assert cases[c].infos[..0] == [] && cases[c].infos[..|cases[c].infos|] == cases[c].infos;
  }

  ghost function FilteredRegistry(x: Settings, shard: Option<Shard>, r: Registry): (r': Registry)
    requires ValidShard(shard)
    ensures |r'.cases| == |r.cases|
  {
    r.(cases := seq(|r.cases|, c requires 0 <= c < |r.cases| => Filtered(x, shard, r.cases, c)))
  }

  /** The name of a test or test case that is disabled. */
  predicate IsDisabledName(name: string) { "DISABLED_" <= name || Contains(name, "/DISABLED_") }

  /** What FilterTests records of each test, by its names, the filter and its turn among the runnable ones. */
  lemma WhatIsMarked(x: Settings, shard: Option<Shard>, r: Registry, c: nat, k: nat)
    requires ValidShard(shard) && c < |r.cases| && k < |r.cases[c].infos|
    ensures var marked, name := FilteredRegistry(x, shard, r).cases[c].infos[k], r.cases[c].infos[k].name;
            && marked.name == name
            && (marked.isDisabled <==> IsDisabledName(r.cases[c].name) || IsDisabledName(name))
            && (marked.matchesFilter <==> Selects(x.filter, r.cases[c].name, name))
            && (marked.shouldRun <==>
                  && (x.alsoRunDisabled || !(IsDisabledName(r.cases[c].name) || IsDisabledName(name)))
                  && Selects(x.filter, r.cases[c].name, name) && OnShard(shard, Rank(x, r.cases, c, k)))
  {
    DisabledNames(r.cases[c].name);
    DisabledNames(r.cases[c].infos[k].name);
    var marked := FilteredRegistry(x, shard, r).cases[c];
    assert marked.infos[k] == Marked(x, shard, r.cases, c, k);
  }

  /** And of each case; nothing else changes. */
  lemma WhatElseIsMarked(x: Settings, shard: Option<Shard>, r: Registry, c: nat)
    requires ValidShard(shard) && c < |r.cases|
    ensures var filtered := FilteredRegistry(x, shard, r);
            var marked := filtered.cases[c];
            && filtered.indices == r.indices && filtered.lastDeath == r.lastDeath && |filtered.cases| == |r.cases|
            && marked.name == r.cases[c].name && marked.indices == r.cases[c].indices && |marked.infos| == |r.cases[c].infos|
            && (marked.shouldRun <==> exists k :: 0 <= k < |marked.infos| && marked.infos[k].shouldRun)
  {
    var marked := FilteredRegistry(x, shard, r).cases[c];
    forall k | 0 <= k < |marked.infos| ensures marked.infos[k].shouldRun <==> Selected(x, shard, r.cases, c, k) {
      MarkedRuns(x, shard, r.cases, c, k);
    }
  }

  /** Every runnable test is selected by exactly one shard. */
  lemma OneShardSelects(x: Settings, total: nat, cases: seq<Case>, c: nat, k: nat)
    requires total > 0 && c < |cases| && k < |cases[c].infos|
    requires Runnable(x, cases[c].name, cases[c].infos[k].name)
    ensures exists i :: 0 <= i < total && Selected(x, Some(Shard(total, i)), cases, c, k)
    ensures forall i, j | 0 <= i < total && 0 <= j < total ::
              (Selected(x, Some(Shard(total, i)), cases, c, k) && Selected(x, Some(Shard(total, j)), cases, c, k) ==> i == j)
  {
    var rank := Rank(x, cases, c, k);
    ExactlyOneShard(total, rank);
    var i :| 0 <= i < total && OnShard(Some(Shard(total, i)), rank);
    assert Selected(x, Some(Shard(total, i)), cases, c, k);
  }

  function Running(infos: seq<TestInfo>): nat {
    if infos == [] then 0 else Running(infos[..|infos| - 1]) + if infos[|infos| - 1].shouldRun then 1 else 0
  }

  function RunningAmong(cases: seq<Case>): nat {
    if cases == [] then 0 else RunningAmong(cases[..|cases| - 1]) + Running(cases[|cases| - 1].infos)
  }

  lemma OneMoreInCase(x: Settings, shard: Option<Shard>, cases: seq<Case>, c: nat, k: nat)
    requires ValidShard(shard) && c < |cases| && k < |cases[c].infos|
    ensures var runnable := Runnable(x, cases[c].name, cases[c].infos[k].name);
            && Rank(x, cases, c, k + 1) == Rank(x, cases, c, k) + (if runnable then 1 else 0)
            && SelectedUpTo(shard, Rank(x, cases, c, k + 1))
               == SelectedUpTo(shard, Rank(x, cases, c, k)) + (if Selected(x, shard, cases, c, k) then 1 else 0)
  {
    var infos := cases[c].infos;
    assert infos[..k + 1][..k] == infos[..k];
  }

  lemma OneMoreRunning(infos: seq<TestInfo>, k: nat)
    requires 0 < k <= |infos|
    ensures Running(infos[..k]) == Running(infos[..k - 1]) + if infos[k - 1].shouldRun then 1 else 0
  {
    assert infos[..k][..k - 1] == infos[..k - 1];
  }

  lemma MarkedRuns(x: Settings, shard: Option<Shard>, cases: seq<Case>, c: nat, k: nat)
    requires ValidShard(shard) && c < |cases| && k < |cases[c].infos|
    ensures Filtered(x, shard, cases, c).infos[k].shouldRun <==> Selected(x, shard, cases, c, k)
  {
    assert Filtered(x, shard, cases, c).infos[k] == Marked(x, shard, cases, c, k);
  }

  lemma {:induction false} RunningInCase(x: Settings, shard: Option<Shard>, cases: seq<Case>, c: nat, k: nat)
    requires ValidShard(shard) && c < |cases| && k <= |cases[c].infos|
    ensures SelectedUpTo(shard, Rank(x, cases, c, k)) ==
            SelectedUpTo(shard, RunnableAmong(x, cases[..c])) + Running(Filtered(x, shard, cases, c).infos[..k])
  {
    if k > 0 {
      RunningInCase(x, shard, cases, c, k - 1);
      OneMoreInCase(x, shard, cases, c, k - 1);
      OneMoreRunning(Filtered(x, shard, cases, c).infos, k);
      MarkedRuns(x, shard, cases, c, k - 1);
    } else {
      assert cases[c].infos[..0] == [];
    }
  }

  lemma OneMoreCaseRunning(cases: seq<Case>, c: nat)
    requires c < |cases|
    ensures RunningAmong(cases[..c + 1]) == RunningAmong(cases[..c]) + Running(cases[c].infos)
  {
    assert cases[..c + 1][..c] == cases[..c];
  }

  lemma RunningInWholeCase(x: Settings, shard: Option<Shard>, cases: seq<Case>, c: nat)
    requires ValidShard(shard) && c < |cases|
    ensures SelectedUpTo(shard, RunnableAmong(x, cases[..c + 1])) ==
            SelectedUpTo(shard, RunnableAmong(x, cases[..c])) + Running(Filtered(x, shard, cases, c).infos)
  {
    var n := |cases[c].infos|;
    RunningInCase(x, shard, cases, c, n);
    OneMoreCase(x, cases, c);
    assert cases[c].infos[..n] == cases[c].infos && Filtered(x, shard, cases, c).infos[..n] == Filtered(x, shard, cases, c).infos;
  }

  /** The count FilterTests returns is the number of tests it marks to run. */
  lemma {:induction false} SelectedCount(x: Settings, shard: Option<Shard>, r: Registry, n: nat)
    requires ValidShard(shard) && n <= |r.cases|
    ensures RunningAmong(FilteredRegistry(x, shard, r).cases[..n]) == SelectedUpTo(shard, RunnableAmong(x, r.cases[..n]))
  {
    if n > 0 {
      SelectedCount(x, shard, r, n - 1);
      OneMoreCaseRunning(FilteredRegistry(x, shard, r).cases, n - 1);
      RunningInWholeCase(x, shard, r.cases, n - 1);
    }
  }

  /** Over all shards the selected counts add up to the number of runnable tests, and differ by at most one. */
  lemma ShardsShareTheTests(x: Settings, total: nat, r: Registry)
    requires total > 0
    ensures forall i | 0 <= i < total ::
              RunningAmong(FilteredRegistry(x, Some(Shard(total, i)), r).cases)
              == SelectedUpTo(Some(Shard(total, i)), RunnableAmong(x, r.cases))
    ensures SumOfShards(total, total, RunnableAmong(x, r.cases)) == RunnableAmong(x, r.cases)
    ensures forall i, j | 0 <= i < total && 0 <= j < total ::
              RunningAmong(FilteredRegistry(x, Some(Shard(total, i)), r).cases)
              <= RunningAmong(FilteredRegistry(x, Some(Shard(total, j)), r).cases) + 1
  {
    forall i | 0 <= i < total
      ensures RunningAmong(FilteredRegistry(x, Some(Shard(total, i)), r).cases)
              == SelectedUpTo(Some(Shard(total, i)), RunnableAmong(x, r.cases))
    {
      SelectedCount(x, Some(Shard(total, i)), r, |r.cases|);
      var filtered := FilteredRegistry(x, Some(Shard(total, i)), r).cases;
      assert filtered[..|r.cases|] == filtered && r.cases[..|r.cases|] == r.cases;
    }
    ShardsPartitionTheTests(total, RunnableAmong(x, r.cases));
  }

  // ----- Shuffling -----

  /** Death test cases come first in the running order. */
  predicate DeathFirst(r: Registry) {
    forall k :: 0 <= k < |r.indices| ==> (k <= r.lastDeath <==> r.indices[k] <= r.lastDeath)
  }

  predicate Sound(r: Registry) {
    && WellShaped(r) && Order(r.indices) && DeathFirst(r)
    && forall i :: 0 <= i < |r.cases| ==> Order(r.cases[i].indices)
  }

  /** The random numbers of one ShuffleTests: for the death cases, for the others, for each case's tests. */
  datatype TestDraws = TestDraws(deaths: seq<nat>, others: seq<nat>, tests: seq<seq<nat>>)

  predicate DrawsFor(d: TestDraws, r: Registry)
    requires WellShaped(r)
  {
    && AllDraws(d.deaths, r.lastDeath + 1)
    && AllDraws(d.others, |r.cases| - (r.lastDeath + 1))
    && |d.tests| == |r.cases|
    && forall i :: 0 <= i < |r.cases| ==> AllDraws(d.tests[i], |r.cases[i].indices|)
  }

  function ShuffledCase(c: Case, draws: seq<nat>): Case
    requires AllDraws(draws, |c.indices|)
  {
    c.(indices := Shuffled(c.indices, 0, |c.indices|, draws))
  }

  function ShuffledRegistry(r: Registry, d: TestDraws): (r': Registry)
    requires WellShaped(r) && DrawsFor(d, r)
    ensures WellShaped(r')
  {
    var deaths := r.lastDeath + 1;
    r.(cases := seq(|r.cases|, i requires 0 <= i < |r.cases| => ShuffledCase(r.cases[i], d.tests[i])),
       indices := Shuffled(Shuffled(r.indices, 0, deaths, d.deaths), deaths, |r.cases| - deaths, d.others))
  }

  lemma ShuffledIs(r: Registry, d: TestDraws, cases: seq<Case>, indices: seq<int>)
    requires WellShaped(r) && DrawsFor(d, r) && |cases| == |r.cases|
    requires forall i :: 0 <= i < |cases| ==> cases[i] == ShuffledCase(r.cases[i], d.tests[i])
    requires indices == ShuffledRegistry(r, d).indices
    ensures Registry(cases, indices, r.lastDeath) == ShuffledRegistry(r, d)
  {
    assert cases == ShuffledRegistry(r, d).cases;
  }

  lemma UnshuffledIsSound(r: Registry)
    requires WellShaped(r) && Unshuffled(r)
    ensures Sound(r)
  {
  }

  /** For every outcome of the random numbers, both levels stay permutations and death cases stay first. */
  lemma ShuffleKeepsSound(r: Registry, d: TestDraws)
    requires Sound(r) && DrawsFor(d, r)
    ensures Sound(ShuffledRegistry(r, d))
  {
    var r' := ShuffledRegistry(r, d);
    ShuffleKeepsDeathFirst(r.indices, r.lastDeath + 1, d.deaths, d.others);
    forall i | 0 <= i < |r.cases| ensures Order(r'.cases[i].indices) {
      ShuffleKeepsOrder(r.cases[i].indices, 0, |r.cases[i].indices|, d.tests[i]);
    }
  }

  lemma ShuffleKeepsDeathFirst(s: seq<int>, deaths: nat, first: seq<nat>, second: seq<nat>)
    requires Order(s) && deaths <= |s| && Draws(first, deaths) && Draws(second, |s| - deaths)
    requires forall k :: 0 <= k < |s| ==> (k < deaths <==> s[k] < deaths)
    ensures var t := Shuffled(Shuffled(s, 0, deaths, first), deaths, |s| - deaths, second);
            Order(t) && forall k :: 0 <= k < |s| ==> (k < deaths <==> t[k] < deaths)
  {
    var half := Shuffled(s, 0, deaths, first);
    ShuffleRearranges(s, 0, deaths, first);
    ShuffleKeepsOrder(s, 0, deaths, first);
    ShuffleRearranges(half, deaths, |s| - deaths, second);
    ShuffleKeepsOrder(half, deaths, |s| - deaths, second);
  }

  /** The first part of the target, and behind it what is still in order. */
  function HalfWay(s: seq<int>, deaths: nat, target: seq<int>): (half: seq<int>)
    requires |s| == |target| && deaths <= |s|
    ensures |half| == |s| && forall k :: 0 <= k < |s| ==> half[k] == if k < deaths then target[k] else s[k]
  {
    target[..deaths] + s[deaths..]
  }

  predicate DeathsFirst(s: seq<int>, deaths: nat) { forall k :: 0 <= k < |s| ==> (k < deaths <==> s[k] < deaths) }

  lemma HalfWayIsReachable(s: seq<int>, deaths: nat, target: seq<int>)
    requires InOrder(s) && Order(target) && |s| == |target| && deaths <= |s| && DeathsFirst(target, deaths)
    ensures Reachable(s, 0, deaths, HalfWay(s, deaths, target))
  {
    var half := HalfWay(s, deaths, target);
    forall k | 0 <= k < deaths ensures Has(s, 0, deaths, half[k]) {
      assert half[k] == target[k] == s[target[k]];
    }
  }

  lemma TargetIsReachable(s: seq<int>, deaths: nat, target: seq<int>)
    requires InOrder(s) && Order(target) && |s| == |target| && deaths <= |s| && DeathsFirst(target, deaths)
    ensures Reachable(HalfWay(s, deaths, target), deaths, |s| - deaths, target)
  {
    var half := HalfWay(s, deaths, target);
    forall k | deaths <= k < |s| ensures Has(half, deaths, |s|, target[k]) {
      assert half[target[k]] == s[target[k]] == target[k];
    }
  }

  lemma TwoShuffles(s: seq<int>, deaths: nat, half: seq<int>, target: seq<int>) returns (first: seq<nat>, second: seq<nat>)
    requires deaths <= |s| && Reachable(s, 0, deaths, half) && Reachable(half, deaths, |s| - deaths, target)
    ensures AllDraws(first, deaths) && AllDraws(second, |s| - deaths)
    ensures Shuffled(Shuffled(s, 0, deaths, first), deaths, |s| - deaths, second) == target
  {
    first := SomeDrawsReach(s, 0, deaths, half);
    second := SomeDrawsReach(half, deaths, |s| - deaths, target);
  }

  /** The cases in order can be brought into every order that has the death cases first. */
  lemma EveryCaseOrderPossible(s: seq<int>, deaths: nat, target: seq<int>) returns (first: seq<nat>, second: seq<nat>)
    requires InOrder(s) && Order(target) && |s| == |target| && deaths <= |s| && DeathsFirst(target, deaths)
    ensures AllDraws(first, deaths) && AllDraws(second, |s| - deaths)
    ensures Shuffled(Shuffled(s, 0, deaths, first), deaths, |s| - deaths, second) == target
  {
    HalfWayIsReachable(s, deaths, target);
    TargetIsReachable(s, deaths, target);
    first, second := TwoShuffles(s, deaths, HalfWay(s, deaths, target), target);
  }

  /** Registries that differ in nothing but their two levels of order. */
  predicate Reordered(r: Registry, target: Registry) {
    && |target.cases| == |r.cases| && target.lastDeath == r.lastDeath
    && forall i :: 0 <= i < |r.cases| ==> target.cases[i] == r.cases[i].(indices := target.cases[i].indices)
  }

  lemma {:induction false} EveryTestOrderPossible(r: Registry, target: Registry, n: nat) returns (tests: seq<seq<nat>>)
    requires WellShaped(r) && Unshuffled(r) && Sound(target) && Reordered(r, target) && n <= |r.cases|
    ensures |tests| == n
    ensures forall i :: 0 <= i < n ==>
              AllDraws(tests[i], |r.cases[i].indices|) && ShuffledCase(r.cases[i], tests[i]) == target.cases[i]
  {
    if n == 0 {
      tests := [];
    } else {
      var before := EveryTestOrderPossible(r, target, n - 1);
      var draws := EveryOrderPossible(r.cases[n - 1].indices, target.cases[n - 1].indices);
      tests := before + [draws];
    }
  }

  /**
   * Some random numbers bring about any order of the death test cases, any of
   * the others, and any of each case's tests, all at once.
   */
  lemma EveryRunningOrderPossible(r: Registry, target: Registry) returns (draws: TestDraws)
    requires WellShaped(r) && Unshuffled(r) && Sound(target) && Reordered(r, target)
    ensures DrawsFor(draws, r) && ShuffledRegistry(r, draws) == target
  {
    var first, second := EveryCaseOrderPossible(r.indices, r.lastDeath + 1, target.indices);
    var tests := EveryTestOrderPossible(r, target, |r.cases|);
    draws := TestDraws(first, second, tests);
    ShuffledIs(r, draws, target.cases, target.indices);
  }

  function Identity(n: nat): (s: seq<int>)
    ensures |s| == n && InOrder(s)
  {
    seq(n, i => i)
  }

  function UnshuffledCase(c: Case): Case { c.(indices := Identity(|c.indices|)) }

  function UnshuffledRegistry(r: Registry): Registry {
    r.(cases := seq(|r.cases|, i requires 0 <= i < |r.cases| => UnshuffledCase(r.cases[i])),
       indices := Identity(|r.indices|))
  }

  /** Unshuffling restores registration order after any shuffle, so every iteration starts from it. */
  lemma UnshuffleUndoesShuffle(r: Registry, d: TestDraws)
    requires WellShaped(r) && Unshuffled(r) && DrawsFor(d, r)
    ensures UnshuffledRegistry(ShuffledRegistry(r, d)) == r
  {
    var r' := UnshuffledRegistry(ShuffledRegistry(r, d));
    forall i | 0 <= i < |r.cases| ensures r'.cases[i] == r.cases[i] {
      assert r'.cases[i].indices == r.cases[i].indices;
    }
    assert r'.indices == r.indices;
  }

  // ----- Running -----

  /** A test by the positions of its case and of itself. */
  datatype Test = Test(testCase: int, test: int)

  /** The tests that the first `j` turns of TestCase::Run run. */
  function RanInCase(r: Registry, c: int, j: nat): seq<Test>
    requires Sound(r) && 0 <= c < |r.cases| && j <= |r.cases[c].indices|
  {
    if j == 0 then [] else
    var k := r.cases[c].indices[j - 1];
    RanInCase(r, c, j - 1) + if r.cases[c].infos[k].shouldRun then [Test(c, k)] else []
  }

  function CaseRun(r: Registry, c: int): seq<Test>
    requires Sound(r) && 0 <= c < |r.cases|
  {
    if r.cases[c].shouldRun then RanInCase(r, c, |r.cases[c].indices|) else []
  }

  /** The tests that the first `i` turns of the loop over the test cases run. */
  function RunOrder(r: Registry, i: nat): seq<Test>
    requires Sound(r) && i <= |r.cases|
  {
    if i == 0 then [] else RunOrder(r, i - 1) + CaseRun(r, r.indices[i - 1])
  }

  predicate ToRun(r: Registry, t: Test) {
    0 <= t.testCase < |r.cases| && 0 <= t.test < |r.cases[t.testCase].infos| && r.cases[t.testCase].infos[t.test].shouldRun
  }

  /** A case is marked to run when one of its tests is. */
  predicate CasesFollowTests(r: Registry) {
    forall c, k :: 0 <= c < |r.cases| && 0 <= k < |r.cases[c].infos| && r.cases[c].infos[k].shouldRun ==> r.cases[c].shouldRun
  }

  /** How often a test is in a log. */
  function Times(log: seq<Test>, t: Test): nat {
    if log == [] then 0 else Times(log[..|log| - 1], t) + if log[|log| - 1] == t then 1 else 0
  }

  lemma {:induction false} TimesConcat(a: seq<Test>, b: seq<Test>, t: Test)
    ensures Times(a + b, t) == Times(a, t) + Times(b, t)
  {
    if b == [] {
      assert a + b == a;
    } else {
      assert (a + b)[..|a + b| - 1] == a + b[..|b| - 1];
      TimesConcat(a, b[..|b| - 1], t);
    }
  }

  lemma TimesOneMoreTest(r: Registry, c: int, j: nat, t: Test)
    requires Sound(r) && 0 <= c < |r.cases| && 0 < j <= |r.cases[c].indices|
    ensures Times(RanInCase(r, c, j), t) == Times(RanInCase(r, c, j - 1), t) +
            if t.test == r.cases[c].indices[j - 1] && t.testCase == c && ToRun(r, t) then 1 else 0
  {
    var ran := Test(c, r.cases[c].indices[j - 1]);
    var before := RanInCase(r, c, j - 1);
    if ToRun(r, ran) {
      assert (before + [ran])[..|before|] == before;
    } else {
      assert before + [] == before;
    }
  }

  lemma {:induction false} TimesInCase(r: Registry, c: int, j: nat, t: Test)
    requires Sound(r) && 0 <= c < |r.cases| && j <= |r.cases[c].indices|
    ensures Times(RanInCase(r, c, j), t) ==
            if t.testCase == c && ToRun(r, t) && Has(r.cases[c].indices, 0, j, t.test) then 1 else 0
  {
    if j > 0 {
      TimesInCase(r, c, j - 1, t);
      var run := t.testCase == c && ToRun(r, t);
      TimesOneMoreTest(r, c, j, t);
      OneMoreListed(Times(RanInCase(r, c, j - 1), t), r.cases[c].indices, j, t.test, run);
    }
  }

  lemma TimesInCaseRun(r: Registry, c: int, t: Test)
    requires Sound(r) && CasesFollowTests(r) && 0 <= c < |r.cases|
    ensures Times(CaseRun(r, c), t) == if t.testCase == c && ToRun(r, t) then 1 else 0
  {
    var indices := r.cases[c].indices;
    TimesInCase(r, c, |indices|, t);
    if t.testCase == c && ToRun(r, t) {
      OrderListsEach(indices, t.test);
    }
  }

  lemma {:induction false} TimesInRun(r: Registry, i: nat, t: Test)
    requires Sound(r) && CasesFollowTests(r) && i <= |r.cases|
    ensures Times(RunOrder(r, i), t) == if ToRun(r, t) && Has(r.indices, 0, i, t.testCase) then 1 else 0
  {
    if i > 0 {
      TimesInRun(r, i - 1, t);
      TimesOneMoreCase(r, i, t);
      OneMoreListed(Times(RunOrder(r, i - 1), t), r.indices, i, t.testCase, ToRun(r, t));
    }
  }

  lemma OneMoreListed(times: nat, s: seq<int>, i: nat, v: int, run: bool)
    requires Injective(s) && 0 < i <= |s| && times == if run && Has(s, 0, i - 1, v) then 1 else 0
    ensures times + (if v == s[i - 1] && run then 1 else 0) == if run && Has(s, 0, i, v) then 1 else 0
  {
  }

  lemma TimesOneMoreCase(r: Registry, i: nat, t: Test)
    requires Sound(r) && CasesFollowTests(r) && 0 < i <= |r.cases|
    ensures Times(RunOrder(r, i), t) ==
            Times(RunOrder(r, i - 1), t) + if t.testCase == r.indices[i - 1] && ToRun(r, t) then 1 else 0
  {
    TimesInCaseRun(r, r.indices[i - 1], t);
    TimesConcat(RunOrder(r, i - 1), CaseRun(r, r.indices[i - 1]), t);
  }

  /** One iteration runs every test marked to run exactly once, and no other, in whatever order it is in. */
  lemma EachSelectedTestRunsOnce(r: Registry, t: Test)
    requires Sound(r) && CasesFollowTests(r)
    ensures Times(RunOrder(r, |r.cases|), t) == if ToRun(r, t) then 1 else 0
  {
    TimesInRun(r, |r.cases|, t);
    if ToRun(r, t) {
      OrderListsEach(r.indices, t.testCase);
    }
  }

  predicate DeathTestsFirst(r: Registry, log: seq<Test>) {
    forall a, b :: 0 <= a < b < |log| && log[b].testCase <= r.lastDeath ==> log[a].testCase <= r.lastDeath
  }

  predicate OfCase(log: seq<Test>, c: int) { forall k :: 0 <= k < |log| ==> log[k].testCase == c }

  predicate OfCasesBelow(log: seq<Test>, c: int) { forall k :: 0 <= k < |log| ==> log[k].testCase < c }

  lemma {:induction false} CaseRunStaysInCase(r: Registry, c: int, j: nat)
    requires Sound(r) && 0 <= c < |r.cases| && j <= |r.cases[c].indices|
    ensures OfCase(RanInCase(r, c, j), c)
  {
    if j > 0 { CaseRunStaysInCase(r, c, j - 1); }
  }

  lemma OneMoreCaseDeathFirst(r: Registry, before: seq<Test>, after: seq<Test>, c: int)
    requires DeathTestsFirst(r, before) && OfCase(after, c) && (c <= r.lastDeath ==> OfCasesBelow(before, r.lastDeath + 1))
    ensures DeathTestsFirst(r, before + after)
    ensures c <= r.lastDeath ==> OfCasesBelow(before + after, r.lastDeath + 1)
  {
  }

  /** One iteration runs the tests of death test cases before all others. */
  lemma {:induction false} DeathTestsRunFirst(r: Registry, i: nat)
    requires Sound(r) && i <= |r.cases|
    ensures DeathTestsFirst(r, RunOrder(r, i))
    ensures i <= r.lastDeath + 1 ==> OfCasesBelow(RunOrder(r, i), r.lastDeath + 1)
  {
    if i > 0 {
      DeathTestsRunFirst(r, i - 1);
      var c := r.indices[i - 1];
      CaseRunStaysInCase(r, c, |r.cases[c].indices|);
      OneMoreCaseDeathFirst(r, RunOrder(r, i - 1), CaseRun(r, c), c);
    }
  }

  /** By its case, and among those of one case by itself. */
  predicate IsBefore(t: Test, u: Test) { t.testCase < u.testCase || (t.testCase == u.testCase && t.test < u.test) }

  predicate InRegistrationOrder(log: seq<Test>) {
    forall a, b :: 0 <= a < b < |log| ==> IsBefore(log[a], log[b])
  }

  predicate OfTestsBelow(log: seq<Test>, j: int) { forall k :: 0 <= k < |log| ==> log[k].test < j }

  lemma {:induction false} CaseRunInOrder(r: Registry, c: int, j: nat)
    requires Sound(r) && Unshuffled(r) && 0 <= c < |r.cases| && j <= |r.cases[c].indices|
    ensures InRegistrationOrder(RanInCase(r, c, j)) && OfCase(RanInCase(r, c, j), c) && OfTestsBelow(RanInCase(r, c, j), j)
  {
    if j > 0 { CaseRunInOrder(r, c, j - 1); }
  }

  lemma OneMoreCaseInOrder(before: seq<Test>, after: seq<Test>, c: int)
    requires InRegistrationOrder(before) && InRegistrationOrder(after) && OfCasesBelow(before, c) && OfCase(after, c)
    ensures InRegistrationOrder(before + after) && OfCasesBelow(before + after, c + 1)
  {
  }

  lemma WholeCaseInOrder(r: Registry, c: int)
    requires Sound(r) && Unshuffled(r) && 0 <= c < |r.cases|
    ensures InRegistrationOrder(CaseRun(r, c)) && OfCase(CaseRun(r, c), c)
  {
    CaseRunInOrder(r, c, |r.cases[c].indices|);
  }

  /** What is not shuffled runs in the order of registration. */
  lemma {:induction false} UnshuffledRunsInOrder(r: Registry, i: nat)
    requires Sound(r) && Unshuffled(r) && i <= |r.cases|
    ensures InRegistrationOrder(RunOrder(r, i)) && OfCasesBelow(RunOrder(r, i), i)
  {
    if i > 0 {
      assert r.indices[i - 1] == i - 1;
      UnshuffledRunsInOrder(r, i - 1);
      WholeCaseInOrder(r, i - 1);
      OneMoreCaseInOrder(RunOrder(r, i - 1), CaseRun(r, i - 1), i - 1);
    }
  }

  /** The order of a log: that of registration, or the one that these random numbers make of it. */
  ghost predicate InRunningOrder(r: Registry, shuffle: bool, draws: TestDraws, log: seq<Test>)
    requires WellShaped(r)
  {
    if shuffle then
      && DrawsFor(draws, r) && Sound(ShuffledRegistry(r, draws))
      && log == RunOrder(ShuffledRegistry(r, draws), |r.cases|)
    else InRegistrationOrder(log)
  }

  /** A log in which every test to run is once, no other test is, and death tests come first. */
  ghost predicate IsIteration(r: Registry, log: seq<Test>) {
    (forall t: Test :: Times(log, t) == if ToRun(r, t) then 1 else 0) && DeathTestsFirst(r, log)
  }

  /** One iteration: every test to run once and no other, death tests first, in the order there should be. */
  ghost predicate IsIterationBy(r: Registry, shuffle: bool, draws: TestDraws, log: seq<Test>)
    requires WellShaped(r)
  {
    IsIteration(r, log) && InRunningOrder(r, shuffle, draws, log)
  }

  /** Registries that differ in order only agree on what is to run. */
  predicate SameTests(r: Registry, r': Registry) {
    && |r.cases| == |r'.cases| && r.lastDeath == r'.lastDeath
    && forall c :: 0 <= c < |r.cases| ==>
         r.cases[c].infos == r'.cases[c].infos && r.cases[c].shouldRun == r'.cases[c].shouldRun
  }

  /** Running a reordered registry is an iteration of the original one. */
  lemma IterationOf(r: Registry, r': Registry)
    requires SameTests(r, r') && CasesFollowTests(r) && Sound(r')
    ensures IsIteration(r, RunOrder(r', |r'.cases|))
  {
    DeathTestsRunFirst(r', |r'.cases|);
    forall t: Test ensures Times(RunOrder(r', |r'.cases|), t) == if ToRun(r, t) then 1 else 0 {
      EachSelectedTestRunsOnce(r', t);
    }
  }

  lemma UnshuffledStays(r: Registry)
    requires WellShaped(r) && Unshuffled(r)
    ensures UnshuffledRegistry(r) == r
  {
    forall i | 0 <= i < |r.cases| ensures UnshuffledCase(r.cases[i]) == r.cases[i] {
      assert Identity(|r.cases[i].indices|) == r.cases[i].indices;
    }
    assert Identity(|r.indices|) == r.indices;
  }

  /** After FilterTests a case is marked to run exactly when one of its tests is, and counts are as selected. */
  lemma FilteringMarksCases(x: Settings, shard: Option<Shard>, r: Registry)
    requires ValidShard(shard) && WellShaped(r)
    ensures WellShaped(FilteredRegistry(x, shard, r)) && CasesFollowTests(FilteredRegistry(x, shard, r))
    ensures Unshuffled(r) ==> Unshuffled(FilteredRegistry(x, shard, r))
  {
  }

  lemma {:induction false} NoneRunning(infos: seq<TestInfo>, k: nat)
    requires Running(infos) == 0 && k < |infos|
    ensures !infos[k].shouldRun
  {
    if k < |infos| - 1 { NoneRunning(infos[..|infos| - 1], k); }
  }

  lemma {:induction false} NoneRunningAmong(cases: seq<Case>, c: nat)
    requires RunningAmong(cases) == 0 && c < |cases|
    ensures Running(cases[c].infos) == 0
  {
    if c < |cases| - 1 { NoneRunningAmong(cases[..|cases| - 1], c); }
  }

  /** When the count is zero, running nothing is running everything selected. */
  lemma NothingToRun(x: Settings, shard: Option<Shard>, r: Registry)
    requires ValidShard(shard) && SelectedUpTo(shard, RunnableAmong(x, r.cases)) == 0
    ensures IsIteration(FilteredRegistry(x, shard, r), [])
  {
    var r' := FilteredRegistry(x, shard, r);
    SelectedCount(x, shard, r, |r.cases|);
    assert r'.cases[..|r.cases|] == r'.cases && r.cases[..|r.cases|] == r.cases;
    forall t: Test ensures !ToRun(r', t) {
      if 0 <= t.testCase < |r'.cases| && 0 <= t.test < |r'.cases[t.testCase].infos| {
        NoneRunningAmong(r'.cases, t.testCase);
        NoneRunning(r'.cases[t.testCase].infos, t.test);
      }
    }
  }
}
