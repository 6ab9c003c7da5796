/**
 * From registration to the runs: whatever has been registered, in whatever
 * order, RunAllTests runs what is selected of it once in each iteration.
 */
module RegisteredRun {
  import opened Wrappers
  import opened Sharding
  import opened TestOrder
  import opened TestRun
  import opened TestRegistry

  /** Where the n-th test registered ends up: its case, and after the tests registered before it for that case. */
  ghost function Place(regs: seq<Registration>, n: nat): Test
    requires n < |regs|
  {
    Test(FindCase(Registered(regs).cases, regs[n].testCase), |TestsOf(regs[..n], regs[n].testCase)|)
  }

  /** The n-th test registered is to run: it can, and its turn among those that can is on this shard. */
  ghost predicate Runs(x: Settings, shard: Option<Shard>, regs: seq<Registration>, n: nat)
    requires ValidShard(shard) && n < |regs|
  {
    && Runnable(x, regs[n].testCase, regs[n].test)
    && var place := Place(regs, n);
       InRegistry(Registered(regs), place) && OnShard(shard, Rank(x, Registered(regs).cases, place.testCase, place.test))
  }

  predicate InRegistry(r: Registry, t: Test) {
    0 <= t.testCase < |r.cases| && 0 <= t.test < |r.cases[t.testCase].infos|
  }

  lemma {:induction false} NthOfItsCase(regs: seq<Registration>, n: nat, name: string)
    requires n < |regs| && regs[n].testCase == name
    ensures var k := |TestsOf(regs[..n], name)|;
            k < |TestsOf(regs, name)| && TestsOf(regs, name)[k] == NewTest(regs[n].test)
  {
    var last := |regs| - 1;
    if n < last {
      NthOfItsCase(regs[..last], n, name);
      assert regs[..last][..n] == regs[..n];
    }
  }

  lemma {:induction false} EachOfACase(regs: seq<Registration>, name: string, k: nat) returns (n: nat)
    requires k < |TestsOf(regs, name)|
    ensures n < |regs| && regs[n].testCase == name && |TestsOf(regs[..n], name)| == k
  {
    var last := |regs| - 1;
    if k < |TestsOf(regs[..last], name)| {
      n := EachOfACase(regs[..last], name, k);
      assert regs[..last][..n] == regs[..n];
    } else {
      n := last;
    }
  }

  lemma {:induction false} RegisteredIsSeen(regs: seq<Registration>, n: nat)
    requires n < |regs|
    ensures regs[n].testCase in FirstSeen(regs)
  {
    var last := |regs| - 1;
    if n < last {
      RegisteredIsSeen(regs[..last], n);
    }
  }

  /** The test registered is at its place. */
  lemma AtItsPlace(regs: seq<Registration>, n: nat)
    requires n < |regs|
    ensures var place, cases := Place(regs, n), Registered(regs).cases;
            && InRegistry(Registered(regs), place)
            && cases[place.testCase].name == regs[n].testCase
            && cases[place.testCase].infos[place.test] == NewTest(regs[n].test)
  {
    RegistrationPartitions(regs);
    RegisteredIsSeen(regs, n);
    FoundIffSeen(Registered(regs), FirstSeen(regs), regs, regs[n].testCase);
    NthOfItsCase(regs, n, regs[n].testCase);
  }

  /** Two registrations, even of the same names, have different places. */
  lemma PlacesDiffer(regs: seq<Registration>, m: nat, n: nat)
    requires m < n < |regs|
    ensures Place(regs, m) != Place(regs, n)
  {
    AtItsPlace(regs, m);
    AtItsPlace(regs, n);
    if regs[m].testCase == regs[n].testCase {
      NthOfItsCase(regs[..n], m, regs[n].testCase);
      assert regs[..n][..m] == regs[..m];
    }
  }

  /** Some registration is there. */
  ghost predicate IsPlace(regs: seq<Registration>, t: Test) {
    exists n :: 0 <= n < |regs| && Place(regs, n) == t
  }

  /** Every place in the registry is that of a registration. */
  lemma EveryPlaceIsRegistered(regs: seq<Registration>, t: Test)
    requires InRegistry(Registered(regs), t)
    ensures IsPlace(regs, t)
  {
    RegistrationPartitions(regs);
    var cases := Registered(regs).cases;
    var name := cases[t.testCase].name;
    var n := EachOfACase(regs, name, t.test);
    var c := FindCase(cases, name);
    assert Names(cases)[t.testCase] == name && Names(cases)[c] == name;
    assert Place(regs, n) == t;
  }

  lemma ToRunIsSelected(x: Settings, shard: Option<Shard>, r: Registry, t: Test)
    requires ValidShard(shard) && InRegistry(r, t)
    ensures ToRun(FilteredRegistry(x, shard, r), t) <==> Selected(x, shard, r.cases, t.testCase, t.test)
  {
    var c := FilteredRegistry(x, shard, r).cases[t.testCase];
    assert c == Filtered(x, shard, r.cases, t.testCase);
  }

  lemma ToRunIsRuns(x: Settings, shard: Option<Shard>, regs: seq<Registration>, n: nat)
    requires ValidShard(shard) && n < |regs|
    ensures ToRun(FilteredRegistry(x, shard, Registered(regs)), Place(regs, n)) <==> Runs(x, shard, regs, n)
  {
    AtItsPlace(regs, n);
    ToRunIsSelected(x, shard, Registered(regs), Place(regs, n));
  }

  lemma {:induction false} InLogIsTimes(log: seq<Test>, t: Test)
    ensures t in log <==> Times(log, t) > 0
  {
    if log != [] {
      InLogIsTimes(log[..|log| - 1], t);
      assert log == log[..|log| - 1] + [log[|log| - 1]];
    }
  }

  /** A log of what has been registered: what is to run is in it once, nothing else is, and death tests come first. */
  ghost predicate RunsRegistered(x: Settings, shard: Option<Shard>, regs: seq<Registration>, log: seq<Test>)
    requires ValidShard(shard)
  {
    && (forall n :: 0 <= n < |regs| ==> Times(log, Place(regs, n)) == if Runs(x, shard, regs, n) then 1 else 0)
    && (forall t <- log :: IsPlace(regs, t))
    && (forall a, b :: 0 <= a < b < |log| && IsDeathTest(regs, log[b]) ==> IsDeathTest(regs, log[a]))
  }

  ghost predicate RunsInOrder(x: Settings, shard: Option<Shard>, regs: seq<Registration>, shuffle: bool,
                              draws: TestDraws, log: seq<Test>)
    requires ValidShard(shard)
  {
    FilteringMarksCases(x, shard, Registered(regs));
    InRunningOrder(FilteredRegistry(x, shard, Registered(regs)), shuffle, draws, log)
  }

  ghost predicate IsDeathTest(regs: seq<Registration>, t: Test) {
    exists n :: 0 <= n < |regs| && Place(regs, n) == t && IsDeathCase(regs[n].testCase)
  }

  lemma DeathTestsByName(regs: seq<Registration>, t: Test)
    requires InRegistry(Registered(regs), t)
    ensures IsDeathTest(regs, t) <==> t.testCase <= Registered(regs).lastDeath
  {
    BoundaryIsByName(regs, t.testCase);
    EveryPlaceIsRegistered(regs, t);
    var n :| 0 <= n < |regs| && Place(regs, n) == t;
    AtItsPlace(regs, n);
    forall m | 0 <= m < |regs| && Place(regs, m) == t ensures regs[m].testCase == regs[n].testCase {
      AtItsPlace(regs, m);
    }
  }

  lemma IterationRunsRegistered(x: Settings, shard: Option<Shard>, regs: seq<Registration>, log: seq<Test>)
    requires ValidShard(shard) && IsIteration(FilteredRegistry(x, shard, Registered(regs)), log)
    ensures RunsRegistered(x, shard, regs, log)
  {
    var r := FilteredRegistry(x, shard, Registered(regs));
    forall n | 0 <= n < |regs| ensures Times(log, Place(regs, n)) == if Runs(x, shard, regs, n) then 1 else 0 {
      ToRunIsRuns(x, shard, regs, n);
    }
    forall t | t in log
      ensures InRegistry(Registered(regs), t)
      ensures IsPlace(regs, t)
      ensures IsDeathTest(regs, t) <==> t.testCase <= r.lastDeath
    {
      InLogIsTimes(log, t);
      assert ToRun(r, t);
      EveryPlaceIsRegistered(regs, t);
      DeathTestsByName(regs, t);
    }
  }

  /** Each runnable registration runs on exactly one shard. */
  lemma OneShardRuns(x: Settings, total: nat, regs: seq<Registration>, n: nat)
    requires total > 0 && n < |regs| && Runnable(x, regs[n].testCase, regs[n].test)
    ensures exists i :: 0 <= i < total && Runs(x, Some(Shard(total, i)), regs, n)
    ensures forall i, j | 0 <= i < total && 0 <= j < total ::
              (Runs(x, Some(Shard(total, i)), regs, n) && Runs(x, Some(Shard(total, j)), regs, n) ==> i == j)
  {
    AtItsPlace(regs, n);
    var place := Place(regs, n);
    var rank := Rank(x, Registered(regs).cases, place.testCase, place.test);
    ExactlyOneShard(total, rank);
    var i :| 0 <= i < total && OnShard(Some(Shard(total, i)), rank);
    assert Runs(x, Some(Shard(total, i)), regs, n);
  }

  /** The calls of MakeAndRegisterTestInfo, one after the other. */
  method Register(regs: seq<Registration>) returns (impl: UnitTestImpl)
    ensures fresh(impl) && (forall i :: 0 <= i < |impl.cases| ==> fresh(impl.cases[i]))
    ensures impl.Valid() && impl.View() == Registered(regs) && Unshuffled(impl.View())
  {
    impl := new UnitTestImpl();
    for i := 0 to |regs|
      invariant fresh(impl) && (forall k :: 0 <= k < |impl.cases| ==> fresh(impl.cases[k]))
      invariant impl.Valid() && impl.View() == Registered(regs[..i])
    {
      assert regs[..i + 1][..i] == regs[..i];
      ghost var before := impl.cases;
      impl.AddTestInfo(regs[i].testCase, regs[i].test);
      forall k | 0 <= k < |impl.cases| ensures fresh(impl.cases[k]) {
        assert impl.cases[k] in impl.cases;
        if impl.cases[k] in before {
          var j :| 0 <= j < |before| && before[j] == impl.cases[k];
        }
      }
    }
    assert regs[..|regs|] == regs;
    RegistrationPartitions(regs);
  }

  /**
   * Registering any tests and then running all: unless its set-up fails, each
   * iteration runs each registration that is to run once, in the order of
   * registration if it is not shuffled, and else in the order the draws make of it.
   */
  method RegisterAndRun(regs: seq<Registration>, x: Settings, shard: Option<Shard>, inDeathTestChild: bool, repeat: int,
                        shuffle: bool, rounds: nat, setUpFails: seq<bool>)
    returns (logs: seq<seq<Test>>, ghost draws: seq<TestDraws>)
    requires ValidShard(shard) && |setUpFails| == rounds
    requires inDeathTestChild ==> rounds == 1
    requires !inDeathTestChild && repeat >= 0 ==> rounds == repeat
    ensures |logs| == |draws| == rounds
    ensures forall i :: 0 <= i < rounds ==>
              if setUpFails[i] then logs[i] == []
              else RunsRegistered(x, if inDeathTestChild then None else shard, regs, logs[i])
    ensures forall i :: 0 <= i < rounds && logs[i] != [] ==>
              RunsInOrder(x, if inDeathTestChild then None else shard, regs, shuffle, draws[i], logs[i])
  {
    var impl := Register(regs);
    logs, draws := impl.RunAllTests(x, shard, inDeathTestChild, repeat, shuffle, rounds, setUpFails);
    forall i | 0 <= i < rounds && !setUpFails[i]
      ensures RunsRegistered(x, if inDeathTestChild then None else shard, regs, logs[i])
    {
      IterationRunsRegistered(x, if inDeathTestChild then None else shard, regs, logs[i]);
    }
  }
}
