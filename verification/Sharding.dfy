/** Splitting the runnable tests of a program over several machines. */
module Sharding {
  import opened Wrappers

  /** The shard a process runs: how many there are, and which one this is. */
  datatype Shard = Shard(total: nat, index: nat)

  function ShouldRunTestOnShard(total: nat, index: nat, testId: nat): bool
    requires total > 0
  {
    testId % total == index
  }

  predicate ValidShard(shard: Option<Shard>) {
    shard.Some? ==> 0 <= shard.value.index < shard.value.total
  }

  /** Whether the runnable test of this rank is selected; without sharding all are. */
  predicate OnShard(shard: Option<Shard>, rank: nat)
    requires ValidShard(shard)
  {
    shard.None? || ShouldRunTestOnShard(shard.value.total, shard.value.index, rank)
  }

  /** How many of the first `n` runnable tests are selected. */
  function SelectedUpTo(shard: Option<Shard>, n: nat): (count: nat)
    requires ValidShard(shard)
    ensures count <= n
  {
    if n == 0 then 0 else SelectedUpTo(shard, n - 1) + if OnShard(shard, n - 1) then 1 else 0
  }

  /** Each rank falls on exactly one shard. */
  lemma ExactlyOneShard(total: nat, rank: nat)
    requires total > 0
    ensures exists i :: 0 <= i < total && OnShard(Some(Shard(total, i)), rank)
    ensures forall i, j | 0 <= i < total && 0 <= j < total ::
              (OnShard(Some(Shard(total, i)), rank) && OnShard(Some(Shard(total, j)), rank) ==> i == j)
  {
    assert OnShard(Some(Shard(total, rank % total)), rank);
  }

  /** The shards take turns: each gets the rank that is its index, and then every total-th. */
  lemma ShardsTakeTurns(total: nat, index: nat, rank: nat)
    requires index < total
    ensures OnShard(Some(Shard(total, index)), rank) <==> exists k: nat :: rank == index + k * total
  {
    if OnShard(Some(Shard(total, index)), rank) {
      assert rank == index + (rank / total) * total;
    }
    forall k: nat | rank == index + k * total ensures rank % total == index {
      DivModUnique(rank, total, k, index);
    }
  }

  lemma {:induction false} ShardSize(total: nat, index: nat, n: nat)
    requires index < total
    ensures SelectedUpTo(Some(Shard(total, index)), n) == n / total + if index < n % total then 1 else 0
  {
    if n > 0 {
      ShardSize(total, index, n - 1);
      NextDivMod(n - 1, total);
    } else {
      assert 0 / total == 0 && 0 % total == 0;
    }
  }

  lemma NextDivMod(n: nat, d: nat)
    requires d > 0
    ensures if n % d + 1 == d then (n + 1) / d == n / d + 1 && (n + 1) % d == 0
            else (n + 1) / d == n / d && (n + 1) % d == n % d + 1
  {
    var q, r := n / d, n % d;
    assert n == q * d + r;
    if r + 1 == d {
      assert n + 1 == (q + 1) * d;
      DivModUnique(n + 1, d, q + 1, 0);
    } else {
      DivModUnique(n + 1, d, q, r + 1);
    }
  }

  lemma DivModUnique(n: nat, d: nat, q: nat, r: nat)
    requires d > 0 && r < d && n == q * d + r
    ensures n / d == q && n % d == r
  {
    var q', r' := n / d, n % d;
    assert (q - q') * d == r' - r && (q' - q) * d == r - r';
    if q > q' { MultipleAtLeast(q - q', d); }
    if q < q' { MultipleAtLeast(q' - q, d); }
  }

  lemma {:induction false} MultipleAtLeast(k: int, d: nat)
    requires k >= 1
    ensures k * d >= d
  {
    if k > 1 {
      MultipleAtLeast(k - 1, d);
      assert k * d == (k - 1) * d + d;
    }
  }

  /** The sizes of shards 0 up to `k`, added up. */
  function SumOfShards(total: nat, k: nat, n: nat): nat
    requires k <= total
  {
    if k == 0 then 0 else SumOfShards(total, k - 1, n) + SelectedUpTo(Some(Shard(total, k - 1)), n)
  }

  lemma {:induction false} SumOfShardsAdds(total: nat, k: nat, n: nat)
    requires k <= total && n > 0
    ensures SumOfShards(total, k, n) == SumOfShards(total, k, n - 1) + if total > 0 && (n - 1) % total < k then 1 else 0
  {
    if k > 0 {
      SumOfShardsAdds(total, k - 1, n);
    }
  }

  lemma {:induction false} NoTestsNoShards(total: nat, k: nat)
    requires k <= total
    ensures SumOfShards(total, k, 0) == 0
  {
    if k > 0 { NoTestsNoShards(total, k - 1); }
  }

  /** The per-shard counts add up to the runnable total, and any two shards differ by at most one test. */
  lemma {:induction false} ShardsPartitionTheTests(total: nat, n: nat)
    requires total > 0
    ensures SumOfShards(total, total, n) == n
    ensures forall i, j :: 0 <= i < total && 0 <= j < total ==>
              SelectedUpTo(Some(Shard(total, i)), n) <= SelectedUpTo(Some(Shard(total, j)), n) + 1
  {
    if n == 0 {
      NoTestsNoShards(total, total);
    } else {
      ShardsPartitionTheTests(total, n - 1);
      SumOfShardsAdds(total, total, n);
    }
    forall i | 0 <= i < total
      ensures n / total <= SelectedUpTo(Some(Shard(total, i)), n) <= n / total + 1
    {
      ShardSize(total, i, n);
    }
  }
}
