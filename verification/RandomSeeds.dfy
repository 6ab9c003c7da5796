/** The random seed of a run, and the seeds of its iterations. */
module RandomSeeds {
  import opened MachineIntegers

  const MAX_RANDOM_SEED: nat := 99999

  /** static_cast<unsigned int> of a 32-bit int */
  function AsUnsigned(n: int): nat { n % TWO_32 }

  /** `time` is GetTimeInMillis, taken when the flag is 0. */
  function GetRandomSeedFromFlag(flag: int, time: nat): (seed: nat)
    ensures 1 <= seed <= MAX_RANDOM_SEED
    ensures 1 <= flag <= MAX_RANDOM_SEED ==> seed == flag
  {
    var rawSeed := if flag == 0 then AsUnsigned(time) else AsUnsigned(flag);
    AsUnsigned(rawSeed - 1) % MAX_RANDOM_SEED + 1
  }

  /** An int as an unsigned number of 32 bits, but 2^32 for 0. */
  function Positive32(n: int): (raw: int) {
    if n % 0x1_0000_0000 == 0 then 0x1_0000_0000 else n % 0x1_0000_0000
  }

  lemma PositiveLessOne(n: int)
    ensures AsUnsigned(AsUnsigned(n) - 1) == Positive32(n) - 1
  {
  }

  lemma RestTakenOff(n: nat)
    ensures (n - n % 99999) % 99999 == 0
  {
  }

  /** The seed differs by a multiple of 99999 from the time, for flag 0, and else from the flag. */
  lemma SeedIsOfTimeOrFlag(flag: int, time: nat)
    ensures (Positive32(if flag == 0 then time else flag) - GetRandomSeedFromFlag(flag, time)) % 99999 == 0
  {
    var n := if flag == 0 then time else flag;
    PositiveLessOne(n);
    RestTakenOff(Positive32(n) - 1);
  }

  function GetNextRandomSeed(seed: nat): (next: nat)
    requires 1 <= seed <= MAX_RANDOM_SEED
    ensures 1 <= next <= MAX_RANDOM_SEED
  {
    if seed + 1 > MAX_RANDOM_SEED then 1 else seed + 1
  }

  /** The seed of the k-th iteration. */
  function SeedAfter(seed: nat, k: nat): (s: nat)
    requires 1 <= seed <= MAX_RANDOM_SEED
    ensures 1 <= s <= MAX_RANDOM_SEED
  {
    if k == 0 then seed else GetNextRandomSeed(SeedAfter(seed, k - 1))
  }

  lemma {:induction false} SeedsCountUp(seed: nat, k: nat)
    requires 1 <= seed <= MAX_RANDOM_SEED
    ensures SeedAfter(seed, k) == (seed - 1 + k) % MAX_RANDOM_SEED + 1
  {
    if k > 0 {
      SeedsCountUp(seed, k - 1);
    }
  }

  lemma SameRemainder(a: nat, b: nat)
    requires a <= b
    ensures a % MAX_RANDOM_SEED == b % MAX_RANDOM_SEED <==> (b - a) % MAX_RANDOM_SEED == 0
  {
    var d := b - a;
    assert a == (a / MAX_RANDOM_SEED) * MAX_RANDOM_SEED + a % MAX_RANDOM_SEED;
    assert b == (b / MAX_RANDOM_SEED) * MAX_RANDOM_SEED + b % MAX_RANDOM_SEED;
    assert d == (d / MAX_RANDOM_SEED) * MAX_RANDOM_SEED + d % MAX_RANDOM_SEED;
  }

  /** Iterations use the same seed exactly when a whole number of cycles through all seeds lies between them. */
  lemma SeedsRepeat(seed: nat, j: nat, k: nat)
    requires 1 <= seed <= MAX_RANDOM_SEED && j <= k
    ensures SeedAfter(seed, j) == SeedAfter(seed, k) <==> (k - j) % MAX_RANDOM_SEED == 0
  {
    SeedsCountUp(seed, j);
    SeedsCountUp(seed, k);
    SameRemainder(seed - 1 + j, seed - 1 + k);
  }
}
