/** The sample prime tables, over unbounded integers. */
module PrimeTables {
  import opened Primes

  class OnTheFlyPrimeTable {
    constructor () {
    }

    method IsPrime(n: int) returns (r: bool)
      ensures r <==> Prime(n)
    {
      if n <= 1 {
        return false;
      }
      var i := 2;
      while i * i <= n
        invariant 2 <= i
        invariant forall d :: 1 < d < i && d < n ==> !Divides(d, n)
        decreases n - i
      {
        Monotone(2, i, i);
        if n % i == 0 {
          assert Divides(i, n);
          return false;
        }
        i := i + 1;
      }
      NoSmallDivisor(n, i);
      return true;
    }

    method GetNextPrime(p: int) returns (r: int)
      ensures if p >= 0 then NextPrime(p, r) else r == -1
    {
      ghost var bound := 0;
      if p >= 0 {
        bound := PrimeAbove(p);
      }
      var n := p + 1;
      while n > 0
        invariant p < n
        invariant n > 0 ==> p >= 0 && n <= bound
        invariant forall m :: p < m < n ==> !Prime(m)
        decreases bound - n
      {
        var isPrime := IsPrime(n);
        if isPrime {
          return n;
        }
        n := n + 1;
      }
      return -1;
    }
  }

  /** A divisor below i crosses n out. */
  ghost predicate Crossed(n: int, i: int) {
    exists d :: 1 < d < i && d < n && Divides(d, n)
  }

  lemma CrossedByPrimesOnly(i: int, n: int)
    requires 1 < i && Crossed(i, i)
    ensures Crossed(n, i + 1) <==> Crossed(n, i)
  {
    if Crossed(n, i + 1) && i < n && Divides(i, n) {
      var d :| 1 < d < i && Divides(d, i);
      DividesTransitive(d, i, n);
    }
  }

  lemma CrossedByAll(n: int)
    ensures n > 1 ==> (Prime(n) <==> !Crossed(n, n))
  {
  }

  /** k*i is the only multiple of i before (k+1)*i. */
  lemma NextMultiple(i: int, k: int, n: int)
    requires 0 < i && k * i <= n < (k + 1) * i && Divides(i, n)
    ensures n == k * i
  {
    Quotient(i, n);
    if n / i < k {
      Monotone(n / i, k - 1, i);
    } else if n / i > k {
      Monotone(k + 1, n / i, i);
    }
  }

  /** Crossed out before i, or as a multiple of i below j. */
  ghost predicate CrossedBefore(n: int, i: int, j: int)
    requires i > 0
  {
    Crossed(n, i) || (Divides(i, n) && i < n < j)
  }

  lemma NextCrossed(n: int, i: int, k: int, j: int)
    requires 1 < i && 2 <= k && j == k * i
    ensures CrossedBefore(n, i, j + i) <==> CrossedBefore(n, i, j) || n == j
    ensures i < j && (k + 1) * i == j + i
  {
    Monotone(2, k, i);
    DividesProduct(i, k);
    if Divides(i, n) && j <= n < j + i {
      NextMultiple(i, k, n);
    }
  }

  lemma AllCrossed(n: int, i: int, j: int)
    requires 1 < i && n < j
    ensures CrossedBefore(n, i, j) <==> Crossed(n, i + 1)
  {
    if Crossed(n, i + 1) && !Crossed(n, i) {
      var d :| 1 < d < i + 1 && d < n && Divides(d, n);
      assert d == i;
    }
  }

  class PreCalculatedPrimeTable {
    const isPrimeSize: int
    const isPrime: array<bool>

    ghost predicate Valid()
      reads isPrime
    {
      isPrimeSize == isPrime.Length && forall n :: 0 <= n < isPrime.Length ==> (isPrime[n] <==> Prime(n))
    }

    constructor (max: int)
      requires max >= 1
      ensures Valid() && isPrimeSize == max + 1 && fresh(isPrime)
    {
      isPrimeSize := max + 1;
      isPrime := new bool[max + 1];
      new;
      CalculatePrimesUpTo(max);
    }

    method CalculatePrimesUpTo(max: int)
      requires max >= 1 && isPrimeSize == isPrime.Length == max + 1
      modifies isPrime
      ensures Valid()
    {
      forall n | 0 <= n < isPrimeSize {
        isPrime[n] := true;
      }
      isPrime[0], isPrime[1] := false, false;
      var i := 2;
      while i <= max
        invariant 2 <= i <= max + 1
        invariant !isPrime[0] && !isPrime[1]
        invariant forall n :: 2 <= n <= max ==> (isPrime[n] <==> !Crossed(n, i))
      {
        if !isPrime[i] {
          forall n { CrossedByPrimesOnly(i, n); }
          i := i + 1;
          continue;
        }
        MarkMultiples(i, max);
        i := i + 1;
      }
      forall n | 2 <= n <= max ensures isPrime[n] <==> Prime(n) {
        CrossedByAll(n);
      }
    }

    /** The inner loop of the sieve. */
    method MarkMultiples(i: int, max: int)
      requires 2 <= i <= max && isPrime.Length == max + 1
      requires forall n :: 2 <= n <= max ==> (isPrime[n] <==> !Crossed(n, i))
      modifies isPrime
      ensures isPrime[0] == old(isPrime[0]) && isPrime[1] == old(isPrime[1])
      ensures forall n :: 2 <= n <= max ==> (isPrime[n] <==> !Crossed(n, i + 1))
    {
      var j := 2 * i;
      ghost var k := 2;
      while j <= max
        invariant k >= 2 && j == k * i && i < j
        invariant isPrime[0] == old(isPrime[0]) && isPrime[1] == old(isPrime[1])
        invariant forall n :: 2 <= n <= max ==> (isPrime[n] <==> !CrossedBefore(n, i, j))
        decreases max - j
      {
        isPrime[j] := false;
        forall n ensures CrossedBefore(n, i, j + i) <==> CrossedBefore(n, i, j) || n == j {
          NextCrossed(n, i, k, j);
        }
        NextCrossed(j, i, k, j);
        j := j + i;
        k := k + 1;
      }
      forall n | 2 <= n <= max ensures isPrime[n] <==> !Crossed(n, i + 1) {
        AllCrossed(n, i, j);
      }
    }

    method IsPrime(n: int) returns (r: bool)
      requires Valid()
      ensures r <==> n < isPrimeSize && Prime(n)
    {
      r := 0 <= n < isPrimeSize && isPrime[n];
    }

    /** Below -1 there are no elements to look at. */
    method GetNextPrime(p: int) returns (r: int)
      requires Valid() && p >= -1
      ensures (NextPrime(p, r) && r < isPrimeSize) || (r == -1 && forall m :: p < m < isPrimeSize ==> !Prime(m))
    {
      var n := p + 1;
      while n < isPrimeSize
        invariant p < n
        invariant forall m :: p < m < n ==> !Prime(m)
      {
        if isPrime[n] {
          return n;
        }
        n := n + 1;
      }
      return -1;
    }
  }

  class HybridPrimeTable {
    const onTheFlyImpl: OnTheFlyPrimeTable
    const precalcImpl: PreCalculatedPrimeTable?
    const maxPrecalculated: int

    ghost predicate Valid()
      reads if precalcImpl == null then {} else {precalcImpl.isPrime}
    {
      precalcImpl != null ==> precalcImpl.Valid() && precalcImpl.isPrimeSize == maxPrecalculated + 1 && maxPrecalculated >= 1
    }

    constructor (forceOnTheFly: bool, maxPrecalculated: int)
      requires forceOnTheFly || maxPrecalculated >= 1
      ensures Valid() && (precalcImpl == null <==> forceOnTheFly) && this.maxPrecalculated == maxPrecalculated
    {
      onTheFlyImpl := new OnTheFlyPrimeTable();
      if forceOnTheFly {
        precalcImpl := null;
      } else {
        precalcImpl := new PreCalculatedPrimeTable(maxPrecalculated);
      }
      this.maxPrecalculated := maxPrecalculated;
    }

    method IsPrime(n: int) returns (r: bool)
      requires Valid()
      ensures r <==> Prime(n)
    {
      if precalcImpl != null && n < maxPrecalculated {
        r := precalcImpl.IsPrime(n);
      } else {
        r := onTheFlyImpl.IsPrime(n);
      }
    }

    /** Of the numbers below 0, the table can take -1 only, and finds 2 for it if it has 2; trial division does not. */
    method GetNextPrime(p: int) returns (r: int)
      requires Valid() && (p >= -1 || precalcImpl == null)
      ensures p >= 0 ==> NextPrime(p, r)
      ensures p < 0 ==> r == if precalcImpl != null && maxPrecalculated >= 2 then 2 else -1
      ensures NextPrime(p, r) <==> p >= 0 || (precalcImpl != null && maxPrecalculated >= 2)
    {
      var nextPrime := -1;
      if precalcImpl != null && p < maxPrecalculated {
        nextPrime := precalcImpl.GetNextPrime(p);
      }
      if nextPrime != -1 {
        r := nextPrime;
      } else {
        r := onTheFlyImpl.GetNextPrime(p);
      }
      assert Prime(2) && !Prime(1) && !Prime(0);
    }
  }
}

/** Trial division by odd numbers only. */
module OddDivisors {
  import opened Primes

  lemma OddHasNoEvenDivisor(n: int, d: int)
    requires n % 2 != 0 && d > 0 && d % 2 == 0
    ensures !Divides(d, n)
  {
    if Divides(d, n) {
      assert Divides(2, d);
      DividesTransitive(2, d, n);
    }
  }

  lemma PastSquareRoot(n: int, i: int)
    requires i > 0 && n >= 0
    ensures i > n / i <==> n < i * i
  {
    Quotient(i, n);
    if i > n / i {
      Monotone(n / i, i - 1, i);
    } else {
      Monotone(i, n / i, i);
    }
  }

  method IsPrime(n: int) returns (r: bool)
    ensures r <==> Prime(n)
  {
    if n <= 1 {
      return false;
    }
    if n % 2 == 0 {
      assert Divides(2, n);
      return n == 2;
    }
    var i := 3;
    while true
      invariant 3 <= i && i % 2 == 1
      invariant forall d :: 1 < d < i && d < n ==> !Divides(d, n)
      decreases n - i
    {
      PastSquareRoot(n, i);
      if i > n / i {
        break;
      }
      Monotone(2, i, i);
      if n % i == 0 {
        assert Divides(i, n);
        return false;
      }
      OddHasNoEvenDivisor(n, i + 1);
      i := i + 2;
    }
    NoSmallDivisor(n, i);
    return true;
  }
}
