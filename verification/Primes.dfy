/** Prime numbers, and Euclid's theorem that there is always a next one. */
module Primes {
  predicate Divides(d: int, n: int)
    requires d > 0
  {
    n % d == 0
  }

  ghost predicate Prime(n: int) {
    n > 1 && forall d :: 1 < d < n ==> !Divides(d, n)
  }

  /** The least prime above p. */
  ghost predicate NextPrime(p: int, n: int) {
    p < n && Prime(n) && forall m :: p < m < n ==> !Prime(m)
  }

  lemma Monotone(a: int, b: int, c: int)
    requires a <= b && c >= 0
    ensures a * c <= b * c
  {
  }

  lemma Quotient(d: int, n: int)
    requires d > 0
    ensures n == (n / d) * d + n % d
  {
  }

  lemma DividesProduct(d: int, k: int)
    requires d > 0
    ensures Divides(d, k * d)
  {
    var q := (k * d) / d;
    Quotient(d, k * d);
    assert (k - q) * d == (k * d) % d;
    if k - q >= 1 {
      Monotone(1, k - q, d);
    } else if k - q <= -1 {
      Monotone(k - q, -1, d);
    }
  }

  lemma DividesDifference(d: int, a: int, b: int)
    requires d > 0 && Divides(d, a) && Divides(d, b)
    ensures Divides(d, a - b)
  {
    Quotient(d, a);
    Quotient(d, b);
    DividesProduct(d, a / d - b / d);
    assert (a / d - b / d) * d == a - b;
  }

  lemma DividesTransitive(c: int, d: int, n: int)
    requires c > 0 && d > 0 && Divides(c, d) && Divides(d, n)
    ensures Divides(c, n)
  {
    Quotient(c, d);
    Quotient(d, n);
    DividesProduct(c, (n / d) * (d / c));
    assert ((n / d) * (d / c)) * c == n;
  }

  /** A number with a divisor from i up, where i is past its square root, has one below i. */
  lemma SmallerDivisor(n: int, d: int, i: int)
    requires 1 < d < n && Divides(d, n) && 0 < i <= d && n < i * i
    ensures 1 < n / d < i && n / d < n && Divides(n / d, n)
  {
    var q := n / d;
    Quotient(d, n);
    if q <= 1 {
      Monotone(q, 1, d);
    } else if q >= i {
      Monotone(i, q, d);
      Monotone(i, d, i);
    } else {
      DividesProduct(q, d);
      assert d * q == n;
      Monotone(2, d, q);
    }
  }

  lemma NoSmallDivisor(n: int, i: int)
    requires n > 1 && 1 < i && n < i * i
    requires forall d :: 1 < d < i && d < n ==> !Divides(d, n)
    ensures Prime(n)
  {
    forall d | 1 < d < n ensures !Divides(d, n) {
      if d >= i && Divides(d, n) {
        SmallerDivisor(n, d, i);
      }
    }
  }

  // ----- Euclid -----

  function Factorial(n: nat): (f: nat)
    ensures f > 0
  {
    if n == 0 then 1 else n * Factorial(n - 1)
  }

  lemma {:induction false} DividesFactorial(d: int, n: nat)
    requires 0 < d <= n
    ensures Divides(d, Factorial(n))
  {
    if d == n {
      DividesProduct(n, Factorial(n - 1));
    } else {
      DividesFactorial(d, n - 1);
      Quotient(d, Factorial(n - 1));
      DividesProduct(d, n * (Factorial(n - 1) / d));
      assert (n * (Factorial(n - 1) / d)) * d == Factorial(n);
    }
  }

  lemma {:induction false} PrimeFactor(n: int) returns (q: int)
    requires n > 1
    ensures Prime(q) && q <= n && Divides(q, n)
    decreases n
  {
    if Prime(n) {
      q := n;
    } else {
      var d :| 1 < d < n && Divides(d, n);
      q := PrimeFactor(d);
      DividesTransitive(q, d, n);
    }
  }

  /** Euclid's theorem. */
  lemma PrimeAbove(p: nat) returns (q: int)
    ensures p < q && Prime(q)
  {
    var n := Factorial(p) + 1;
    q := PrimeFactor(n);
    if q <= p {
      DividesFactorial(q, p);
      DividesDifference(q, n, Factorial(p));
      assert false;
    }
  }
}
