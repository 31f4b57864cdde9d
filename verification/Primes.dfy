/**
 The prime tables of the samples: trial division, odd trial division, the sieve and the hybrid
 table, over unbounded integers, against primality.
 */
module Primes {
  import opened Common

  ghost predicate Divides(d: int, n: int)
    requires d > 0
  {
    n % d == 0
  }

  ghost predicate Prime(n: int) {
    n >= 2 && forall d :: 2 <= d < n ==> !Divides(d, n)
  }

  // ---- Divisors ----

  lemma DividesProduct(d: int, k: int)
    requires d > 0
    ensures Divides(d, d * k)
  {
    UniqueQuotient(d * k, d, k, 0);
  }

  lemma AddMultiple(x: int, d: int)
    requires d > 0
    ensures (x + d) % d == x % d
  {
    var q := x / d;
    assert x == q * d + x % d;
    assert x + d == (q + 1) * d + x % d;
    UniqueQuotient(x + d, d, q + 1, x % d);
  }

  lemma Cofactor(d: int, n: int) returns (k: int)
    requires d > 0 && Divides(d, n)
    ensures n == d * k
  {
    k := n / d;
  }

  lemma DividesTransitive(a: int, b: int, n: int)
    requires a > 0 && b > 0 && Divides(a, b) && Divides(b, n)
    ensures Divides(a, n)
  {
    var k := Cofactor(a, b);
    var m := Cofactor(b, n);
    assert n == a * (k * m);
    DividesProduct(a, k * m);
  }

  /** Of a divisor and its cofactor one has a square that is at most n. */
  lemma SmallDivisor(d: int, n: int) returns (e: int)
    requires 2 <= d < n && Divides(d, n)
    ensures 2 <= e < n && Divides(e, n) && e * e <= n
  {
    var k := Cofactor(d, n);
    CofactorAtLeastTwo(d, k, n);
    if d <= k {
      e := d;
      MulMono(d, d, k);
    } else {
      e := k;
      DividesProduct(k, d);
      MulMono(k, k, d);
    }
  }

  lemma MulMono(a: int, b: int, c: int)
    requires a >= 0 && b <= c
    ensures a * b <= a * c
  {
    assert a * c == a * b + a * (c - b);
    assert a * (c - b) >= 0;
  }

  lemma CofactorAtLeastTwo(d: int, k: int, n: int)
    requires 2 <= d < n && n == d * k
    ensures 2 <= k < n && n == k * d
  {
    assert d * k == d + d * (k - 1);
    assert k >= 2;
    MulMono(k, 2, d);
  }

  /** A number from 2 on has a prime divisor. */
  lemma {:induction false} PrimeDivisor(n: int) returns (p: int)
    requires n >= 2
    ensures Prime(p) && p <= n && Divides(p, n)
    decreases n
  {
    if Prime(n) {
      p := n;
    } else {
      var d :| 2 <= d < n && Divides(d, n);
      p := PrimeDivisor(d);
      DividesTransitive(p, d, n);
    }
  }

  // ---- There is always a next prime ----

  function Factorial(n: nat): (f: nat)
    ensures f >= 1
  {
    if n == 0 then 1
    else
      MulAtLeast(n, Factorial(n - 1));
      n * Factorial(n - 1)
  }

  lemma {:induction false} DividesFactorial(d: int, n: nat)
    requires 1 <= d <= n
    ensures Divides(d, Factorial(n))
  {
    if d == n {
      DividesProduct(n, Factorial(n - 1));
    } else {
      DividesFactorial(d, n - 1);
      var k := Cofactor(d, Factorial(n - 1));
      assert n * (d * k) == d * (n * k);
      DividesProduct(d, n * k);
    }
  }

  lemma PrimeBeyond(n: nat) returns (p: int)
    ensures n < p && Prime(p)
  {
    var f := Factorial(n);
    p := PrimeDivisor(f + 1);
    if p <= n {
      DividesFactorial(p, n);
      var k := f / p;
      assert f == p * k;
      assert f + 1 == k * p + 1;
      UniqueQuotient(f + 1, p, k, 1);
      assert false;
    }
  }

  /** q is the smallest prime above p. */
  ghost predicate NextPrime(p: int, q: int) {
    p < q && Prime(q) && forall m :: p < m < q ==> !Prime(m)
  }

  lemma NextPrimeUnique(p: int, q: int, r: int)
    requires NextPrime(p, q) && NextPrime(p, r)
    ensures q == r
  {
  }

  // ---- Trial division ----

  lemma SquareAtLeast(i: int)
    requires i >= 2
    ensures i * i > i
  {
    MulAtLeast(i - 1, i);
    assert i * i == (i - 1) * i + i;
  }

  lemma SquareMono(i: int, e: int)
    requires 0 <= i <= e
    ensures i * i <= e * e
  {
    assert e * e == i * i + (e - i) * (e + i);
    assert (e - i) * (e + i) >= 0;
  }

  lemma BelowSquare(e: int, i: int, n: int)
    requires 0 <= i && e * e <= n < i * i
    ensures e < i
  {
    if e >= i {
      SquareMono(i, e);
    }
  }

  /** No number from 2 up to i divides n. */
  ghost predicate NoneBelow(n: int, i: int) {
    forall d :: 2 <= d < i && d < n ==> !Divides(d, n)
  }

  /** No divisor below a number whose square is beyond n: no divisor at all. */
  lemma EnoughTried(n: int, i: int)
    requires n >= 2 && i >= 0 && i * i > n
    requires NoneBelow(n, i)
    ensures Prime(n)
  {
    forall d | 2 <= d < n
      ensures !Divides(d, n)
    {
      if Divides(d, n) {
        var e := SmallDivisor(d, n);
        BelowSquare(e, i, n);
      }
    }
  }

  method OnTheFlyIsPrime(n: int) returns (b: bool)
    ensures b <==> Prime(n)
  {
    if n <= 1 {
      return false;
    }
    var i := 2;
    while i * i <= n
      invariant 2 <= i && NoneBelow(n, i)
      decreases n - i
    {
      SquareAtLeast(i);
      if n % i == 0 {
        HasDivisor(n, i);
        return false;
      }
      i := i + 1;
    }
    EnoughTried(n, i);
    return true;
  }

  /** The smallest prime above p, or -1 at once when p is negative. */
  method OnTheFlyGetNextPrime(p: int) returns (q: int)
    ensures p >= 0 ==> NextPrime(p, q)
    ensures p < 0 ==> q == -1
  {
    var n := p + 1;
    if n <= 0 {
      return -1;
    }
    ghost var bound := PrimeBeyond(p);
    while n > 0
      invariant p < n <= bound && Prime(bound)
      invariant forall m :: p < m < n ==> !Prime(m)
      decreases bound - n
    {
      var found := OnTheFlyIsPrime(n);
      if found {
        return n;
      }
      n := n + 1;
    }
    return -1;
  }

  /** IsPrime of sample1: after 2, odd divisors only, as long as i <= n / i. */
  method IsPrime(n: int) returns (b: bool)
    ensures b <==> Prime(n)
  {
    if n <= 1 {
      return false;
    }
    if n % 2 == 0 {
      if n > 2 {
        HasDivisor(n, 2);
      }
      return n == 2;
    }
    var i := 3;
    while true
      invariant 3 <= i && i % 2 == 1 && NoneBelow(n, i)
      decreases n - i
    {
      if i > n / i {
        break;
      }
      QuotientBound(n, i);
      if n % i == 0 {
        HasDivisor(n, i);
        return false;
      }
      OddStep(n, i);
      i := i + 2;
    }
    SquareAbove(n, i);
    EnoughTried(n, i);
    return true;
  }

  lemma HasDivisor(n: int, i: int)
    requires 2 <= i < n && n % i == 0
    ensures !Prime(n)
  {
    assert Divides(i, n);
  }

  lemma OddStep(n: int, i: int)
    requires i >= 3 && i % 2 == 1 && n % 2 == 1 && n % i != 0 && NoneBelow(n, i)
    ensures NoneBelow(n, i + 2)
  {
    EvenIsNoDivisor(i + 1, n);
  }

  lemma QuotientBound(n: int, i: int)
    requires n >= 3 && i >= 3 && i <= n / i
    ensures i < n
  {
    var q := n / i;
    assert n == q * i + n % i;
    assert q * i == (q - 3) * i + 3 * i;
    assert (q - 3) * i >= 0;
  }

  lemma SquareAbove(n: int, i: int)
    requires n >= 0 && i >= 1 && i > n / i
    ensures i * i > n
  {
    QuotientSquare(n, i, n / i, n % i);
  }

  lemma QuotientSquare(n: int, i: int, q: int, r: int)
    requires n == q * i + r && 0 <= r < i && i > q
    ensures i * i > n
  {
    assert i * i == (i - q) * i + q * i;
    MulAtLeast(i - q, i);
  }

  lemma EvenIsNoDivisor(d: int, n: int)
    requires d > 0 && d % 2 == 0 && n % 2 == 1
    ensures !Divides(d, n)
  {
    if Divides(d, n) {
      assert Divides(2, d);
      DividesTransitive(2, d, n);
      assert false;
    }
  }

  // ---- The sieve ----

  /** m is not crossed out by the divisors from 2 up to i. */
  ghost predicate Survives(m: int, i: int) {
    m >= 2 && forall d :: 2 <= d < i && d < m ==> !Divides(d, m)
  }

  lemma SurvivorIsPrime(m: int, i: int)
    requires i >= m
    ensures Survives(m, i) <==> Prime(m)
  {
  }

  /** A composite i crosses nothing out that its own divisors have not. */
  lemma CompositeCrossesNothing(i: int, m: int)
    requires i >= 2 && !Prime(i) && i < m && Divides(i, m)
    ensures !Survives(m, i)
  {
    var d :| 2 <= d < i && Divides(d, i);
    DividesTransitive(d, i, m);
  }

  /** The multiples of i above i are 2 * i, 3 * i and so on. */
  lemma MultipleBetween(i: int, j: int, m: int)
    requires i > 0 && Divides(i, j) && j < m < j + i
    ensures !Divides(i, m)
  {
    var k := Cofactor(i, j);
    assert m == k * i + (m - j);
    UniqueQuotient(m, i, k, m - j);
  }

  lemma SurvivesNext(m: int, i: int)
    requires i >= 2
    ensures Survives(m, i + 1) <==> Survives(m, i) && !(i < m && Divides(i, m))
  {
  }

  class PreCalculatedPrimeTable {
    const isPrime: array<bool>

    ghost predicate Valid()
      reads isPrime
    {
      isPrime.Length >= 2 && forall m :: 0 <= m < isPrime.Length ==> (isPrime[m] <==> Prime(m))
    }

    /** The table of the primes up to max. */
    constructor (max: int)
      requires max >= 1
      ensures Valid() && isPrime.Length == max + 1 && fresh(isPrime)
    {
      var table := new bool[max + 1](_ => true);
      CalculatePrimesUpTo(table, max);
      isPrime := table;
    }

    static method CalculatePrimesUpTo(table: array<bool>, max: int)
      requires max >= 1 && table.Length == max + 1
      requires forall m :: 0 <= m <= max ==> table[m]
      modifies table
      ensures forall m :: 0 <= m <= max ==> (table[m] <==> Prime(m))
    {
      table[0], table[1] := false, false;
      var i := 2;
      while i <= max
        invariant 2 <= i <= max + 1
        invariant forall m :: 0 <= m <= max ==> (table[m] <==> Survives(m, i))
      {
        SurvivorIsPrime(i, i);
        if table[i] {
          CrossOut(table, max, i);
        } else {
          forall m | 0 <= m <= max
            ensures Survives(m, i) <==> Survives(m, i + 1)
          {
            if i < m && Divides(i, m) {
              CompositeCrossesNothing(i, m);
            }
          }
        }
        i := i + 1;
      }
      forall m | 0 <= m <= max
        ensures table[m] <==> Prime(m)
      {
        SurvivorIsPrime(m, i);
      }
    }

    /** Rules out every further number that i divides. */
    static method CrossOut(table: array<bool>, max: int, i: int)
      requires 2 <= i <= max && table.Length == max + 1
      requires forall m :: 0 <= m <= max ==> (table[m] <==> Survives(m, i))
      modifies table
      ensures forall m :: 0 <= m <= max ==> (table[m] <==> Survives(m, i + 1))
    {
      var j := 2 * i;
      DividesProduct(i, 1);
      DividesProduct(i, 2);
      forall m | i < m < j
        ensures !Divides(i, m)
      {
        MultipleBetween(i, i, m);
      }
      while j <= max
        invariant i < j && Divides(i, j)
        invariant forall m :: 0 <= m <= max ==> (table[m] <==> Survives(m, i) && !(i < m < j && Divides(i, m)))
        decreases max - j
      {
        table[j] := false;
        forall m | j < m < j + i
          ensures !Divides(i, m)
        {
          MultipleBetween(i, j, m);
        }
        AddMultiple(j, i);
        j := j + i;
      }
      forall m | 0 <= m <= max
        ensures Survives(m, i + 1) <==> table[m]
      {
        SurvivesNext(m, i);
      }
    }

    method IsPrimeInTable(n: int) returns (b: bool)
      requires Valid()
      ensures b <==> n < isPrime.Length && Prime(n)
    {
      b := 0 <= n < isPrime.Length && isPrime[n];
    }

    /** The smallest prime above p that the table holds, or -1. */
    method GetNextPrime(p: int) returns (q: int)
      requires Valid() && p >= -1
      ensures q != -1 ==> q < isPrime.Length && NextPrime(p, q)
      ensures q == -1 <==> forall m :: p < m < isPrime.Length ==> !Prime(m)
    {
      var n := p + 1;
      while n < isPrime.Length
        invariant p < n && (n <= isPrime.Length || n == p + 1)
        invariant forall m :: p < m < n ==> !Prime(m)
      {
        if isPrime[n] {
          return n;
        }
        n := n + 1;
      }
      return -1;
    }
  }

  // ---- The hybrid table ----

  class HybridPrimeTable {
    const precalc: PreCalculatedPrimeTable?
    const maxPrecalculated: int

    constructor (forceOnTheFly: bool, max: int)
      requires !forceOnTheFly ==> max >= 1
      ensures Valid() && maxPrecalculated == max && (precalc == null <==> forceOnTheFly)
    {
      maxPrecalculated := max;
      if forceOnTheFly {
        precalc := null;
      } else {
        precalc := new PreCalculatedPrimeTable(max);
      }
    }

    ghost predicate Valid()
      reads if precalc == null then {} else {precalc.isPrime}
    {
      precalc != null ==> precalc.Valid() && precalc.isPrime.Length == maxPrecalculated + 1
    }

    /** Which table answers makes no difference. */
    method IsPrime(n: int) returns (b: bool)
      requires Valid()
      ensures b <==> Prime(n)
    {
      if precalc != null && n < maxPrecalculated {
        b := precalc.IsPrimeInTable(n);
      } else {
        b := OnTheFlyIsPrime(n);
      }
    }

    /**
     The hybrid table answers as the on-the-fly table does for every p from 0 on. For p == -1
     the two differ exactly when there is a precalculated table that reaches 2.
     */
    method GetNextPrime(p: int) returns (q: int)
      requires Valid() && (precalc != null ==> p >= -1)
      ensures p >= 0 ==> NextPrime(p, q)
      ensures p < 0 ==> q == if precalc != null && maxPrecalculated >= 2 then 2 else -1
    {
      q := -1;
      if precalc != null && p < maxPrecalculated {
        q := precalc.GetNextPrime(p);
        TwoIsFirst();
      }
      if q == -1 {
        q := OnTheFlyGetNextPrime(p);
      }
    }

    lemma TwoIsFirst()
      ensures NextPrime(-1, 2)
    {
    }
  }
}
