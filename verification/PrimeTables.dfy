/**
 The prime tables of the samples, over unbounded integers: trial division, trial division by
 odd numbers, a sieve and a table that combines sieve and trial division.
 */
module PrimeTables {
  import opened Common

  predicate Divides(d: int, n: int)
    requires d > 0
  {
    n % d == 0
  }

  ghost predicate Prime(n: int) {
    n >= 2 && forall d | 2 <= d < n :: !Divides(d, n)
  }

  ghost predicate NextPrime(p: int, q: int) {
    p < q && Prime(q) && forall r | p < r < q :: !Prime(r)
  }

  // ------------------------------------------------------------ divisibility

  lemma {:induction false} ProductGrows(a: int, b: int, c: int)
    requires a <= b && 0 <= c
    ensures a * c <= b * c && c * a <= c * b
  {
    assert (b - a) * c >= 0;
  }

  lemma {:induction false} DividesMultiple(d: int, k: int, n: int)
    requires d > 0 && n == d * k
    ensures Divides(d, n)
  {
    RemainderIs(n, d, k, 0);
  }

  lemma {:induction false} DividesThrough(d: int, e: int, n: int)
    requires d > 0 && e > 0 && Divides(d, e) && Divides(e, n)
    ensures Divides(d, n)
  {
    var a, b := e / d, n / e;
    assert n == e * b == (d * a) * b == d * (a * b);
    DividesMultiple(d, a * b, n);
  }

  lemma {:induction false} DividesSum(d: int, a: int, b: int)
    requires d > 0 && Divides(d, a)
    ensures Divides(d, a + b) <==> Divides(d, b)
  {
    var q, k := a / d, b / d;
    assert a + b == d * (q + k) + b % d;
    RemainderIs(a + b, d, q + k, b % d);
  }

  /** Divisors come in pairs. */
  lemma {:induction false} Cofactor(d: int, n: int)
    requires 2 <= d < n && Divides(d, n)
    ensures 2 <= n / d < n && d * (n / d) == n && Divides(n / d, n)
  {
    var e := n / d;
    assert d * e == n;
    assert e >= 2 by {
      if e <= 1 {
        ProductGrows(e, 1, d);
      }
    }
    ProductGrows(2, d, e);
    DividesMultiple(e, d, n);
  }

  lemma {:induction false} LargeFactors(d: int, e: int, i: int)
    requires i >= 0
    ensures d >= i && e >= i ==> d * e >= i * i
  {
    if d >= i && e >= i {
      ProductGrows(i, d, e);
      ProductGrows(i, e, i);
    }
  }

  /** Divisors up to the square root decide primality. */
  lemma {:induction false} NoSmallDivisor(n: int, i: int)
    requires n >= 2 && i >= 2 && i * i > n
    requires forall d | 2 <= d < i :: d < n ==> !Divides(d, n)
    ensures Prime(n)
  {
    forall d | 2 <= d < n
      ensures !Divides(d, n)
    {
      if Divides(d, n) {
        Cofactor(d, n);
        LargeFactors(d, n / d, i);
      }
    }
  }

  /** Every number from 2 on has a prime divisor. */
  lemma {:induction false} PrimeDivisor(n: int) returns (p: int)
    requires n >= 2
    ensures Prime(p) && p <= n && Divides(p, n)
    decreases n
  {
    if Prime(n) {
      DividesMultiple(n, 1, n);
      p := n;
    } else {
      var d :| 2 <= d < n && Divides(d, n);
      p := PrimeDivisor(d);
      DividesThrough(p, d, n);
    }
  }

  // ------------------------------------------------------------ factorials and Euclid's theorem

  function Product(n: int): (f: int)
    ensures f >= 1
    decreases n
  {
    if n <= 0 then 1 else n * Product(n - 1)
  }

  method Factorial(n: int) returns (result: int)
    ensures result == Product(n)
  {
    result := 1;
    var i := 1;
    while i <= n
      invariant 1 <= i && (i == 1 || i <= n + 1)
      invariant result == Product(i - 1)
    {
      result := result * i;
      i := i + 1;
    }
  }

  lemma {:induction false} DividesFactorial(d: int, n: int)
    requires 1 <= d <= n
    ensures Divides(d, Product(n))
    decreases n
  {
    if d == n {
      DividesMultiple(n, Product(n - 1), Product(n));
    } else {
      DividesFactorial(d, n - 1);
      DividesMultiple(Product(n - 1), n, Product(n));
      DividesThrough(d, Product(n - 1), Product(n));
    }
  }

  /** Above every number there is a prime. */
  lemma {:induction false} PrimesAreUnbounded(n: int) returns (p: int)
    ensures p > n && Prime(p)
  {
    var f := Product(n);
    p := PrimeDivisor(f + 1);
    if p <= n {
      DividesFactorial(p, n);
      DividesSum(p, f, 1);
      assert 1 % p == 1 by {
        RemainderIs(1, p, 0, 1);
      }
      assert false;
    }
  }

  // ------------------------------------------------------------ trial division

  method IsPrimeOnTheFly(n: int) returns (r: bool)
    ensures r <==> Prime(n)
  {
    if n <= 1 {
      return false;
    }
    var i := 2;
    while i * i <= n
      invariant 2 <= i <= n
      invariant forall d | 2 <= d < i :: !Divides(d, n)
      decreases n - i
    {
      assert i < n by {
        assert i * i >= 2 * i;
      }
      if n % i == 0 {
        assert Divides(i, n);
        return false;
      }
      i := i + 1;
    }
    NoSmallDivisor(n, i);
    return true;
  }

  /** The documented next prime for every p from 0 on, and -1 for every negative p. */
  method GetNextPrimeOnTheFly(p: int) returns (q: int)
    ensures p >= 0 ==> NextPrime(p, q)
    ensures p < 0 ==> q == -1
  {
    ghost var bound := PrimesAreUnbounded(p);
    var n := p + 1;
    while n > 0
      invariant p < n && (p >= 0 ==> n <= bound) && (p < 0 ==> n <= 0)
      invariant forall r | p < r < n :: p >= 0 ==> !Prime(r)
      decreases bound - n
    {
      var prime := IsPrimeOnTheFly(n);
      if prime {
        return n;
      }
      n := n + 1;
    }
    return -1;
  }

  /** Trial division by odd numbers, stopped by the quotient. */
  method IsPrimeOdd(n: int) returns (r: bool)
    ensures r <==> Prime(n)
  {
    if n <= 1 {
      return false;
    }
    if n % 2 == 0 {
      assert Divides(2, n);
      assert n == 2 ==> Prime(n);
      return n == 2;
    }
    var i := 3;
    while i <= n / i
      invariant 3 <= i <= n && i % 2 == 1
      invariant forall d | 2 <= d < i :: !Divides(d, n)
      decreases n - i
    {
      QuotientBound(n, i);
      if n % i == 0 {
        assert Divides(i, n);
        return false;
      }
      OddHasNoEvenDivisor(n, i + 1);
      i := i + 2;
    }
    QuotientBound(n, i);
    NoSmallDivisor(n, i);
    return true;
  }

  lemma {:induction false} OddHasNoEvenDivisor(n: int, d: int)
    requires n % 2 == 1 && d > 0 && d % 2 == 0
    ensures !Divides(d, n)
  {
    if Divides(d, n) {
      DividesThrough(2, d, n);
    }
  }

  lemma {:induction false} QuotientBound(n: int, i: int)
    requires 3 <= i <= n
    ensures i <= n / i ==> i + 2 <= n
    ensures i > n / i ==> i * i > n
  {
    var q := n / i;
    assert n == i * q + n % i;
    if i <= q {
      assert i * q >= 3 * q;
    } else {
      assert i * q + i == i * (q + 1) <= i * i;
    }
  }

  // ------------------------------------------------------------ the sieve

  /** No number below both i and m, from 2 on, divides m. */
  ghost predicate Unmarked(i: int, m: int) {
    forall d | 2 <= d < i && d < m :: !Divides(d, m)
  }

  /** Crossing out the proper multiples of i turns one column of the sieve into the next. */
  lemma {:induction false} UnmarkedNext(i: int, m: int)
    requires i >= 2
    ensures Unmarked(i + 1, m) <==> Unmarked(i, m) && !(i < m && Divides(i, m))
  {
  }

  /** Multiples of a number that is itself crossed out are crossed out already. */
  lemma {:induction false} CompositeAddsNothing(i: int, m: int)
    requires i >= 2 && !Unmarked(i, i)
    ensures Unmarked(i + 1, m) <==> Unmarked(i, m)
  {
    var d :| 2 <= d < i && Divides(d, i);
    if Unmarked(i, m) && i < m && Divides(i, m) {
      DividesThrough(d, i, m);
      assert false;
    }
    UnmarkedNext(i, m);
  }

  lemma {:induction false} NoMultipleBetween(i: int, j: int, m: int)
    requires i > 0 && Divides(i, j) && j < m < j + i
    ensures !Divides(i, m)
  {
    DividesSum(i, j, m - j);
    RemainderIs(m - j, i, 0, m - j);
  }

  class PreCalculatedPrimeTable {
    const isPrimeSize: int
    const isPrime: array<bool>

    ghost predicate Valid()
      reads isPrime
    {
      isPrime.Length == isPrimeSize && forall m | 0 <= m < isPrimeSize :: isPrime[m] <==> Prime(m)
    }

    constructor (max: int)
      requires max >= 1
      ensures Valid() && isPrimeSize == max + 1 && fresh(isPrime)
    {
      isPrimeSize := max + 1;
      isPrime := new bool[max + 1];
      new;
      CalculatePrimesUpTo(max);
    }

    method CalculatePrimesUpTo(max: int)
      requires max >= 1 && isPrime.Length == isPrimeSize == max + 1
      modifies isPrime
      ensures Valid()
    {
      for k := 0 to isPrimeSize
        invariant forall m | 0 <= m < k :: isPrime[m]
      {
        isPrime[k] := true;
      }
      isPrime[0], isPrime[1] := false, false;
      var i := 2;
      while i <= max
        invariant 2 <= i <= max + 1 && !isPrime[0] && !isPrime[1]
        invariant forall m | 2 <= m <= max :: isPrime[m] <==> Unmarked(i, m)
      {
        if isPrime[i] {
          MarkMultiples(i, max);
        } else {
          forall m | 2 <= m <= max
            ensures Unmarked(i + 1, m) <==> Unmarked(i, m)
          {
            CompositeAddsNothing(i, m);
          }
        }
        i := i + 1;
      }
    }

    method MarkMultiples(i: int, max: int)
      requires 2 <= i <= max && isPrime.Length == max + 1 && !isPrime[0] && !isPrime[1]
      requires forall m | 2 <= m <= max :: isPrime[m] <==> Unmarked(i, m)
      modifies isPrime
      ensures !isPrime[0] && !isPrime[1]
      ensures forall m | 2 <= m <= max :: isPrime[m] <==> Unmarked(i + 1, m)
    {
      var j := 2 * i;
      DividesMultiple(i, 1, i);
      DividesMultiple(i, 2, j);
      forall m | i < m < j
        ensures !Divides(i, m)
      {
        NoMultipleBetween(i, i, m);
      }
      while j <= max
        invariant j >= 2 * i && Divides(i, j) && !isPrime[0] && !isPrime[1]
        invariant forall m | 2 <= m <= max :: isPrime[m] <==> Unmarked(i, m) && !(i < m < j && Divides(i, m))
        decreases max - j
      {
        isPrime[j] := false;
        DividesMultiple(i, 1, i);
        DividesSum(i, j, i);
        forall m | j < m < j + i
          ensures !Divides(i, m)
        {
          NoMultipleBetween(i, j, m);
        }
        j := j + i;
      }
      forall m | 2 <= m <= max
        ensures isPrime[m] <==> Unmarked(i + 1, m)
      {
        UnmarkedNext(i, m);
      }
    }

    /** Primality within the capacity of the table, false beyond it. */
    method IsPrime(n: int) returns (r: bool)
      requires Valid()
      ensures r <==> Prime(n) && n < isPrimeSize
    {
      return 0 <= n && n < isPrimeSize && isPrime[n];
    }

    /** The next prime if the table holds it, and otherwise -1. */
    method GetNextPrime(p: int) returns (q: int)
      requires Valid() && p >= -1
      ensures q != -1 ==> q < isPrimeSize && NextPrime(p, q)
      ensures q == -1 <==> forall r | p < r < isPrimeSize :: !Prime(r)
    {
      var n := p + 1;
      while n < isPrimeSize
        invariant p < n
        invariant forall r | p < r < n && r < isPrimeSize :: !Prime(r)
      {
        if isPrime[n] {
          assert Prime(n);
          return n;
        }
        n := n + 1;
      }
      return -1;
    }
  }

  // ------------------------------------------------------------ both at once

  class HybridPrimeTable {
    const precalcImpl: PreCalculatedPrimeTable?
    const maxPrecalculated: int

    ghost predicate Valid()
      reads if precalcImpl == null then {} else {precalcImpl.isPrime}
    {
      precalcImpl != null ==> precalcImpl.Valid() && precalcImpl.isPrimeSize == maxPrecalculated + 1
    }

    constructor (forceOnTheFly: bool, max: int)
      requires forceOnTheFly || max >= 1
      ensures Valid() && maxPrecalculated == max && (precalcImpl == null <==> forceOnTheFly)
    {
      maxPrecalculated := max;
      if forceOnTheFly {
        precalcImpl := null;
      } else {
        var table := new PreCalculatedPrimeTable(max);
        precalcImpl := table;
      }
    }

    /** Primality of every number, whichever table answers. */
    method IsPrime(n: int) returns (r: bool)
      requires Valid()
      ensures r <==> Prime(n)
    {
      if precalcImpl != null && n < maxPrecalculated {
        r := precalcImpl.IsPrime(n);
      } else {
        r := IsPrimeOnTheFly(n);
      }
    }

    /** The next prime for every p from 0 on; of the negative numbers only -1 can have an answer, from the sieve. */
    method GetNextPrime(p: int) returns (q: int)
      requires Valid() && (precalcImpl != null ==> p >= -1)
      ensures p >= 0 ==> NextPrime(p, q)
      ensures p < 0 ==> q == if precalcImpl != null && maxPrecalculated >= 2 then 2 else -1
    {
      q := -1;
      if precalcImpl != null && p < maxPrecalculated {
        q := precalcImpl.GetNextPrime(p);
        assert Prime(2) && !Prime(1) && !Prime(0);
      }
      if q == -1 {
        q := GetNextPrimeOnTheFly(p);
      }
    }
  }
}
