/** Prime tables: trial division, the sieve, and the hybrid of the two. */
module PrimeTables {
  import opened Arithmetic
  import opened PrimeFacts

  // ---------- trial division ----------

  /** `n` has no divisor from 2 up to but excluding `i`. */
  ghost predicate NoDivisorBelow(n: int, i: int) {
    forall d | 2 <= d < i :: n % d != 0
  }

  lemma NoneUpToRoot(n: int, i: int)
    requires n > 1 && i > 1 && n < i * i && NoDivisorBelow(n, i)
    ensures Prime(n)
  {
    if !Prime(n) {
      var d := SmallDivisor(n);
      RootBelow(n, d, i);
    }
  }

  lemma RootBelow(n: int, d: int, i: int)
    requires 0 <= d && 0 <= i && d * d <= n < i * i
    ensures d < i
  {
    if d >= i {
      SquareLess(i, d);
      TimesOrder(i, d, d);
      TimesOrder(i, d, i);
    }
  }

  /** The last divisor that the division loop can reach. */
  lemma RootIsSmaller(n: int, i: int)
    requires i > 1 && i * i <= n
    ensures i < n
  {
    TimesOrder(2, i, i);
  }

  class OnTheFlyPrimeTable {
    constructor () {}

    method IsPrime(n: int) returns (prime: bool)
      ensures prime <==> Prime(n)
    {
      if n <= 1 {
        return false;
      }
      var i := 2;
      while i * i <= n
        invariant 2 <= i
        invariant NoDivisorBelow(n, i)
        decreases n - i
      {
        RootIsSmaller(n, i);
        if n % i == 0 {
          return false;
        }
        i := i + 1;
      }
      NoneUpToRoot(n, i);
      return true;
    }

    /** The smallest prime above `p`, for every `p` that is not negative. For a negative
        `p` the guard of the loop is false at once, and the answer is -1. */
    method GetNextPrime(p: int) returns (next: int)
      ensures p >= 0 ==> IsNextPrime(p, next)
      ensures p < 0 ==> next == -1
    {
      var n := p + 1;
      ghost var bound := 0;
      if p >= 0 {
        bound := LargerPrime(p);
      }
      while n > 0
        invariant p < n && forall k | p < k < n :: !Prime(k)
        invariant p >= 0 ==> n <= bound && Prime(bound)
        invariant p < 0 ==> n <= 0
        decreases bound - n
      {
        var found := IsPrime(n);
        if found {
          return n;
        }
        n := n + 1;
      }
      return -1;
    }
  }

  lemma QuotientBelow(n: int, i: int)
    requires n > 0 && i > 0
    ensures i > n / i <==> i * i > n
  {
    var q := n / i;
    assert n == q * i + n % i;
    TimesOrder(q + 1, i, i);
    TimesOrder(i, q, i);
    assert (q + 1) * i == q * i + i;
  }

  lemma OddHasNoEvenDivisor(n: int, d: int)
    requires n > 0 && d > 0 && n % 2 != 0 && d % 2 == 0
    ensures n % d != 0
  {
    if n % d == 0 {
      DividesOn(2, d, n);
    }
  }

  /** Trial division by odd numbers only, with the bound found by a division. */
  method IsPrime(n: int) returns (prime: bool)
    ensures prime <==> Prime(n)
  {
    if n <= 1 {
      return false;
    }
    if n % 2 == 0 {
      return n == 2;
    }
    var i := 3;
    while true
      invariant 3 <= i && i % 2 == 1
      invariant NoDivisorBelow(n, i)
      decreases n - i
    {
      QuotientBelow(n, i);
      if i > n / i {
        break;
      }
      RootIsSmaller(n, i);
      if n % i == 0 {
        return false;
      }
      OddHasNoEvenDivisor(n, i + 1);
      i := i + 2;
    }
    NoneUpToRoot(n, i);
    return true;
  }

  // ---------- the sieve ----------

  /** Nothing below `i` whose square reaches `n` has crossed `n` out. */
  ghost predicate Survives(n: int, i: int) {
    n > 1 && forall d | 2 <= d < i && d * d <= n :: n % d != 0
  }

  lemma SurvivorsArePrime(n: int, i: int, max: int)
    requires i > 1 && n <= max < i * i
    ensures Survives(n, i) <==> Prime(n)
  {
    if Prime(n) {
      forall d | 2 <= d < i && d * d <= n
        ensures n % d != 0
      {
        RootIsSmaller(n, d);
      }
    } else if n > 1 {
      var d := SmallDivisor(n);
      RootBelow(n, d, i);
    }
  }

  /** Passing `i` crosses out the multiples of `i` from its square on. */
  lemma Pass(n: int, i: int)
    requires i > 1
    ensures Survives(n, i + 1) <==> Survives(n, i) && !(i * i <= n && n % i == 0)
  {
  }

  /** Passing a number already crossed out crosses out nothing. */
  lemma PassComposite(n: int, i: int)
    requires i > 1 && !Survives(i, i)
    ensures Survives(n, i + 1) <==> Survives(n, i)
  {
    Pass(n, i);
    var d :| 2 <= d < i && d * d <= i && i % d == 0;
    if i * i <= n && n % i == 0 {
      RootIsSmaller(n, i);
      DividesOn(d, i, n);
    }
  }

  /** Even numbers above 2 need no pass of their own. */
  lemma PassEven(n: int, i: int)
    requires i > 2 && i % 2 == 0
    ensures Survives(n, i + 1) <==> Survives(n, i)
  {
    Pass(n, i);
    if i * i <= n && n % i == 0 {
      RootIsSmaller(n, i);
      TimesOrder(2, i, i);
      DividesOn(2, i, n);
    }
  }

  lemma NextMultiple(n: int, j: int, i: int)
    requires i > 0 && j % i == 0 && j <= n < j + i
    ensures n % i == 0 <==> n == j
    ensures (j + i) % i == 0
  {
    var a := j / i;
    assert j == a * i;
    assert j + i == (a + 1) * i;
    MultipleMod(a + 1, i);
    if n % i == 0 {
      var b := n / i;
      assert n == b * i;
      TimesOrder(b, a, i);
      TimesOrder(a, b, i);
      TimesOrder(a + 1, b, i);
    }
  }

  class PreCalculatedPrimeTable {
    const isPrimeSize: nat
    const isPrime: array<bool>

    /** The table holds exactly the primes. */
    ghost predicate Valid()
      reads isPrime
    {
      && isPrimeSize == isPrime.Length >= 2
      && forall n | 0 <= n < isPrime.Length :: isPrime[n] <==> Prime(n)
    }

    constructor (max: nat)
      requires max >= 1
      ensures Valid() && isPrimeSize == max + 1 && fresh(isPrime)
    {
      isPrimeSize := max + 1;
      isPrime := new bool[max + 1];
      new;
      CalculatePrimesUpTo(max);
    }

    method CalculatePrimesUpTo(max: nat)
      requires max >= 1 && isPrimeSize == isPrime.Length == max + 1
      modifies isPrime
      ensures Valid()
    {
      hide Survives, Prime;
      forall n | 0 <= n < isPrime.Length {
        isPrime[n] := true;
      }
      isPrime[0], isPrime[1] := false, false;
      var i := 2;
      FreshTable();
      while i * i <= max
        invariant 2 <= i && (i % 2 == 1 || i == 2)
        invariant Sieved(i)
        decreases max - i
      {
        RootIsSmaller(max, i);
        if isPrime[i] {
          Mark(max, i);
        } else {
          NothingToMark(i);
        }
        if i % 2 == 1 {
          SkipEven(i + 1);
        }
        i := i + i % 2 + 1;
      }
      forall n | 0 <= n < isPrime.Length
        ensures isPrime[n] <==> Prime(n)
      {
        SurvivorsArePrime(n, i, max);
      }
    }

    /** The table after the passes below `i`. */
    ghost predicate Sieved(i: int)
      reads isPrime
    {
      forall n {:trigger Survives(n, i)} | 0 <= n < isPrime.Length :: isPrime[n] <==> Survives(n, i)
    }

    lemma FreshTable()
      requires forall n | 0 <= n < isPrime.Length :: isPrime[n] <==> n > 1
      ensures Sieved(2)
    {
    }

    lemma NothingToMark(i: int)
      requires 1 < i < isPrime.Length && !isPrime[i] && Sieved(i)
      ensures Sieved(i + 1)
    {
      hide Survives;
      assert !Survives(i, i);
      forall n | 0 <= n < isPrime.Length
        ensures isPrime[n] <==> Survives(n, i + 1)
      {
        PassComposite(n, i);
        assert isPrime[n] <==> Survives(n, i);
      }
    }

    lemma SkipEven(i: int)
      requires i > 2 && i % 2 == 0 && Sieved(i)
      ensures Sieved(i + 1)
    {
      hide Survives;
      forall n | 0 <= n < isPrime.Length
        ensures isPrime[n] <==> Survives(n, i + 1)
      {
        PassEven(n, i);
        assert isPrime[n] <==> Survives(n, i);
      }
    }

    /** Clears the multiples of `i`, starting at its square. */
    method Mark(max: nat, i: int)
      requires isPrime.Length == max + 1 && 2 <= i && i * i <= max && Sieved(i)
      modifies isPrime
      ensures Sieved(i + 1)
    {
      hide Survives;
      var j := i * i;
      MultipleMod(i, i);
      while j <= max
        invariant i * i <= j && j % i == 0
        invariant forall n | 0 <= n < isPrime.Length ::
                    isPrime[n] <==> Survives(n, i) && !(i * i <= n < j && n % i == 0)
        decreases max - j
      {
        isPrime[j] := false;
        forall n | j <= n < j + i
          ensures n % i == 0 <==> n == j
        {
          NextMultiple(n, j, i);
        }
        NextMultiple(j, j, i);
        j := j + i;
      }
      forall n | 0 <= n < isPrime.Length
        ensures isPrime[n] <==> Survives(n, i + 1)
      {
        Pass(n, i);
      }
    }

    predicate IsPrime(n: int): (prime: bool)
      requires Valid()
      reads isPrime
      ensures n < isPrimeSize ==> (prime <==> Prime(n))
      ensures n >= isPrimeSize ==> !prime
    {
      0 <= n < isPrimeSize && isPrime[n]
    }

    /** The smallest prime above `p`, or -1 when that lies beyond the table. */
    method GetNextPrime(p: int) returns (next: int)
      requires Valid() && p >= -1
      ensures next != -1 ==> IsNextPrime(p, next) && next < isPrimeSize
      ensures next == -1 <==> forall n | p < n < isPrimeSize :: !Prime(n)
    {
      var n := p + 1;
      while n < isPrimeSize
        invariant p < n && forall k | p < k < n && k < isPrimeSize :: !Prime(k)
      {
        if isPrime[n] {
          return n;
        }
        n := n + 1;
      }
      return -1;
    }
  }

  // ---------- the hybrid ----------

  class HybridPrimeTable {
    const onTheFlyImpl: OnTheFlyPrimeTable
    const precalcImpl: PreCalculatedPrimeTable?
    const maxPrecalculated: int

    ghost predicate Valid()
      reads if precalcImpl == null then {} else {precalcImpl.isPrime}
    {
      precalcImpl != null ==> precalcImpl.Valid() && precalcImpl.isPrimeSize == maxPrecalculated + 1
    }

    constructor (forceOnTheFly: bool, maxPrecalculated: int)
      requires !forceOnTheFly ==> maxPrecalculated >= 1
      ensures Valid()
      ensures precalcImpl == null <==> forceOnTheFly
      ensures this.maxPrecalculated == maxPrecalculated
    {
      onTheFlyImpl := new OnTheFlyPrimeTable();
      if forceOnTheFly {
        precalcImpl := null;
      } else {
        precalcImpl := new PreCalculatedPrimeTable(maxPrecalculated);
      }
      this.maxPrecalculated := maxPrecalculated;
    }

    method IsPrime(n: int) returns (prime: bool)
      requires Valid()
      ensures prime <==> Prime(n)
    {
      if precalcImpl != null && n < maxPrecalculated {
        prime := precalcImpl.IsPrime(n);
      } else {
        prime := onTheFlyImpl.IsPrime(n);
      }
    }

    /** Agrees with trial division from 0 on. At -1 the two differ when the table holds a
        prime. */
    method GetNextPrime(p: int) returns (next: int)
      requires Valid() && (precalcImpl != null ==> p >= -1)
      ensures p >= 0 ==> IsNextPrime(p, next)
      ensures p < 0 ==> next == if precalcImpl != null && maxPrecalculated >= 2 then 2 else -1
    {
      next := -1;
      if precalcImpl != null && p < maxPrecalculated {
        next := precalcImpl.GetNextPrime(p);
        assert Prime(2);
      }
      if next == -1 {
        next := onTheFlyImpl.GetNextPrime(p);
      }
    }
  }
}
