/** Divisors and primes. */
module PrimeFacts {
  import opened Arithmetic

  ghost predicate Prime(n: int) {
    n > 1 && forall d | 1 < d < n :: n % d != 0
  }

  /** `q` is the smallest prime above `p`. */
  ghost predicate IsNextPrime(p: int, q: int) {
    p < q && Prime(q) && forall n | p < n < q :: !Prime(n)
  }

  lemma Quotient(n: int, d: int) returns (q: int)
    requires n > 0 && d > 0 && n % d == 0
    ensures q * d == n && 0 < q
  {
    q := n / d;
    assert n == q * d + n % d;
    TimesOrder(q, 0, d);
  }

  lemma DividesOn(a: int, b: int, n: int)
    requires a > 0 && b > 0 && n > 0 && b % a == 0 && n % b == 0
    ensures n % a == 0
  {
    var x := Quotient(b, a);
    var y := Quotient(n, b);
    assert n == y * (x * a) == (y * x) * a;
    MultipleMod(y * x, a);
  }

  lemma SquareLess(a: int, b: int)
    requires 0 <= a && 0 <= b && a * a <= b * b
    ensures a <= b
  {
    if a > b {
      TimesOrder(b, a, a);
      if b > 0 {
        TimesOrder(b, a, b);
      }
    }
  }

  lemma Cofactor(n: int, d: int, e: int)
    requires e * d == n && 0 < e && 1 < d < n < d * d
    ensures 1 < e < n && e * e <= n
  {
    TimesOrder(d, e, d);
    TimesOrder(e, d, e);
    TimesOrder(2, d, e);
    TimesOrder(e, 1, d);
    assert d * e == e * d;
  }

  /** A composite has a divisor no larger than its square root. */
  lemma SmallDivisor(n: int) returns (d: int)
    requires n > 1 && !Prime(n)
    ensures 1 < d < n && d * d <= n && n % d == 0
  {
    d :| 1 < d < n && n % d == 0;
    if d * d > n {
      var e := Quotient(n, d);
      Cofactor(n, d, e);
      MultipleMod(d, e);
      assert d * e == e * d;
      d := e;
    }
  }

  lemma {:induction false} PrimeDivisor(n: int) returns (p: int)
    requires n > 1
    ensures Prime(p) && p <= n && n % p == 0
    decreases n
  {
    if Prime(n) {
      p := n;
    } else {
      var d := SmallDivisor(n);
      p := PrimeDivisor(d);
      DividesOn(p, d, n);
    }
  }

  // ---------- there is always a larger prime ----------

  ghost function Factorial(n: nat): (f: nat)
    ensures f >= 1
  {
    if n == 0 then 1 else AtLeastOnce(Factorial(n - 1), n); n * Factorial(n - 1)
  }

  lemma {:induction false} DividesFactorial(d: int, n: nat)
    requires 1 <= d <= n
    ensures Factorial(n) % d == 0
  {
    if d == n {
      MultipleMod(Factorial(n - 1), n);
      assert Factorial(n) == Factorial(n - 1) * n;
    } else {
      DividesFactorial(d, n - 1);
      var q := Quotient(Factorial(n - 1), d);
      assert Factorial(n) == n * (q * d) == (n * q) * d;
      MultipleMod(n * q, d);
    }
  }

  /** Above every number there is a prime. */
  lemma LargerPrime(n: nat) returns (p: int)
    ensures p > n && Prime(p)
  {
    var m := Factorial(n) + 1;
    p := PrimeDivisor(m);
    if p <= n {
      DividesFactorial(p, n);
      var a := Quotient(m, p);
      var b := Quotient(Factorial(n), p);
      TimesOrder(a, b, p);
      TimesOrder(b, a, p);
      assert false;
    }
  }
}
