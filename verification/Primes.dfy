/** The facility registry's prime search: trial division, and the next prime at or above a number. */
module Primes {
  ghost predicate Prime(n: nat) {
    n >= 2 && forall d :: 2 <= d < n ==> n % d != 0
  }

  /** What the trial division answers: right for 0 and from 2 up, but it takes 1 for a prime. */
  ghost predicate TakenForPrime(n: nat) {
    n == 1 || Prime(n)
  }

  lemma {:induction false} DivMod(n: nat, d: nat) returns (q: nat)
    requires 0 < d && n % d == 0
    ensures n == d * q
  {
    q := n / d;
  }

  /** Quotient and remainder are unique. */
  lemma {:induction false} DivUnique(a: nat, d: nat, q: nat, r: nat)
    requires a == d * q + r && r < d
    ensures a % d == r
  {
    var q', r' := a / d, a % d;
    assert d * q' + r' == d * q + r;
    if q < q' {
      Distribute(d, q', q);
      Grow(d, q' - q, 1);
    } else if q' < q {
      Distribute(d, q, q');
      Grow(d, q - q', 1);
    }
  }

  lemma {:induction false} Distribute(d: int, x: int, y: int)
    ensures d * x - d * y == d * (x - y)
  {
  }

  /** Both factors at least as large. */
  lemma {:induction false} Grow(d: nat, q: nat, i: nat)
    requires q >= i
    ensures d * q >= d * i
  {
  }

  lemma {:induction false} ModOfProduct(d: nat, q: nat)
    requires 0 < d
    ensures (d * q) % d == 0
  {
    DivUnique(d * q, d, q, 0);
  }

  lemma {:induction false} Products(d: nat, q: nat, i: nat)
    requires i <= d && i <= q
    ensures i * i <= d * q
  {
    Grow(d, q, i);
    Grow(i, d, i);
  }

  /** A divisor has a partner, which is a divisor too. */
  lemma {:induction false} Partner(n: nat, d: nat) returns (q: nat)
    requires 2 <= d < n && n % d == 0
    ensures 2 <= q && n == d * q && n % q == 0
  {
    q := DivMod(n, d);
    if q >= 2 {
      ModOfProduct(q, d);
    }
  }

  /** A divisor whose square exceeds n has a partner whose square does not. */
  lemma {:induction false} NoSmallDivisor(n: nat, i: nat)
    requires 2 <= n && 2 <= i && i * i > n
    requires forall d :: 2 <= d < i ==> n % d != 0
    ensures Prime(n)
  {
    forall d | 2 <= d < n ensures n % d != 0 {
      if n % d == 0 {
        var q := Partner(n, d);
        if i <= d && i <= q {
          Products(d, q, i);
        }
      }
    }
  }

  method IsPrime(n: nat) returns (r: bool)
    ensures r <==> TakenForPrime(n)
  {
    if n == 0 {
      return false;
    }
    var i := 2;
    while i * i <= n
      invariant 2 <= i && forall d :: 2 <= d < i ==> n % d != 0
      invariant n > 1 ==> i <= n
      decreases n + 1 - i
    {
      if n % i == 0 {
        assert i < n by { Square(i, n); }
        return false;
      }
      if i == n {
        ModSelf(n);
      }
      Square(i, n);
      i := i + 1;
    }
    if n >= 2 {
      NoSmallDivisor(n, i);
    }
    return true;
  }

  lemma {:induction false} Square(i: nat, n: nat)
    requires 2 <= i && i * i <= n
    ensures i < n
  {
    assert i * i >= 2 * i;
  }

  lemma {:induction false} ModSelf(n: nat)
    requires 0 < n
    ensures n % n == 0
  {
  }

  // ---------------------------------------------------------------------------------------------------------
  // There is always a prime above

  ghost function Factorial(n: nat): (f: nat)
    ensures f >= 1
  {
    if n == 0 then 1 else n * Factorial(n - 1)
  }

  lemma {:induction false} FactorialDivides(n: nat, d: nat)
    requires 1 <= d <= n
    ensures Factorial(n) % d == 0
  {
    if d == n {
      ModOfProduct(n, Factorial(n - 1));
    } else {
      FactorialDivides(n - 1, d);
      var q := DivMod(Factorial(n - 1), d);
      assert Factorial(n) == n * (d * q) == d * (n * q);
      ModOfProduct(d, n * q);
    }
  }

  /** The least divisor from 2 up is a prime. */
  lemma {:induction false} LeastDivisorIsPrime(n: nat, i: nat) returns (p: nat)
    requires 2 <= i <= n && forall d :: 2 <= d < i ==> n % d != 0
    ensures i <= p <= n && Prime(p) && n % p == 0
    decreases n - i
  {
    if n % i == 0 {
      p := i;
      forall d | 2 <= d < p ensures p % d != 0 {
        if p % d == 0 {
          var a := DivMod(p, d);
          var b := DivMod(n, p);
          assert n == d * a * b == d * (a * b);
          ModOfProduct(d, a * b);
        }
      }
    } else {
      p := LeastDivisorIsPrime(n, i + 1);
    }
  }

  /** Euclid: a prime divisor of n! + 1 is greater than n. */
  lemma {:induction false} PrimeAtOrAbove(n: nat) returns (p: nat)
    ensures n <= p && Prime(p)
  {
    var m := Factorial(n) + 1;
    p := LeastDivisorIsPrime(m, 2);
    if p < n {
      FactorialDivides(n, p);
      ConsecutiveMultiples(Factorial(n), p);
    }
  }

  lemma {:induction false} ConsecutiveMultiples(a: nat, d: nat)
    requires 2 <= d && a % d == 0
    ensures (a + 1) % d != 0
  {
    var q := DivMod(a, d);
    DivUnique(a + 1, d, q, 1);
  }

  /** Terminates at the least number from n up that the trial division takes for a prime. */
  method NextPrimeUp(n: nat) returns (p: nat)
    ensures n <= p && TakenForPrime(p)
    ensures forall k :: n <= k < p ==> !TakenForPrime(k)
  {
    ghost var q := PrimeAtOrAbove(n);
    p := n;
    var found := IsPrime(p);
    while !found
      invariant n <= p <= q && (found <==> TakenForPrime(p))
      invariant forall k :: n <= k < p ==> !TakenForPrime(k)
      decreases q - p
    {
      p := p + 1;
      found := IsPrime(p);
    }
  }
}
