/**
 is_prime and calc_next_prime of SketchLearn/hash.c.  That the search ends needs
 Euclid's theorem: there is a prime above every number.
 */
module Prime {
  import opened Arith

  ghost predicate Divides(d: int, n: int)
    requires d > 0
  {
    n % d == 0
  }

  ghost predicate IsPrime(n: int) {
    n >= 2 && forall d :: 2 <= d < n ==> !Divides(d, n)
  }

  method IsPrimeTest(num: int) returns (r: int)
    ensures (r == 1 <==> IsPrime(num)) && (r == 1 || r == 0)
  {
    var i := 2;
    while i < num
      invariant 2 <= i && (num >= 2 ==> i <= num)
      invariant forall d :: 2 <= d < i ==> !Divides(d, num)
    {
      if num % i == 0 {
        assert Divides(i, num);
        break;
      }
      i := i + 1;
    }
    if i == num {
      return 1;
    }
    return 0;
  }

  /** The product 1 * 2 * ... * n. */
  function Factorial(n: nat): (r: nat)
    ensures r > 0
  {
    if n == 0 then 1 else n * Factorial(n - 1)
  }

  lemma {:induction false} DividesFactorial(d: nat, n: nat)
    requires 0 < d <= n
    ensures Divides(d, Factorial(n))
    decreases n
  {
    if d == n {
      DivModUnique(d, Factorial(n), Factorial(n - 1), 0);
    } else {
      DividesFactorial(d, n - 1);
      var q := Factorial(n - 1) / d;
      assert Factorial(n - 1) == d * q;
      assert Factorial(n) == (n * q) * d + 0;
      DivModUnique(d, Factorial(n), n * q, 0);
    }
  }

  /** The least divisor above one is a prime. */
  lemma {:induction false} LeastDivisor(n: nat, d: nat) returns (p: nat)
    requires n >= 2 && 2 <= d <= n && forall e :: 2 <= e < d ==> !Divides(e, n)
    ensures d <= p <= n && Divides(p, n) && IsPrime(p)
    decreases n - d
  {
    if Divides(d, n) {
      p := d;
      forall e | 2 <= e < p
        ensures !Divides(e, p)
      {
        if Divides(e, p) {
          DividesThrough(e, p, n);
        }
      }
    } else {
      p := LeastDivisor(n, d + 1);
    }
  }

  lemma DividesThrough(e: nat, p: nat, n: nat)
    requires 0 < e && 0 < p && Divides(e, p) && Divides(p, n)
    ensures Divides(e, n)
  {
    var a, b := p / e, n / p;
    assert p == a * e && n == b * p;
    assert n == (b * a) * e + 0;
    DivModUnique(e, n, b * a, 0);
  }

  /** There is a prime at or above every number. */
  lemma PrimeAbove(n: int) returns (p: nat)
    ensures p >= n && IsPrime(p)
  {
    if n <= 2 {
      p := 2;
    } else {
      var f := Factorial(n);
      p := LeastDivisor(f + 1, 2);
      if p < n {
        DividesFactorial(p, n);
        var q := f / p;
        assert f + 1 == q * p + 1;
        DivModUnique(p, f + 1, q, 1);
      }
    }
  }

  ghost predicate LeastPrimeFrom(num: int, r: int) {
    IsPrime(r) && r >= num && forall q :: num <= q < r ==> !IsPrime(q)
  }

  /** The least prime at or above any integer; the loop always ends. */
  method CalcNextPrime(num: int) returns (r: int)
    ensures LeastPrimeFrom(num, r)
  {
    r := num;
    ghost var p := PrimeAbove(num);
    var found := IsPrimeTest(r);
    while found != 1
      invariant num <= r <= p && (found == 1 <==> IsPrime(r))
      invariant forall q :: num <= q < r ==> !IsPrime(q)
      decreases p - r
    {
      r := r + 1;
      found := IsPrimeTest(r);
    }
  }
}
