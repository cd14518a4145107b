/** Divisibility, primes and the smallest prime factor. */
module Divisibility {

  ghost predicate IsPrime(n: int) {
    n >= 2 && forall d :: 2 <= d < n ==> n % d != 0
  }

  lemma AtLeastOnce(q: int, r: int)
    requires q > 0
    ensures r >= 1 ==> q * r >= q
    ensures r <= -1 ==> q * r <= -q
  {
  }

  lemma MulMonotone(p: int, q: int, i: int)
    requires p <= q && 0 <= i
    ensures p * i <= q * i
  {
  }

  lemma MulMod(q: int, m: int)
    requires q > 0
    ensures (q * m) % q == 0
  {
    var x := q * m;
    assert x == q * (x / q) + x % q;
    var r := m - x / q;
    assert x % q == q * r;
    AtLeastOnce(q, r);
  }

  lemma ModZero(q: int, x: int) returns (m: int)
    requires q > 0 && x % q == 0
    ensures x == q * m && m == x / q
  {
    m := x / q;
  }

  lemma DivisibleDifference(q: int, x: int, y: int)
    requires q > 0 && x % q == 0 && y % q == 0
    ensures (x - y) % q == 0
  {
    var m := ModZero(q, x);
    var n := ModZero(q, y);
    assert x - y == q * (m - n);
    MulMod(q, m - n);
  }

  lemma DivisibleMultiple(q: int, x: int, k: int)
    requires q > 0 && x % q == 0
    ensures (k * x) % q == 0
  {
    var m := ModZero(q, x);
    assert k * x == q * (k * m);
    MulMod(q, k * m);
  }

  lemma DivisibleTrans(a: int, b: int, c: int)
    requires a > 0 && b > 0 && b % a == 0 && c % b == 0
    ensures c % a == 0
  {
    var m := ModZero(b, c);
    assert c == m * b;
    DivisibleMultiple(a, b, m);
  }

  lemma {:induction false} EuclidSmall(q: int, r: int, b: int)
    requires IsPrime(q) && 0 < r < q && (r * b) % q == 0
    ensures b % q == 0
    decreases r
  {
    if r > 1 {
      var k, s := q / r, q % r;
      assert q == k * r + s && s != 0;
      assert s * b == b * q - k * (r * b) by {
        assert (q - k * r) * b == q * b - k * r * b;
      }
      assert (b * q) % q == 0 by { MulMod(q, b); }
      DivisibleMultiple(q, r * b, k);
      DivisibleDifference(q, b * q, k * (r * b));
      EuclidSmall(q, s, b);
    }
  }

  /** Euclid's lemma: a prime dividing a product divides one of the factors. */
  lemma Euclid(q: int, a: int, b: int)
    requires IsPrime(q) && (a * b) % q == 0
    ensures a % q == 0 || b % q == 0
  {
    var k, r := a / q, a % q;
    if r != 0 {
      assert r * b == a * b - q * (k * b) by {
        assert (a - q * k) * b == a * b - q * k * b;
      }
      MulMod(q, k * b);
      DivisibleDifference(q, a * b, q * (k * b));
      EuclidSmall(q, r, b);
    }
  }

  function LeastDivisor(n: int, d: int): (r: int)
    requires 2 <= d <= n
    ensures d <= r <= n && n % r == 0
    ensures forall x :: d <= x < r ==> n % x != 0
    decreases n - d
  {
    if n % d == 0 then d else LeastDivisor(n, d + 1)
  }

  /** The smallest prime factor. */
  function Spf(n: int): (p: int)
    requires n >= 2
    ensures 2 <= p <= n && n % p == 0
    ensures forall d :: 2 <= d < p ==> n % d != 0
  {
    LeastDivisor(n, 2)
  }

  lemma SpfPrime(n: int)
    requires n >= 2
    ensures IsPrime(Spf(n))
    ensures IsPrime(n) <==> Spf(n) == n
  {
    var p := Spf(n);
    forall d | 2 <= d < p ensures p % d != 0 {
      if p % d == 0 {
        DivisibleTrans(d, p, n);
      }
    }
  }

  /** Every divisor of at least two is at least the smallest prime factor. */
  lemma SpfLeast(n: int, d: int)
    requires n >= 2 && d >= 2 && n % d == 0
    ensures Spf(n) <= d
  {
  }

  /** The cofactor of a proper divisor is a proper divisor. */
  lemma CofactorBounds(n: int, p: int, i: int)
    requires 2 <= p < n && n == p * i
    ensures 2 <= i < n
  {
    AtLeastOnce(p, i);
    assert i != 0 && i != 1;
    MulMonotone(2, p, i);
  }

  lemma SpfOfFactor(n: int, p: int, i: int)
    requires n >= 2 && i >= 2 && n == p * i
    ensures Spf(n) <= Spf(i)
  {
    var q := Spf(i);
    DivisibleMultiple(q, i, p);
    SpfLeast(n, q);
  }

  /** A composite number is its smallest prime factor times a number without smaller factors. */
  lemma CompositeSplit(n: int)
    requires n >= 2 && !IsPrime(n)
    ensures var p, i := Spf(n), n / Spf(n);
            n == p * i && 2 <= i < n && p <= Spf(i)
  {
    SpfPrime(n);
    var p := Spf(n);
    var i := ModZero(p, n);
    CofactorBounds(n, p, i);
    SpfOfFactor(n, p, i);
  }

  /** Multiplying by a prime that no smaller factor undercuts makes it the smallest prime factor. */
  lemma SpfProduct(p: int, i: int)
    requires IsPrime(p) && i >= 2 && p <= Spf(i)
    ensures p * i >= 2 && Spf(p * i) == p && (p * i) / p == i && !IsPrime(p * i)
  {
    var n := p * i;
    assert n >= 2 * i && n >= p * 2 by {
      assert p * i >= 2 * i;
      assert p * i >= p * 2;
    }
    MulMod(p, i);
    SpfLeast(n, p);
    var q := Spf(n);
    SpfPrime(n);
    if q < p {
      Euclid(q, p, i);
      if i % q == 0 {
        SpfLeast(i, q);
      }
    }
    Quotient(p, i);
  }

  lemma Quotient(p: int, i: int)
    requires p > 0
    ensures (p * i) / p == i
  {
    MulMod(p, i);
    var m := ModZero(p, p * i);
    assert p * (m - i) == 0;
    AtLeastOnce(p, m - i);
  }
}
