/** The little number theory that the order of x modulo the CRC-32 generator needs. */
module Primes {
  import opened Ring

  ghost predicate Prime(p: nat) {
    p > 1 && forall d :: 1 < d < p ==> p % d != 0
  }

  lemma MulMonotone(a: nat, b: nat, r: nat)
    requires a >= r && b >= r
    ensures a * b >= r * r
  {
  }

  /** Trial division up to the square root. */
  lemma PrimeByTrial(p: nat, r: nat)
    requires p > 1 && r * r > p
    requires forall d :: 1 < d < r ==> p % d != 0
    ensures Prime(p)
  {
    forall d | 1 < d < p ensures p % d != 0 {
      if p % d == 0 {
        var e := p / d;
        DivMod(p, d);
        assert p == e * d;
        if e < r {
          assert e > 1;
          ModUnique(p, e, d, 0);
        } else if d >= r {
          MulMonotone(e, d, r);
        }
      }
    }
  }

  lemma NoDivisorTo128(d: nat, q: nat)
    requires 1 < d <= 128
    ensures 65537 != q * d
  {
  }

  lemma NoDivisorFrom128(d: nat, q: nat)
    requires 128 < d <= 256
    ensures 65537 != q * d
  {
  }

  /** No number up to 256 divides 65537. */
  lemma NoSmallDivisor(d: nat, q: nat)
    requires 1 < d <= 256
    ensures 65537 != q * d
  {
    if d <= 128 { NoDivisorTo128(d, q); } else { NoDivisorFrom128(d, q); }
  }

  /** The five prime factors of 2^32 - 1. */
  lemma FermatPrimes()
    ensures Prime(3) && Prime(5) && Prime(17) && Prime(257) && Prime(65537)
  {
    PrimeByTrial(3, 2);
    PrimeByTrial(5, 3);
    PrimeByTrial(17, 5);
    PrimeByTrial(257, 17);
    forall d | 1 < d < 257 ensures 65537 % d != 0 {
      NoSmallDivisor(d, 65537 / d);
      DivMod(65537, d);
    }
    PrimeByTrial(65537, 257);
  }

  lemma Combine(x: int, y: int, q: int, b: int, r: int)
    ensures x * b + y * r == y * (q * b + r) + (x - y * q) * b
  {
  }

  lemma Scale(u: int, v: int, q: int, g: int)
    ensures q * (u * g) + v * g == (q * u + v) * g
  {
  }

  /** A common divisor that is a combination of the two numbers. */
  lemma {:induction false} Bezout(a: nat, b: nat) returns (g: nat, u: nat, v: nat, x: int, y: int)
    requires a > 0
    ensures g > 0 && a == u * g && b == v * g && g == x * a + y * b
    decreases b
  {
    if b == 0 {
      g, u, v, x, y := a, 1, 0, 1, 0;
    } else {
      var q, r := a / b, a % b;
      DivMod(a, b);
      var u', v', x', y';
      g, u', v', x', y' := Bezout(b, r);
      Scale(u', v', q, g);
      Combine(x', y', q, b, r);
      u, v, x, y := q * u' + v', u', y', x' - y' * q;
    }
  }

  lemma Expand(x: int, a: int, y: int, p: int, b: int, k: int)
    requires a * b == p * k && 1 == x * a + y * p
    ensures b == p * (x * k + y * b)
  {
    assert b == (x * a + y * p) * b;
    assert (x * a + y * p) * b == x * (a * b) + y * p * b;
    assert x * (p * k) + y * p * b == p * (x * k + y * b);
  }

  /** A prime that divides a product divides one of its factors. */
  lemma Euclid(p: nat, a: nat, b: nat, k: nat) returns (inFirst: bool, w: nat)
    requires Prime(p) && a * b == p * k && k > 0
    ensures if inFirst then a == p * w else b == p * w && a * w == k
  {
    var g, u, v, x, y := Bezout(p, a);
    if g == p {
      inFirst, w := true, v;
      assert v * g == p * v;
    } else {
      OnlyTrivialDivisor(p, g, u);
      assert 1 == y * a + x * p;
      Expand(y, a, x, p, b, k);
      var c := y * k + x * b;
      NotNegative(p, c, b);
      inFirst, w := false, c;
      Cancel(p, a, w, k);
    }
  }

  lemma NotNegative(p: nat, c: int, b: nat)
    requires p > 0 && b == p * c
    ensures c >= 0
  {
  }

  lemma OnlyTrivialDivisor(p: nat, g: nat, u: nat)
    requires Prime(p) && g > 0 && p == u * g && g != p
    ensures g == 1
  {
    FactorBound(p, g, u);
    if g > 1 { ModUnique(p, g, u, 0); }
  }

  lemma FactorBound(p: nat, g: nat, u: nat)
    requires p > 0 && p == u * g
    ensures g <= p
  {
  }

  lemma Cancel(p: nat, a: nat, w: nat, k: nat)
    requires p > 0 && a * (p * w) == p * k
    ensures a * w == k
  {
    assert p * (a * w) == p * k;
    MulMinus(a * w, k, p);
    SameQuotient(a * w, k, p, 0);
  }
}
