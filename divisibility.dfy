/** Divisibility on naturals and the greatest common divisor, stated by its
    defining property rather than by an algorithm: the reference against
    which the binary gcd of the integer utilities is proved. */
module Divisibility {

  /** `d` divides `n` (0 divides only 0; every number divides 0). */
  predicate Divides(d: nat, n: nat) {
    if d == 0 then n == 0 else n % d == 0
  }

  /** `g` is the greatest common divisor of `a` and `b` in the divisibility
      order: a common divisor that every common divisor divides.  With this
      reading gcd(0, b) == b and gcd(0, 0) == 0. */
  ghost predicate IsGcd(g: nat, a: nat, b: nat) {
    Divides(g, a) && Divides(g, b) &&
    forall d: nat :: Divides(d, a) && Divides(d, b) ==> Divides(d, g)
  }

  /** `a, b` and `c, d` have the same common divisors. */
  ghost predicate SameCommonDivisors(a: nat, b: nat, c: nat, d: nat) {
    forall k: nat :: Divides(k, a) && Divides(k, b) <==> Divides(k, c) && Divides(k, d)
  }

  // ---------------------------------------------------------------------
  // Multiplication, division and remainder

  lemma {:induction false} MulAtLeast(p: nat, t: int)
    requires t >= 1
    ensures p * t >= p
  {
    if t > 1 {
      MulAtLeast(p, t - 1);
      assert p * t == p * (t - 1) + p;
    }
  }

  /** Quotient and remainder are determined by the division equation. */
  lemma DivModUnique(n: int, p: nat, q: int, m: int)
    requires p > 0 && 0 <= m < p && n == p * q + m
    ensures n / p == q && n % p == m
  {
    var d, r := n / p, n % p;
    assert p * (q - d) == r - m;
    if q - d >= 1 {
      MulAtLeast(p, q - d);
    } else if d - q >= 1 {
      MulAtLeast(p, d - q);
    }
  }

  lemma MulDivCancel(p: nat, q: int)
    requires p > 0
    ensures (p * q) / p == q && (p * q) % p == 0
  {
    DivModUnique(p * q, p, q, 0);
  }

  /** Multiplying by a natural keeps the order. */
  lemma MulMonotone(a: int, b: int, c: nat)
    requires a <= b
    ensures a * c <= b * c
  {
    if a < b && c > 0 {
      MulAtLeast(c, b - a);
      assert b * c == a * c + c * (b - a);
    }
  }

  /** The ceiling of a / b is unique: at most one r has (r - 1) * b < a <= r * b. */
  lemma CeilUnique(a: int, b: nat, r: int, r': int)
    requires b > 0
    requires (r - 1) * b < a <= r * b
    requires (r' - 1) * b < a <= r' * b
    ensures r == r'
  {
    if r < r' {
      MulMonotone(r, r' - 1, b);
    } else if r' < r {
      MulMonotone(r', r - 1, b);
    }
  }

  // ---------------------------------------------------------------------
  // Divisibility

  lemma DividesIntro(d: nat, k: nat)
    ensures Divides(d, d * k)
  {
    if d > 0 { MulDivCancel(d, k); }
  }

  lemma DividesElim(d: nat, n: nat)
    requires Divides(d, n) && d > 0
    ensures n == d * (n / d)
  {
  }

  lemma DividesRefl(n: nat)
    ensures Divides(n, n)
  {
    DividesIntro(n, 1);
  }

  lemma DividesZero(d: nat)
    ensures Divides(d, 0)
  {
    DividesIntro(d, 0);
  }

  /** A divisor of a positive number is at most that number. */
  lemma DividesBound(d: nat, n: nat)
    requires Divides(d, n) && n > 0
    ensures 0 < d <= n
  {
    DividesElim(d, n);
    MulAtLeast(d, n / d);
  }

  lemma DividesTrans(a: nat, b: nat, c: nat)
    requires Divides(a, b) && Divides(b, c)
    ensures Divides(a, c)
  {
    if a == 0 || b == 0 {
      return;
    }
    DividesElim(a, b);
    DividesElim(b, c);
    var k, m := b / a, c / b;
    assert c == a * (k * m) by {
      calc {
        c;
        b * m;
        (a * k) * m;
        a * (k * m);
      }
    }
    DividesIntro(a, k * m);
  }

  lemma DividesAntisym(a: nat, b: nat)
    requires Divides(a, b) && Divides(b, a)
    ensures a == b
  {
    if a > 0 && b > 0 {
      DividesBound(a, b);
      DividesBound(b, a);
    }
  }

  lemma DividesMul(d: nat, n: nat, m: nat)
    requires Divides(d, n)
    ensures Divides(d, n * m)
  {
    if d == 0 {
      return;
    }
    DividesElim(d, n);
    var k := n / d;
    assert n * m == d * (k * m);
    DividesIntro(d, k * m);
  }

  /** Divisibility of factors carries over to the products. */
  lemma DividesMulBoth(a: nat, b: nat, c: nat, d: nat)
    requires Divides(a, b) && Divides(c, d)
    ensures Divides(a * c, b * d)
  {
    if a == 0 || c == 0 {
      return;
    }
    DividesElim(a, b);
    DividesElim(c, d);
    var k, m := b / a, d / c;
    assert b * d == (a * c) * (k * m) by {
      calc {
        b * d;
        (a * k) * (c * m);
        (a * c) * (k * m);
      }
    }
    DividesIntro(a * c, k * m);
  }

  lemma DividesSub(d: nat, a: nat, b: nat)
    requires Divides(d, a) && Divides(d, b) && b <= a
    ensures Divides(d, a - b)
  {
    if d > 0 {
      DividesElim(d, a);
      DividesElim(d, b);
      var ka, kb := a / d, b / d;
      assert a - b == d * (ka - kb);
      if ka < kb {
        MulAtLeast(d, kb - ka);
      }
      DividesIntro(d, ka - kb);
    }
  }

  lemma DividesAdd(d: nat, a: nat, b: nat)
    requires Divides(d, a) && Divides(d, b)
    ensures Divides(d, a + b)
  {
    if d > 0 {
      DividesElim(d, a);
      DividesElim(d, b);
      var ka, kb := a / d, b / d;
      assert a + b == d * (ka + kb);
      DividesIntro(d, ka + kb);
    }
  }

  /** Cancelling a common positive factor. */
  lemma DividesCancel(c: nat, a: nat, b: nat)
    requires c > 0 && Divides(c * a, c * b)
    ensures Divides(a, b)
  {
    if a == 0 {
      assert c * b == 0;
      if b > 0 { MulAtLeast(c, b); }
    } else {
      DividesElim(c * a, c * b);
      var k := (c * b) / (c * a);
      assert c * (b - a * k) == 0 by {
        assert c * b == (c * a) * k;
      }
      if b - a * k >= 1 {
        MulAtLeast(c, b - a * k);
      } else if a * k - b >= 1 {
        MulAtLeast(c, a * k - b);
      }
      assert b == a * k;
      DividesIntro(a, k);
    }
  }

  /** An odd number that divides 2n divides n. */
  lemma OddDividesHalf(d: nat, n: nat)
    requires d % 2 == 1 && Divides(d, 2 * n)
    ensures Divides(d, n)
  {
    DividesElim(d, 2 * n);
    var k := (2 * n) / d;
    var j := k / 2;
    assert 2 * n == 2 * (d * j) + d * (k % 2) by {
      assert k == 2 * j + k % 2;
      assert d * k == d * (2 * j) + d * (k % 2);
    }
    assert k % 2 == 0;
    DividesIntro(d, j);
  }

  /** A divisor of an odd number is odd. */
  lemma DivisorOfOddIsOdd(d: nat, n: nat)
    requires n % 2 == 1 && Divides(d, n)
    ensures d % 2 == 1
  {
    DividesElim(d, n);
    var k, e := n / d, d / 2;
    assert n == 2 * (e * k) + (d % 2) * k by {
      assert d == 2 * e + d % 2;
      assert d * k == (2 * e) * k + (d % 2) * k;
    }
  }

  // ---------------------------------------------------------------------
  // The greatest common divisor

  /** The defining property determines the gcd uniquely. */
  lemma GcdUnique(g1: nat, g2: nat, a: nat, b: nat)
    requires IsGcd(g1, a, b) && IsGcd(g2, a, b)
    ensures g1 == g2
  {
    DividesAntisym(g1, g2);
  }

  /** gcd(0, b) == b: the value the source returns when one argument is 0. */
  lemma GcdZeroLeft(b: nat)
    ensures IsGcd(b, 0, b)
  {
    DividesZero(b);
    DividesRefl(b);
  }

  lemma GcdZeroRight(a: nat)
    ensures IsGcd(a, a, 0)
  {
    DividesZero(a);
    DividesRefl(a);
  }

  /** Subtracting the smaller argument from the larger keeps the common divisors. */
  lemma SubtractKeepsCommonDivisors(a: nat, b: nat)
    requires b <= a
    ensures SameCommonDivisors(a - b, b, a, b)
  {
    forall k: nat
      ensures Divides(k, a - b) && Divides(k, b) <==> Divides(k, a) && Divides(k, b)
    {
      if Divides(k, a - b) && Divides(k, b) {
        DividesAdd(k, a - b, b);
      }
      if Divides(k, a) && Divides(k, b) {
        DividesSub(k, a, b);
      }
    }
  }

  /** Halving an even argument keeps the common divisors with an odd one. */
  lemma HalveKeepsCommonDivisors(n: nat, b: nat)
    requires b % 2 == 1
    ensures SameCommonDivisors(n, b, 2 * n, b)
  {
    forall k: nat
      ensures Divides(k, n) && Divides(k, b) <==> Divides(k, 2 * n) && Divides(k, b)
    {
      if Divides(k, n) && Divides(k, b) {
        DividesMul(k, n, 2);
      }
      if Divides(k, 2 * n) && Divides(k, b) {
        DivisorOfOddIsOdd(k, b);
        OddDividesHalf(k, n);
      }
    }
  }

  /** When the two arguments have become equal, that value is their gcd. */
  lemma GcdOfEqual(a: nat, c: nat, d: nat)
    requires SameCommonDivisors(a, a, c, d)
    ensures IsGcd(a, c, d)
  {
    DividesRefl(a);
    assert Divides(a, a) && Divides(a, a);
  }
}
