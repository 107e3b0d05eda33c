/** The integer utilities on the unsigned types (u8 .. u128, usize),
    written once for a width `w`: ceiling and floor division, the binary
    (Stein's) gcd, and the bit tricks highest_one, lowest_one, sig_bits. */
module Unsigned {
  import opened Divisibility
  import opened Bits

  /** `a.div_ceil(b)`: the truncated quotient, plus one when the division
      leaves a remainder.  The result is the ceiling of a / b: the least
      k with k * b >= a.  Division by zero panics. */
  function DivCeil(w: nat, a: nat, b: nat): (r: nat)
    requires InRange(w, a) && InRange(w, b) && b > 0
    ensures InRange(w, r)
    ensures (r - 1) * b < a <= r * b
  {
    var q := a / b;
    var rem := a % b;
    QuotientFacts(a, b, q, rem);
    if rem != 0 then
      q + 1
    else
      q
  }

  /** `a.div_floor(b)`: plain `/`, the floor of a / b. */
  function DivFloor(w: nat, a: nat, b: nat): (r: nat)
    requires InRange(w, a) && InRange(w, b) && b > 0
    ensures InRange(w, r)
    ensures r * b <= a < (r + 1) * b
  {
    var q := a / b;
    QuotientFacts(a, b, q, a % b);
    q
  }

  /** `x.sig_bits()`: the width minus the leading zeros, the number of bits
      needed to write x.  It is the unique r with 2^(r-1) <= x < 2^r
      (0 for 0). */
  function SigBits(w: nat, x: nat): (r: nat)
    requires InRange(w, x)
    ensures r <= w
    ensures x < Pow2(r)
    ensures x == 0 <==> r == 0
    ensures x > 0 ==> Pow2(r - 1) <= x
  {
    w - LeadingZeros(w, x)
  }

  /** `x.highest_one()`: 0 for 0, otherwise `1 << (sig_bits - 1)`, the
      value of the highest set bit: a power of two h with h <= x < 2h. */
  function HighestOne(w: nat, x: nat): (r: nat)
    requires InRange(w, x)
    ensures InRange(w, r)
    ensures x == 0 ==> r == 0
    ensures x > 0 ==> r == Pow2(SigBits(w, x) - 1) && r <= x < 2 * r
  {
    if x == 0 then 0
    else
      var k := SigBits(w, x) - 1;
      Pow2Less(k, w);
      DivModUnique(Pow2(k), Pow2(w), 0, Pow2(k));
      Shl(w, 1, k)
  }

  /** `x.lowest_one()`, computed as `x & x.wrapping_neg()`: 0 for 0,
      otherwise the value of the lowest set bit: a power of two p that
      divides x and leaves an odd quotient. */
  function LowestOne(w: nat, x: nat): (r: nat)
    requires InRange(w, x)
    ensures InRange(w, r)
    ensures x == 0 ==> r == 0
    ensures x > 0 ==> r == Pow2(TrailingZeros(w, x)) && Divides(r, x) && (x / r) % 2 == 1
  {
    if x == 0 then
      MulDivCancel(Pow2(w), 1);
      And(x, WrappingNeg(w, x))
    else
      DivModUnique(Pow2(w) - x, Pow2(w), 0, Pow2(w) - x);
      AndNegLowestBit(w, x, WrappingNeg(w, x));
      Pow2Less(TrailingZeros(w, x), w);
      ShrIsDiv(x, TrailingZeros(w, x));
      And(x, WrappingNeg(w, x))
  }

  /** `a.gcd(b)`, Stein's binary algorithm: if either argument is 0 the
      result is `a | b`; otherwise the common power of two is set aside,
      both arguments are made odd, and the larger is repeatedly replaced by
      the difference with its factors of two removed, until they are
      equal.  The result is the greatest common divisor. */
  method Gcd(w: nat, a0: nat, b0: nat) returns (g: nat)
    requires InRange(w, a0) && InRange(w, b0)
    ensures InRange(w, g)
    ensures IsGcd(g, a0, b0)
  {
    var a, b := a0, b0;
    if a == 0 || b == 0 {
      g := Or(a, b);
      if a == 0 { GcdZeroLeft(b); } else { GcdZeroRight(a); }
      return;
    }
    var shift := TrailingZeros(w, Or(a, b));
    a := Shr(a, TrailingZeros(w, a));
    b := Shr(b, TrailingZeros(w, b));
    ghost var oddA, oddB := a, b;
    assert SameCommonDivisors(a, b, oddA, oddB);
    while a != b
      invariant a > 0 && b > 0 && a % 2 == 1 && b % 2 == 1
      invariant SameCommonDivisors(a, b, oddA, oddB)
      decreases a + b
    {
      if a > b {
        SubtractKeepsCommonDivisors(a, b);
        a := a - b;
        StripKeepsCommonDivisors(w, a, b);
        a := Shr(a, TrailingZeros(w, a));
      } else {
        SubtractKeepsCommonDivisors(b, a);
        b := b - a;
        StripKeepsCommonDivisors(w, b, a);
        b := Shr(b, TrailingZeros(w, b));
      }
    }
    GcdOfEqual(a, oddA, oddB);
    ShiftedOddGcd(w, a0, b0, a);
    g := Shl(w, a, shift);
  }

  // ---------------------------------------------------------------------
  // Lemmas behind DivCeil and DivFloor

  /** What the division equation a == b * q + rem tells about q. */
  lemma QuotientFacts(a: nat, b: nat, q: nat, rem: nat)
    requires b > 0 && a == b * q + rem && rem < b
    ensures q * b <= a < (q + 1) * b
    ensures rem != 0 ==> q * b < a <= (q + 1) * b
    ensures rem == 0 ==> (q - 1) * b < a <= q * b
    ensures q <= a
    ensures rem != 0 ==> 2 * q < a
    ensures b >= 2 ==> 2 * q <= a
  {
    assert (q + 1) * b == q * b + b;
    assert (q - 1) * b == q * b - b;
    if q > 0 {
      MulAtLeast(q, b);
    }
    if b >= 2 {
      if q > 0 { MulAtLeast(q, b - 1); }
      assert q * b == q * (b - 1) + q;
    }
  }

  // ---------------------------------------------------------------------
  // Lemmas behind Gcd

  /** Removing the factors of two of x keeps its common divisors with an odd b. */
  lemma StripKeepsCommonDivisors(w: nat, x: nat, b: nat)
    requires x > 0 && b % 2 == 1
    ensures SameCommonDivisors(Shr(x, TrailingZeros(w, x)), b, x, b)
    decreases x
  {
    if x % 2 == 0 {
      var t := TrailingZeros(w, x / 2);
      StripKeepsCommonDivisors(w, x / 2, b);
      HalveKeepsCommonDivisors(x / 2, b);
      assert 2 * (x / 2) == x;
    }
  }

  /** An odd divisor of m * 2^k divides m. */
  lemma {:induction false} OddDividesTimesPow2(e: nat, m: nat, k: nat)
    requires e % 2 == 1 && Divides(e, m * Pow2(k))
    ensures Divides(e, m)
  {
    if k > 0 {
      assert m * Pow2(k) == 2 * (m * Pow2(k - 1));
      OddDividesHalf(e, m * Pow2(k - 1));
      OddDividesTimesPow2(e, m, k - 1);
    }
  }

  /** 2^t divides m * 2^k with m odd only when t <= k. */
  lemma Pow2DividesOddTimesPow2(t: nat, m: nat, k: nat)
    requires m % 2 == 1 && Divides(Pow2(t), m * Pow2(k))
    ensures t <= k
  {
    if t > k {
      Pow2Add(k, t - k);
      assert Pow2(k) * Pow2(t - k) == Pow2(t);
      assert m * Pow2(k) == Pow2(k) * m;
      DividesCancel(Pow2(k), Pow2(t - k), m);
      Pow2Divides(1, t - k);
      DividesTrans(2, Pow2(t - k), m);
    }
  }

  /** The last step of Gcd: shifting the gcd of the odd parts left by the
      common number of trailing zeros gives the gcd of the arguments. */
  lemma GcdRestoresTwos(w: nat, a0: nat, b0: nat, oa: nat, ob: nat, ta: nat, tb: nat, s: nat, g: nat)
    requires a0 > 0 && a0 == oa * Pow2(ta) && b0 == ob * Pow2(tb)
    requires oa % 2 == 1 && ob % 2 == 1
    requires s == if ta <= tb then ta else tb
    requires IsGcd(g, oa, ob)
    ensures IsGcd(g * Pow2(s), a0, b0)
  {
    Pow2Divides(s, ta);
    Pow2Divides(s, tb);
    DividesMulBoth(g, oa, Pow2(s), Pow2(ta));
    DividesMulBoth(g, ob, Pow2(s), Pow2(tb));
    forall d: nat | Divides(d, a0) && Divides(d, b0)
      ensures Divides(d, g * Pow2(s))
    {
      CommonDivisorDividesScaled(w, d, a0, b0, oa, ob, ta, tb, g, s);
    }
  }

  /** `g << shift`, with g the gcd of the odd parts and shift the trailing
      zeros of `a0 | b0`, is the gcd of a0 and b0 and does not overflow. */
  lemma ShiftedOddGcd(w: nat, a0: nat, b0: nat, g: nat)
    requires InRange(w, a0) && a0 > 0 && b0 > 0
    requires IsGcd(g, Shr(a0, TrailingZeros(w, a0)), Shr(b0, TrailingZeros(w, b0)))
    ensures TrailingZeros(w, Or(a0, b0)) < w
    ensures IsGcd(Shl(w, g, TrailingZeros(w, Or(a0, b0))), a0, b0)
    ensures InRange(w, Shl(w, g, TrailingZeros(w, Or(a0, b0))))
  {
    var ta, tb := TrailingZeros(w, a0), TrailingZeros(w, b0);
    var oa, ob := Shr(a0, ta), Shr(b0, tb);
    var shift := TrailingZeros(w, Or(a0, b0));
    OrTrailingZeros(w, a0, b0);
    OddPartTimesPow2(w, a0);
    OddPartTimesPow2(w, b0);
    GcdRestoresTwos(w, a0, b0, oa, ob, ta, tb, shift, g);
    ShlOfGcd(w, g, shift, a0, b0);
  }

  /** A gcd of a w-bit a0 > 0 is at most a0, so shifting it into place loses
      no bit. */
  lemma ShlOfGcd(w: nat, g: nat, k: nat, a0: nat, b0: nat)
    requires InRange(w, a0) && a0 > 0 && k < w
    requires IsGcd(g * Pow2(k), a0, b0)
    ensures Shl(w, g, k) == g * Pow2(k)
  {
    var s := g * Pow2(k);
    assert Divides(s, a0);
    DividesBound(s, a0);
    DivModUnique(s, Pow2(w), 0, s);
  }

  /** A nonzero value is its odd part shifted left by its trailing zeros. */
  lemma OddPartTimesPow2(w: nat, x: nat)
    requires x > 0
    ensures x == Shr(x, TrailingZeros(w, x)) * Pow2(TrailingZeros(w, x))
    ensures Shr(x, TrailingZeros(w, x)) % 2 == 1
  {
    var t := TrailingZeros(w, x);
    ShrIsDiv(x, t);
    ExactQuotient(x, Pow2(t), Shr(x, t));
  }

  /** The quotient of an exact division times the divisor is the dividend. */
  lemma ExactQuotient(x: nat, p: nat, q: nat)
    requires p > 0 && Divides(p, x) && q == x / p
    ensures x == q * p
  {
    DividesElim(p, x);
  }

  /** Any common divisor d of a0 = oa * 2^ta and b0 = ob * 2^tb (oa, ob odd)
      splits into a power of two at most 2^s and an odd part that divides
      the gcd g of oa and ob. */
  lemma CommonDivisorDividesScaled(w: nat, d: nat, a0: nat, b0: nat, oa: nat, ob: nat, ta: nat, tb: nat, g: nat, s: nat)
    requires a0 > 0 && a0 == oa * Pow2(ta) && b0 == ob * Pow2(tb)
    requires oa % 2 == 1 && ob % 2 == 1
    requires s <= ta && s <= tb && (s == ta || s == tb)
    requires IsGcd(g, oa, ob)
    requires Divides(d, a0) && Divides(d, b0)
    ensures Divides(d, g * Pow2(s))
  {
    DividesBound(d, a0);
    var t := TrailingZeros(w, d);
    var e := Shr(d, t);
    ShrIsDiv(d, t);
    DividesElim(Pow2(t), d);
    assert d == e * Pow2(t) && d == Pow2(t) * e;
    DividesIntro(e, Pow2(t));
    DividesIntro(Pow2(t), e);
    DividesTrans(e, d, a0);
    DividesTrans(e, d, b0);
    OddDividesTimesPow2(e, oa, ta);
    OddDividesTimesPow2(e, ob, tb);
    DividesTrans(Pow2(t), d, a0);
    DividesTrans(Pow2(t), d, b0);
    Pow2DividesOddTimesPow2(t, oa, ta);
    Pow2DividesOddTimesPow2(t, ob, tb);
    Pow2Divides(t, s);
    DividesMulBoth(e, g, Pow2(t), Pow2(s));
  }
}
