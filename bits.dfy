/** Bit-level vocabulary for the fixed-width integer types: powers of two,
    the bitwise operators on the binary digits of naturals, shifts, two's
    complement negation and the counting intrinsics `trailing_zeros` and
    `leading_zeros`.  A w-bit unsigned value is a natural below 2^w. */
module Bits {
  import opened Divisibility

  /** The width, in bits, of one of the integer types. */
  type Width = w: nat | 1 <= w witness 8

  function Pow2(n: nat): (p: nat)
    ensures p >= 1
  {
    if n == 0 then 1 else 2 * Pow2(n - 1)
  }

  /** `x` is a value of the w-bit unsigned type. */
  predicate InRange(w: nat, x: int) {
    0 <= x < Pow2(w)
  }

  lemma Pow2Succ(n: nat)
    ensures Pow2(n + 1) == 2 * Pow2(n)
  {
  }

  lemma {:induction false} Pow2Add(m: nat, n: nat)
    ensures Pow2(m + n) == Pow2(m) * Pow2(n)
  {
    if m > 0 {
      Pow2Add(m - 1, n);
      assert Pow2(m + n) == 2 * Pow2(m - 1 + n);
    }
  }

  lemma {:induction false} Pow2Less(m: nat, n: nat)
    requires m < n
    ensures Pow2(m) < Pow2(n)
  {
    if m < n - 1 {
      Pow2Less(m, n - 1);
    }
  }

  lemma Pow2LessEq(m: nat, n: nat)
    requires m <= n
    ensures Pow2(m) <= Pow2(n)
  {
    if m < n {
      Pow2Less(m, n);
    }
  }

  /** Powers of two are ordered like their exponents. */
  lemma Pow2Order(m: nat, n: nat)
    ensures Pow2(m) < Pow2(n) <==> m < n
  {
    if m < n {
      Pow2Less(m, n);
    } else {
      Pow2LessEq(n, m);
    }
  }

  /** A smaller power of two divides a larger one. */
  lemma Pow2Divides(m: nat, n: nat)
    requires m <= n
    ensures Divides(Pow2(m), Pow2(n))
  {
    Pow2Add(m, n - m);
    DividesIntro(Pow2(m), Pow2(n - m));
  }

  // ---------------------------------------------------------------------
  // Bitwise operators on the binary digits of naturals

  /** `a & b` */
  function And(a: nat, b: nat): nat {
    if a == 0 || b == 0 then 0
    else 2 * And(a / 2, b / 2) + (if a % 2 == 1 && b % 2 == 1 then 1 else 0)
  }

  /** `a | b` */
  function Or(a: nat, b: nat): nat {
    if a == 0 then b
    else if b == 0 then a
    else 2 * Or(a / 2, b / 2) + (if a % 2 == 1 || b % 2 == 1 then 1 else 0)
  }

  /** `a ^ b` */
  function Xor(a: nat, b: nat): nat {
    if a == 0 then b
    else if b == 0 then a
    else 2 * Xor(a / 2, b / 2) + (if a % 2 != b % 2 then 1 else 0)
  }

  /** `x << k` on a w-bit unsigned value: the bits shifted past the top are
      lost.  A shift by the width or more panics. */
  function Shl(w: nat, x: nat, k: nat): nat
    requires k < w
  {
    (x * Pow2(k)) % Pow2(w)
  }

  /** `x >> k` on an unsigned value: k halvings. */
  function Shr(x: nat, k: nat): (r: nat)
    ensures r <= x
  {
    if k == 0 then x else Shr(x / 2, k - 1)
  }

  /** Shifting right by k divides by 2^k. */
  lemma {:induction false} ShrIsDiv(x: nat, k: nat)
    ensures Shr(x, k) == x / Pow2(k)
  {
    if k > 0 {
      ShrIsDiv(x / 2, k - 1);
      HalfDiv(x, Pow2(k - 1));
    }
  }

  /** Halving and then dividing by p is dividing by 2p. */
  lemma HalfDiv(x: nat, p: nat)
    requires p > 0
    ensures (x / 2) / p == x / (2 * p)
  {
    var h := x / 2;
    var q, r := h / p, h % p;
    assert h == p * q + r && 0 <= r < p;
    assert x == 2 * h + x % 2;
    assert x == (2 * p) * q + (2 * r + x % 2);
    DivModUnique(x, 2 * p, q, 2 * r + x % 2);
  }

  /** `x.wrapping_neg()` on a w-bit unsigned value: 2^w - x, and 0 for 0.
      It is the additive inverse of x modulo 2^w. */
  function WrappingNeg(w: nat, x: nat): (r: nat)
    requires InRange(w, x)
    ensures InRange(w, r)
    ensures (x + r) % Pow2(w) == 0
    ensures x > 0 ==> x + r == Pow2(w)
  {
    if x == 0 then
      MulDivCancel(Pow2(w), 1);
      MulDivCancel(Pow2(w), 0);
      (Pow2(w) - x) % Pow2(w)
    else
      DivModUnique(Pow2(w) - x, Pow2(w), 0, Pow2(w) - x);
      MulDivCancel(Pow2(w), 1);
      (Pow2(w) - x) % Pow2(w)
  }

  /** `x.trailing_zeros()` on a w-bit value: the number of zero bits below
      the lowest one bit, and the full width for 0. */
  function TrailingZeros(w: nat, x: nat): (r: nat)
    ensures x == 0 ==> r == w
    ensures x > 0 ==> Divides(Pow2(r), x) && Shr(x, r) % 2 == 1
    ensures 0 < x < Pow2(w) ==> r < w
    decreases x
  {
    if x == 0 then w
    else if x % 2 == 1 then 0
    else
      var r' := TrailingZeros(w, x / 2);
      TrailingZerosStep(x, r');
      1 + r'
  }

  lemma TrailingZerosStep(x: nat, r: nat)
    requires x > 0 && x % 2 == 0
    requires Divides(Pow2(r), x / 2) && Shr(x / 2, r) % 2 == 1
    ensures Divides(Pow2(r + 1), x) && Shr(x, r + 1) % 2 == 1
    ensures Pow2(r + 1) <= x
  {
    var q := (x / 2) / Pow2(r);
    DividesElim(Pow2(r), x / 2);
    assert x == Pow2(r + 1) * q;
    MulDivCancel(Pow2(r + 1), q);
    DividesIntro(Pow2(r + 1), q);
    MulAtLeast(Pow2(r + 1), q);
  }

  /** `x.leading_zeros()` on a w-bit value: the number of zero bits above
      the highest one bit, counted from the top bit down. */
  function LeadingZeros(w: nat, x: nat): (r: nat)
    requires InRange(w, x)
    ensures r <= w
    ensures x < Pow2(w - r)
    ensures r < w ==> Pow2(w - r - 1) <= x
    decreases w
  {
    if w == 0 then 0
    else if x >= Pow2(w - 1) then 0
    else 1 + LeadingZeros(w - 1, x)
  }

  // ---------------------------------------------------------------------
  // Facts about the operators

  /** 0 is the only value with no set bit. */
  lemma {:induction false} OrZero(a: nat, b: nat)
    ensures Or(a, b) == 0 <==> a == 0 && b == 0
  {
    if a > 0 && b > 0 {
      OrZero(a / 2, b / 2);
    }
  }

  /** The lowest set bit of `a | b` is the lower of the two lowest set bits. */
  lemma {:induction false} OrTrailingZeros(w: nat, a: nat, b: nat)
    requires a > 0 && b > 0
    ensures TrailingZeros(w, Or(a, b)) ==
            if TrailingZeros(w, a) <= TrailingZeros(w, b) then TrailingZeros(w, a) else TrailingZeros(w, b)
  {
    var o := Or(a, b);
    if a % 2 == 0 && b % 2 == 0 {
      OrTrailingZeros(w, a / 2, b / 2);
      OrZero(a / 2, b / 2);
      assert o == 2 * Or(a / 2, b / 2);
      assert o % 2 == 0 && o / 2 == Or(a / 2, b / 2);
      assert TrailingZeros(w, o) == 1 + TrailingZeros(w, Or(a / 2, b / 2));
      assert TrailingZeros(w, a) == 1 + TrailingZeros(w, a / 2);
      assert TrailingZeros(w, b) == 1 + TrailingZeros(w, b / 2);
    } else {
      assert o % 2 == 1;
      assert TrailingZeros(w, o) == 0;
    }
  }

  lemma {:induction false} AndComm(a: nat, b: nat)
    ensures And(a, b) == And(b, a)
  {
    if a > 0 && b > 0 {
      AndComm(a / 2, b / 2);
    }
  }

  lemma {:induction false} AndSelf(a: nat)
    ensures And(a, a) == a
  {
    if a > 0 {
      AndSelf(a / 2);
    }
  }

  /** A value and its bitwise complement `c` within n bits share no set bit. */
  lemma {:induction false} AndComplement(n: nat, m: nat, c: nat)
    requires m < Pow2(n) && c == Pow2(n) - 1 - m
    ensures And(m, c) == 0
  {
    if m > 0 && c > 0 {
      assert Pow2(n) == 2 * Pow2(n - 1);
      AndComplement(n - 1, m / 2, c / 2);
    }
  }

  /** `x & x.wrapping_neg()` isolates the lowest set bit of a nonzero value:
      for `y == 2^w - x` the common bits of x and y are the lowest set bit of x. */
  lemma {:induction false} AndNegLowestBit(w: nat, x: nat, y: nat)
    requires 0 < x < Pow2(w) && y == Pow2(w) - x
    ensures And(x, y) == Pow2(TrailingZeros(w, x))
  {
    HalveComplement(w, x, y);
    if x % 2 == 1 {
      AndComplement(w - 1, x / 2, y / 2);
      assert And(x, y) == 1;
      assert And(x, y) == Pow2(TrailingZeros(w, x));
    } else {
      AndNegLowestBit(w - 1, x / 2, y / 2);
      TrailingZerosWidth(w, w - 1, x / 2);
      var t := TrailingZeros(w, x / 2);
      assert TrailingZeros(w, x) == t + 1;
      Pow2Succ(t);
      assert And(x, y) == 2 * And(x / 2, y / 2);
      assert And(x, y) == Pow2(TrailingZeros(w, x));
    }
  }

  /** Halving 2^w - x: the top bit moves down, and an odd x borrows one. */
  lemma HalveComplement(w: nat, x: nat, y: nat)
    requires w > 0 && x <= Pow2(w) && y == Pow2(w) - x
    ensures y % 2 == x % 2
    ensures x % 2 == 1 ==> y / 2 == Pow2(w - 1) - 1 - x / 2
    ensures x % 2 == 0 ==> y / 2 == Pow2(w - 1) - x / 2
  {
    Pow2Succ(w - 1);
  }

  /** For a nonzero value the count does not depend on the width. */
  lemma TrailingZerosWidth(w: nat, v: nat, x: nat)
    requires x > 0
    ensures TrailingZeros(w, x) == TrailingZeros(v, x)
    decreases x
  {
    if x % 2 == 0 {
      TrailingZerosWidth(w, v, x / 2);
    }
  }

  /** Whether the top bit of `u ^ v` is set depends only on the top bits of
      `u` and `v`, and `^` stays within the width. */
  lemma {:induction false} XorTopBit(w: Width, u: nat, v: nat)
    requires InRange(w, u) && InRange(w, v)
    ensures InRange(w, Xor(u, v))
    ensures Xor(u, v) >= Pow2(w - 1) <==> ((u >= Pow2(w - 1)) != (v >= Pow2(w - 1)))
  {
    if u > 0 && v > 0 && w > 1 {
      XorTopBit(w - 1, u / 2, v / 2);
      assert Pow2(w - 1) == 2 * Pow2(w - 2);
    }
  }
}
