/** The integer utilities on the signed types (i8 .. i128, isize), written
    once for a width `w`.  Values are the integers from -2^(w-1) to
    2^(w-1) - 1; bit-level operations go through the two's complement bit
    pattern (`x as $ux`).  Rust's `/` and `%` on signed operands truncate
    toward zero, and are modelled so explicitly. */
module Signed {
  import opened Divisibility
  import opened Bits
  import Unsigned

  function Min(w: Width): int {
    -(Pow2(w - 1) as int)
  }

  /** `x` is a value of the w-bit signed type. */
  predicate InSigned(w: Width, x: int) {
    Min(w) <= x < Pow2(w - 1)
  }

  function Abs(x: int): nat {
    if x < 0 then -x else x
  }

  /** `x as $ux`: the two's complement bit pattern of x. */
  function AsUnsigned(w: Width, x: int): (u: nat)
    requires InSigned(w, x)
    ensures InRange(w, u)
  {
    if x < 0 then x + Pow2(w) else x
  }

  /** `u as $ix`: the signed value of a bit pattern. */
  function AsSigned(w: Width, u: nat): (x: int)
    requires InRange(w, u)
    ensures InSigned(w, x)
  {
    if u >= Pow2(w - 1) then u - Pow2(w) else u
  }

  /** The two casts are inverse bijections between the signed and the
      unsigned values of a width; the sign is the top bit. */
  lemma CastsRoundTrip(w: Width, x: int, u: nat)
    requires InSigned(w, x) && InRange(w, u)
    ensures AsSigned(w, AsUnsigned(w, x)) == x
    ensures AsUnsigned(w, AsSigned(w, u)) == u
    ensures x < 0 <==> AsUnsigned(w, x) >= Pow2(w - 1)
  {
  }

  /** `x.wrapping_neg()`: -x, except that MIN maps to itself.  The result
      is the value of the type congruent to -x modulo 2^w. */
  function WrappingNeg(w: Width, x: int): (r: int)
    requires InSigned(w, x)
    ensures InSigned(w, r)
    ensures (x + r) % Pow2(w) == 0
    ensures x != Min(w) ==> x + r == 0
  {
    if x == Min(w) then
      Pow2Succ(w - 1);
      assert x + x == -(Pow2(w) as int);
      DivModUnique(x + x, Pow2(w), -1, 0);
      x
    else
      MulDivCancel(Pow2(w), 0);
      -x
  }

  /** Negation commutes with the cast: the signed and the unsigned
      `wrapping_neg` act identically on the bit pattern. */
  lemma WrappingNegBits(w: Width, x: int)
    requires InSigned(w, x)
    ensures InSigned(w, WrappingNeg(w, x))
    ensures AsUnsigned(w, WrappingNeg(w, x)) == Bits.WrappingNeg(w, AsUnsigned(w, x))
  {
    var u := AsUnsigned(w, x);
    if x == 0 {
      MulDivCancel(Pow2(w), 1);
    } else {
      DivModUnique(Pow2(w) - u, Pow2(w), 0, Pow2(w) - u);
    }
  }

  /** `a ^ b` on signed values: the xor of the bit patterns.  It is
      negative exactly when the signs of a and b differ. */
  function Xor(w: Width, a: int, b: int): (r: int)
    requires InSigned(w, a) && InSigned(w, b)
    ensures InSigned(w, r)
    ensures r >= 0 <==> ((a >= 0) == (b >= 0))
  {
    XorTopBit(w, AsUnsigned(w, a), AsUnsigned(w, b));
    AsSigned(w, Bits.Xor(AsUnsigned(w, a), AsUnsigned(w, b)))
  }

  /** The sign test of div_ceil and div_floor: `a ^ b >= 0` holds exactly
      when a and b have the same sign. */
  lemma XorSignTest(w: Width, a: int, b: int)
    requires InSigned(w, a) && InSigned(w, b)
    ensures Xor(w, a, b) >= 0 <==> ((a >= 0) == (b >= 0))
  {
    XorTopBit(w, AsUnsigned(w, a), AsUnsigned(w, b));
  }

  /** Rust's `a / b` on signed values: the quotient rounded toward zero.
      Its magnitude is the quotient of the magnitudes, and it is positive
      only when a and b have the same sign. */
  function TruncDiv(a: int, b: int): (q: int)
    requires b != 0
    ensures Abs(q) == Abs(a) / Abs(b)
    ensures q > 0 ==> (a < 0) == (b < 0)
    ensures q < 0 ==> (a < 0) != (b < 0)
  {
    var m: int := Abs(a) / Abs(b);
    QuotientMagnitude(Abs(a), Abs(b));
    if (a < 0) == (b < 0) then m else -m
  }

  /** Rust's `a % b` on signed values: the remainder of TruncDiv, which
      takes the sign of the dividend.  Its magnitude is the remainder of
      the magnitudes. */
  function TruncRem(a: int, b: int): (r: int)
    requires b != 0
    ensures Abs(r) == Abs(a) % Abs(b)
    ensures r == 0 || ((r < 0) == (a < 0))
  {
    var A, B := Abs(a), Abs(b);
    assert A == B * (A / B) + A % B;
    SignedDivisionEquation(a, b, TruncDiv(a, b), A / B, A % B, a - b * TruncDiv(a, b));
    a - b * TruncDiv(a, b)
  }

  /** The division equation for truncating division. */
  lemma TruncDivRem(a: int, b: int)
    requires b != 0
    ensures a == b * TruncDiv(a, b) + TruncRem(a, b)
    ensures Abs(TruncRem(a, b)) < Abs(b)
    ensures TruncRem(a, b) == 0 || ((TruncRem(a, b) < 0) == (a < 0))
    ensures Abs(TruncDiv(a, b)) == Abs(a) / Abs(b)
    ensures Abs(TruncRem(a, b)) == Abs(a) % Abs(b)
  {
    var A, B := Abs(a), Abs(b);
    var q0, r0 := A / B, A % B;
    assert A == B * q0 + r0;
    SignedDivisionEquation(a, b, TruncDiv(a, b), q0, r0, TruncRem(a, b));
  }

  /** The unsigned division equation |a| == |b| * q0 + r0, with the sign of
      the quotient put back, leaves a remainder with the sign of a. */
  lemma SignedDivisionEquation(a: int, b: int, q: int, q0: nat, r0: nat, rem: int)
    requires b != 0 && Abs(a) == Abs(b) * q0 + r0 && r0 < Abs(b)
    requires q == if (a < 0) == (b < 0) then q0 else -(q0 as int)
    requires rem == a - b * q
    ensures Abs(q) == q0
    ensures Abs(rem) == r0
    ensures rem == 0 || ((rem < 0) == (a < 0))
  {
    var t := Abs(b) * q0;
    if b > 0 {
      assert b * q0 == t;
    } else {
      assert b * q0 == -t;
    }
    assert b * -(q0 as int) == -(b * q0);
  }

  /** q is the ceiling of the rational a / b: q - 1 < a / b <= q. */
  ghost predicate IsCeil(a: int, b: int, q: int) {
    if b > 0 then (q - 1) * b < a <= q * b
    else q * b <= a < (q - 1) * b
  }

  /** q is the floor of the rational a / b: q <= a / b < q + 1. */
  ghost predicate IsFloor(a: int, b: int, q: int) {
    if b > 0 then q * b <= a < (q + 1) * b
    else (q + 1) * b < a <= q * b
  }

  /** `a.div_ceil(b)`: the truncated quotient, plus one when the operands
      have the same sign (`a ^ b >= 0`) and the division is inexact.
      Division by zero and MIN / -1 panic. */
  function DivCeil(w: Width, a: int, b: int): (r: int)
    requires InSigned(w, a) && InSigned(w, b) && b != 0 && !(a == Min(w) && b == -1)
    ensures InSigned(w, r)
    ensures IsCeil(a, b, r)
  {
    var q := TruncDiv(a, b);
    var rem := TruncRem(a, b);
    XorSignTest(w, a, b);
    RoundingFacts(w, a, b);
    if Xor(w, a, b) >= 0 && rem != 0 then q + 1 else q
  }

  /** `a.div_floor(b)`: the truncated quotient, minus one when the operands
      have different signs (`a ^ b < 0`) and the division is inexact. */
  function DivFloor(w: Width, a: int, b: int): (r: int)
    requires InSigned(w, a) && InSigned(w, b) && b != 0 && !(a == Min(w) && b == -1)
    ensures InSigned(w, r)
    ensures IsFloor(a, b, r)
  {
    var q := TruncDiv(a, b);
    var rem := TruncRem(a, b);
    XorSignTest(w, a, b);
    RoundingFacts(w, a, b);
    if Xor(w, a, b) < 0 && rem != 0 then q - 1 else q
  }

  /** What truncating division and its correction by one give, case by case. */
  lemma RoundingFacts(w: Width, a: int, b: int)
    requires InSigned(w, a) && InSigned(w, b) && b != 0 && !(a == Min(w) && b == -1)
    ensures var q, rem := TruncDiv(a, b), TruncRem(a, b);
      InSigned(w, q) &&
      (((a >= 0) == (b >= 0)) && rem != 0 ==> InSigned(w, q + 1) && IsCeil(a, b, q + 1)) &&
      (!(((a >= 0) == (b >= 0)) && rem != 0) ==> IsCeil(a, b, q)) &&
      (((a >= 0) != (b >= 0)) && rem != 0 ==> InSigned(w, q - 1) && IsFloor(a, b, q - 1)) &&
      (!(((a >= 0) != (b >= 0)) && rem != 0) ==> IsFloor(a, b, q))
  {
    TruncDivRem(a, b);
    QuotientRange(w, a, b);
    CorrectionFacts(a, b, TruncDiv(a, b), TruncRem(a, b));
  }

  /** The truncated quotient fits, and so does the quotient moved by one
      away from zero when the division is inexact. */
  lemma QuotientRange(w: Width, a: int, b: int)
    requires InSigned(w, a) && InSigned(w, b) && b != 0 && !(a == Min(w) && b == -1)
    ensures InSigned(w, TruncDiv(a, b))
    ensures Abs(a) % Abs(b) != 0 ==> InSigned(w, TruncDiv(a, b) + 1) && InSigned(w, TruncDiv(a, b) - 1)
  {
    QuotientMagnitude(Abs(a), Abs(b));
    QuotientFits(w, a, b, TruncDiv(a, b), Abs(a) / Abs(b), Abs(a) % Abs(b) != 0);
  }

  /** How large the quotient of A by B can be. */
  lemma QuotientMagnitude(A: nat, B: nat)
    requires B > 0
    ensures 0 <= A / B <= A
    ensures B == 1 ==> A / B == A && A % B == 0
    ensures B >= 2 ==> 2 * (A / B) <= A
    ensures A % B != 0 ==> 2 * (A / B) < A
  {
    var m, r := A / B, A % B;
    Unsigned.QuotientFacts(A, B, m, r);
    if B == 1 {
      assert B * m == m;
    }
  }

  /** The bounds of QuotientRange from the size of the magnitude m of the
      quotient alone. */
  lemma QuotientFits(w: Width, a: int, b: int, q: int, m: int, inexact: bool)
    requires InSigned(w, a) && InSigned(w, b) && b != 0 && !(a == Min(w) && b == -1)
    requires q == if (a < 0) == (b < 0) then m else -m
    requires 0 <= m <= Abs(a)
    requires Abs(b) == 1 ==> m == Abs(a) && !inexact
    requires Abs(b) >= 2 ==> 2 * m <= Abs(a)
    requires inexact ==> 2 * m < Abs(a)
    ensures InSigned(w, q)
    ensures inexact ==> InSigned(w, q - 1) && InSigned(w, q + 1)
  {
  }

  /** From the division equation alone: which of q, q + 1, q - 1 is the
      ceiling and which is the floor. */
  lemma CorrectionFacts(a: int, b: int, q: int, rem: int)
    requires b != 0 && a == b * q + rem && Abs(rem) < Abs(b)
    requires rem == 0 || ((rem < 0) == (a < 0))
    ensures ((a >= 0) == (b >= 0)) && rem != 0 ==> IsCeil(a, b, q + 1)
    ensures !(((a >= 0) == (b >= 0)) && rem != 0) ==> IsCeil(a, b, q)
    ensures ((a >= 0) != (b >= 0)) && rem != 0 ==> IsFloor(a, b, q - 1)
    ensures !(((a >= 0) != (b >= 0)) && rem != 0) ==> IsFloor(a, b, q)
  {
    assert (q + 1) * b == q * b + b && (q - 1) * b == q * b - b && (q + 2) * b == q * b + 2 * b;
    assert b * q == q * b;
  }

  /** The signed div_floor agrees with Euclidean division (the floor) for a
      positive divisor, and div_ceil is the negated floor of the negated
      dividend: ceil(a / b) == -floor(-a / b). */
  lemma RoundingAgree(w: Width, a: int, b: int)
    requires InSigned(w, a) && InSigned(w, b) && b > 0
    ensures DivFloor(w, a, b) == a / b
    ensures a != Min(w) ==> DivCeil(w, a, b) == -DivFloor(w, -a, b)
  {
    FloorIsEuclidean(a, b, DivFloor(w, a, b));
    if a != Min(w) {
      CeilIsNegatedFloor(a, b, DivCeil(w, a, b), DivFloor(w, -a, b));
    }
  }

  lemma FloorIsEuclidean(a: int, b: int, f: int)
    requires b > 0 && IsFloor(a, b, f)
    ensures f == a / b
  {
    var q := a / b;
    assert a == b * q + a % b;
    assert (q + 1) * b == b * q + b && q * b == b * q;
    FloorUnique(a, b, f, q);
  }

  lemma CeilIsNegatedFloor(a: int, b: int, c: int, g: int)
    requires b > 0 && IsCeil(a, b, c) && IsFloor(-a, b, g)
    ensures c == -g
  {
    assert (-g - 1) * b == -((g + 1) * b) && -g * b == -(g * b);
    CeilUnique(a, b, c, -g);
  }

  lemma FloorUnique(a: int, b: int, q1: int, q2: int)
    requires b > 0 && q1 * b <= a < (q1 + 1) * b && q2 * b <= a < (q2 + 1) * b
    ensures q1 == q2
  {
    if q1 < q2 {
      MulMonotone(q1 + 1, q2, b);
    } else if q2 < q1 {
      MulMonotone(q2 + 1, q1, b);
    }
  }

  /** `x.sig_bits()`: the width minus the leading zeros of the bit
      pattern.  A negative value has its top bit set, so it needs the full
      width; otherwise it is the unsigned bit length. */
  function SigBits(w: Width, x: int): (r: nat)
    requires InSigned(w, x)
    ensures x < 0 ==> r == w
    ensures x >= 0 ==> r < w && x < Pow2(r) && (x == 0 <==> r == 0) && (x > 0 ==> Pow2(r - 1) <= x)
  {
    var u := AsUnsigned(w, x);
    var r := w - LeadingZeros(w, u);
    assert x >= 0 ==> r < w by {
      if x >= 0 && r > 0 {
        Pow2Order(w - 1, r - 1);
      }
    }
    r
  }

  /** `x.highest_one()`, computed on the bit pattern: 0 for 0, MIN (the
      top bit) for a negative value, otherwise the power of two h with
      h <= x < 2h. */
  function HighestOne(w: Width, x: int): (r: int)
    requires InSigned(w, x)
    ensures InSigned(w, r)
    ensures x == 0 ==> r == 0
    ensures x < 0 ==> r == Min(w)
    ensures x > 0 ==> r == Pow2(SigBits(w, x) - 1) && 0 < r <= x < 2 * r
  {
    var u := AsUnsigned(w, x);
    assert x < 0 ==> Unsigned.SigBits(w, u) == w by {
      if x < 0 {
        Pow2Order(Unsigned.SigBits(w, u), w - 1);
      }
    }
    AsSigned(w, Unsigned.HighestOne(w, u))
  }

  /** `x.lowest_one()`, computed as `x & x.wrapping_neg()`: 0 for 0, MIN
      for MIN (whose only set bit is the top one), otherwise the positive
      power of two p that divides |x| and leaves an odd quotient. */
  function LowestOne(w: Width, x: int): (r: int)
    requires InSigned(w, x)
    ensures InSigned(w, r)
    ensures x == 0 ==> r == 0
    ensures x == Min(w) ==> r == Min(w)
    ensures x != 0 && x != Min(w) ==> r > 0 && Divides(r, Abs(x)) && (Abs(x) / r) % 2 == 1
    ensures x != 0 && x != Min(w) ==> r == Pow2(TrailingZeros(w, Abs(x)))
  {
    WrappingNegBits(w, x);
    var u, v := AsUnsigned(w, x), AsUnsigned(w, WrappingNeg(w, x));
    LowestOneBits(w, x);
    AsSigned(w, And(u, v))
  }

  lemma LowestOneBits(w: Width, x: int)
    requires InSigned(w, x)
    ensures InSigned(w, WrappingNeg(w, x))
    ensures InRange(w, And(AsUnsigned(w, x), AsUnsigned(w, WrappingNeg(w, x))))
    ensures var r := And(AsUnsigned(w, x), AsUnsigned(w, WrappingNeg(w, x)));
      (x == 0 ==> r == 0) &&
      (x == Min(w) ==> r == Pow2(w - 1)) &&
      (x != 0 && x != Min(w) ==>
         0 < r < Pow2(w - 1) && Divides(r, Abs(x)) && (Abs(x) / r) % 2 == 1 &&
         r == Pow2(TrailingZeros(w, Abs(x))))
  {
    WrappingNegBits(w, x);
    var u := AsUnsigned(w, x);
    var m := Abs(x);
    if x == 0 {
    } else if x == Min(w) {
      assert u == Pow2(w - 1) && Pow2(w) - u == Pow2(w - 1);
      DivModUnique(Pow2(w) - u, Pow2(w), 0, Pow2(w) - u);
      AndSelf(u);
    } else {
      DivModUnique(Pow2(w) - m, Pow2(w), 0, Pow2(w) - m);
      DivModUnique(Pow2(w) - u, Pow2(w), 0, Pow2(w) - u);
      var v := AsUnsigned(w, WrappingNeg(w, x));
      if x > 0 {
        AndNegLowestBit(w, m, v);
      } else {
        AndNegLowestBit(w, m, u);
        AndComm(u, v);
      }
      var t := TrailingZeros(w, m);
      ShrIsDiv(m, t);
      DividesBound(Pow2(t), m);
    }
  }

  /** `w_abs(x)`: the wrapping absolute value, cast to the unsigned type.
      It is the true |x| even for MIN, whose negation wraps to itself. */
  function AbsBits(w: Width, x: int): (u: nat)
    requires InSigned(w, x)
    ensures u == Abs(x) && u <= Pow2(w - 1)
  {
    AsUnsigned(w, if x < 0 then WrappingNeg(w, x) else x)
  }

  /** `a.gcd(b)`: the unsigned gcd of the wrapping absolute values, cast
      back.  The result is the gcd of |a| and |b|, except that a gcd of
      2^(w-1), which does not fit, comes back as MIN; that happens exactly
      when both arguments are 0 or MIN and not both are 0. */
  method Gcd(w: Width, a: int, b: int) returns (g: int)
    requires InSigned(w, a) && InSigned(w, b)
    ensures InSigned(w, g)
    ensures g >= 0 ==> IsGcd(g, Abs(a), Abs(b))
    ensures g < 0 ==> g == Min(w) && IsGcd(Pow2(w - 1), Abs(a), Abs(b))
    ensures g < 0 <==> (a == 0 || a == Min(w)) && (b == 0 || b == Min(w)) && !(a == 0 && b == 0)
  {
    var u := Unsigned.Gcd(w, AbsBits(w, a), AbsBits(w, b));
    GcdTopBit(w, a, b, u);
    g := AsSigned(w, u);
  }

  /** The unsigned gcd of two magnitudes of the signed type reaches the top
      bit 2^(w-1) exactly when both magnitudes are 0 or 2^(w-1), not both 0. */
  lemma GcdTopBit(w: Width, a: int, b: int, u: nat)
    requires InSigned(w, a) && InSigned(w, b) && IsGcd(u, Abs(a), Abs(b))
    ensures u <= Pow2(w - 1)
    ensures u == Pow2(w - 1) <==> (a == 0 || a == Min(w)) && (b == 0 || b == Min(w)) && !(a == 0 && b == 0)
  {
    var P := Pow2(w - 1);
    if a != 0 {
      DividesBound(u, Abs(a));
    } else if b != 0 {
      DividesBound(u, Abs(b));
    } else {
      GcdZeroLeft(0);
      GcdUnique(u, 0, 0, 0);
    }
    if (a == 0 || a == Min(w)) && (b == 0 || b == Min(w)) && !(a == 0 && b == 0) {
      if a == 0 {
        GcdZeroLeft(P);
      } else if b == 0 {
        GcdZeroRight(P);
      } else {
        DividesRefl(P);
        assert IsGcd(P, P, P);
      }
      GcdUnique(u, P, Abs(a), Abs(b));
    }
    if u == P {
      if a != 0 { DividesBound(u, Abs(a)); }
      if b != 0 { DividesBound(u, Abs(b)); }
    }
  }
}
