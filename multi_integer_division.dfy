// The arithmetic behind MultiInteger's division
// (pastel/sys/integer/multi_integer/multi_integer.h, operator/= and
// operator%=): C++ division, which truncates toward zero, and the shift-and-
// subtract loop on magnitudes that computes it.
module MultiIntegerDivision {
  import opened Bits
  import opened BigDigits
  import opened MultiIntegerWords
  import opened MultiIntegerBits

  function Abs(x: int): (r: nat)
    ensures r == x || r == -x
  {
    if x < 0 then -x else x
  }

  /** The quotient of C++'s integer division: the quotient of the
      magnitudes, negative when the signs differ. */
  function TruncDiv(a: int, b: int): int
    requires b != 0
  {
    if (a < 0) != (b < 0) then -(Abs(a) / Abs(b)) else Abs(a) / Abs(b)
  }

  /** The remainder of C++'s integer division. */
  function TruncRem(a: int, b: int): int
    requires b != 0
  {
    a - TruncDiv(a, b) * b
  }

  /** a == (a / b) * b + a % b, and the remainder is smaller than the
      divisor in magnitude and takes the dividend's sign. */
  lemma TruncDivision(a: int, b: int)
    requires b != 0
    ensures a == TruncDiv(a, b) * b + TruncRem(a, b)
    ensures Abs(TruncRem(a, b)) < Abs(b)
    ensures a >= 0 ==> TruncRem(a, b) >= 0
    ensures a < 0 ==> TruncRem(a, b) <= 0
  {
    var q := Abs(a) / Abs(b);
    var r := Abs(a) % Abs(b);
    assert Abs(a) == q * Abs(b) + r;
    if a < 0 && b < 0 {
      assert TruncRem(a, b) == a - q * b;
      assert a - q * b == -(Abs(a) - q * Abs(b));
    } else if a < 0 {
      assert TruncRem(a, b) == a + q * b;
      assert a + q * b == -(Abs(a) - q * Abs(b));
    } else if b < 0 {
      assert TruncRem(a, b) == a + q * b;
      assert a + q * b == Abs(a) - q * Abs(b);
    } else {
      assert TruncRem(a, b) == a - q * b;
    }
  }

  /** The quotient of two n-bit integers is an n-bit integer, except for
      the smallest signed value, whose quotient by -1 is 2^(n-1). */
  lemma QuotientInRange(a: int, b: int, n: nat, signed: bool)
    requires InRange(a, n, signed) && InRange(b, n, signed) && b != 0
    requires !(signed && a == -(Pow2(n - 1) as int))
    ensures InRange(TruncDiv(a, b), n, signed)
    ensures Reduce(TruncDiv(a, b), n, signed) == TruncDiv(a, b)
  {
    var q := Abs(a) / Abs(b);
    DivAtMost(Abs(a), Abs(b));
    assert TruncDiv(a, b) == q || TruncDiv(a, b) == -q;
    if signed {
      var p := Pow2(n - 1);
      assert -p < a < p;
      assert 0 <= q < p;
    } else {
      assert TruncDiv(a, b) == q;
    }
    ReduceInRange(TruncDiv(a, b), n, signed);
  }

  /** Negating an n-bit signed integer: -v, except that the smallest value
      -2^(n-1) is its own negation. */
  lemma NegatedValue(v: int, n: nat)
    requires InRange(v, n, true)
    ensures Reduce(-v, n, true) == if v == -(Pow2(n - 1) as int) then v else -v
  {
    if v == -(Pow2(n - 1) as int) {
      assert Pow2(n) == 2 * Pow2(n - 1);
      MultipleMod(1, Pow2(n));
      ReduceCongruent(-v, v, n, true);
      ReduceInRange(v, n, true);
    } else {
      ReduceInRange(-v, n, true);
    }
  }

  lemma DivAtMost(x: nat, d: nat)
    requires d >= 1
    ensures 0 <= x / d <= x
  {
    var q := x / d;
    assert x == q * d + x % d;
    if q >= 1 {
      MulMonotone(1, d, q);
    }
  }

  // ---------------------------------------------------------------------
  // The shift-and-subtract loop

  /** The state of operator/='s loop on magnitudes L0 / R0 at bit i: the
      quotient q found so far has no bits below i + 1, L0 = q R0 + left,
      and what is left is less than R0 shifted by i + 1. */
  ghost predicate Dividing(l0: int, r0: int, q: int, left: int, i: int)
  {
    i >= -1 && r0 > 0 && q >= 0 && q % Pow2(i + 1) == 0 &&
    l0 == q * r0 + left && 0 <= left < r0 * Pow2(i + 1)
  }

  /** When nothing the size of R0 is left, q is the quotient. */
  lemma DivisionDone(l0: int, r0: int, q: int, left: int)
    requires r0 > 0 && l0 == q * r0 + left && 0 <= left < r0
    ensures q == l0 / r0
  {
    DivUnique(l0, r0, q, left);
  }

  /** The loop's start: right is shifted so that its highest bit meets
      left's, and the shifted divisor stays below 2^(iLeft + 1). */
  lemma {:induction false} DivisionStart(l0: int, r0: int, iLeft: nat, iRight: nat)
    requires Pow2(iLeft) <= l0 < Pow2(iLeft + 1)
    requires Pow2(iRight) <= r0 < Pow2(iRight + 1) && iRight <= iLeft
    ensures Dividing(l0, r0, 0, l0, iLeft - iRight)
    ensures r0 * Pow2(iLeft - iRight) < Pow2(iLeft + 1)
  {
    var s := iLeft - iRight;
    Pow2Add(iRight, s + 1);
    Pow2Add(iRight + 1, s);
    MulMonotone(Pow2(iRight), r0, Pow2(s + 1));
    MulStrict(r0, Pow2(iRight + 1), Pow2(s));
    assert 0 % Pow2(s + 1) == 0;
  }

  /** right <= left: subtracting R0 2^i from left sets bit i of q. */
  lemma {:induction false} DivisionSubtract(l0: int, r0: int, q: int, left: int, i: nat)
    requires Dividing(l0, r0, q, left, i) && r0 * Pow2(i) <= left
    ensures Dividing(l0, r0, q + Pow2(i), left - r0 * Pow2(i), i - 1)
    ensures q % Pow2(i + 1) == 0 && q + Pow2(i) <= l0
  {
    var p := Pow2(i);
    assert Pow2(i + 1) == 2 * p;
    SubtractStep(l0, r0, q, left, p);
    DividingIntro(l0, r0, q + p, left - r0 * p, i - 1);
  }

  /** The arithmetic of one subtraction, with p = 2^i. */
  lemma SubtractStep(l0: int, r0: int, q: int, left: int, p: int)
    requires p > 0 && r0 > 0 && q >= 0 && q % (2 * p) == 0
    requires l0 == q * r0 + left && r0 * p <= left < r0 * (2 * p)
    ensures l0 == (q + p) * r0 + (left - r0 * p)
    ensures 0 <= left - r0 * p < r0 * p
    ensures (q + p) % p == 0 && q + p <= l0
  {
    var d := r0 * p;
    assert r0 * (2 * p) == d + d;
    assert (q + p) * r0 == q * r0 + d;
    SetBitStillMultiple(q, p);
    MulMonotone(1, r0, q + p);
  }

  /** q a multiple of 2p leaves q + p a multiple of p. */
  lemma SetBitStillMultiple(q: int, p: int)
    requires p > 0 && q % (2 * p) == 0
    ensures (q + p) % p == 0
  {
    var c := q / (2 * p);
    assert q == c * (2 * p);
    assert q + p == (2 * c + 1) * p;
    MultipleMod(2 * c + 1, p);
  }

  lemma DividingIntro(l0: int, r0: int, q: int, left: int, i: int)
    requires i >= -1 && r0 > 0 && q >= 0 && q % Pow2(i + 1) == 0
    requires l0 == q * r0 + left && 0 <= left < r0 * Pow2(i + 1)
    ensures Dividing(l0, r0, q, left, i)
  {
  }

  /** Bits i down to i - k + 1 of the quotient are zero when left is less
      than R0 2^(i - k + 1). */
  lemma {:induction false} DivisionSkip(l0: int, r0: int, q: int, left: int, i: int, k: nat)
    requires Dividing(l0, r0, q, left, i) && 1 <= k <= i + 1
    requires left < r0 * Pow2(i - k + 1)
    ensures Dividing(l0, r0, q, left, i - k)
  {
    var c := q / Pow2(i + 1);
    assert q == c * Pow2(i + 1);
    Pow2Add(i - k + 1, k);
    assert q == (c * Pow2(k)) * Pow2(i - k + 1);
    MultipleMod(c * Pow2(k), Pow2(i - k + 1));
  }

  /** For 0 <= x < 2^(r+1), bit r is set exactly when x >= 2^r. */
  lemma TopBit(x: int, r: nat)
    requires 0 <= x < Pow2(r + 1)
    ensures TwosBit(x, r) <==> x >= Pow2(r)
  {
    var p := Pow2(r);
    assert Pow2(r + 1) == 2 * p;
    if x >= p {
      DivUnique(x, p, 1, x - p);
    } else {
      DivUnique(x, p, 0, x);
    }
  }

  /** When left < right = R0 2^i and bit i + iRight of left is clear, the
      highest bit of left is below i + iRight: the jump is at least one. */
  lemma {:induction false} SkipDistance(left: int, iLeft: nat, r0: int, iRight: nat, i: nat)
    requires Pow2(iLeft) <= left < Pow2(iLeft + 1)
    requires left < r0 * Pow2(i) && 0 < r0 < Pow2(iRight + 1)
    requires !TwosBit(left, i + iRight)
    ensures iLeft < i + iRight
  {
    assert left < Pow2(i + iRight + 1) by {
      MulStrict(r0, Pow2(iRight + 1), Pow2(i));
      Pow2Add(iRight + 1, i);
    }
    if iLeft >= i + iRight + 1 {
      Pow2Monotone(i + iRight + 1, iLeft);
    }
    if iLeft == i + iRight {
      TopBit(left, iLeft);
    }
  }

  /** Everything left is below 2^(iLeft + 1) <= R0 2^(i - k + 1), with
      k = i + iRight - iLeft. */
  lemma {:induction false} SkipBound(left: int, iLeft: nat, r0: int, iRight: nat, i: nat, k: nat)
    requires left < Pow2(iLeft + 1) && Pow2(iRight) <= r0
    requires k == i + iRight - iLeft && k <= i + 1
    ensures left < r0 * Pow2(i - k + 1)
  {
    Pow2Add(iRight, i - k + 1);
    MulMonotone(Pow2(iRight), r0, Pow2(i - k + 1));
  }

  /** The loop's last jump may pass bit 0: then left < 2^(iLeft + 1) <=
      2^iRight <= R0. */
  lemma SkipPast(left: int, iLeft: nat, r0: int, iRight: nat)
    requires left < Pow2(iLeft + 1) && Pow2(iRight) <= r0 && iLeft + 1 <= iRight
    ensures left < r0
  {
    Pow2Monotone(iLeft + 1, iRight);
  }

  /** Setting bit i of a quotient with no bits below i + 1 adds 2^i. */
  lemma {:induction false} SetQuotientBit(q: int, y: int, n: nat, signed: bool, i: nat)
    requires q >= 0 && q % Pow2(i + 1) == 0 && InRange(q + Pow2(i), n, signed)
    requires InRange(y, n, signed) && BitsAfterSet(q, y, n, i, i + 1, true)
    ensures y == q + Pow2(i)
  {
    SetBitsValue(q, y, n, signed, i, i + 1, true);
    DividesPowers(q, i, i + 1);
    assert Pow2(i + 1) == 2 * Pow2(i);
    assert (q / Pow2(i + 1)) * Pow2(i + 1) == q;
    assert SetRange(q, i, i + 1, true) == q + Pow2(i);
    ReduceInRange(q + Pow2(i), n, signed);
  }

  /** R0 2^i shifted right by k <= i bits is R0 2^(i - k). */
  lemma {:induction false} ShiftDivisorDown(r0: int, i: nat, k: nat)
    requires k <= i
    ensures r0 * Pow2(i) / Pow2(k) == r0 * Pow2(i - k)
  {
    Pow2Add(i - k, k);
    assert r0 * Pow2(i) == (r0 * Pow2(i - k)) * Pow2(k);
    DivUnique(r0 * Pow2(i), Pow2(k), r0 * Pow2(i - k), 0);
  }

  // ---------------------------------------------------------------------
  // The quotient of -2^B

  /** divideInfinity(k) = floor(2^B / k) computed as floor((2^B - k) / k) + 1. */
  lemma InfinityQuotient(p: int, k: int)
    requires 1 <= k <= p
    ensures (p - k) / k + 1 == p / k
  {
    DivUnique(p, k, (p - k) / k + 1, (p - k) % k);
  }

  /** 2^B / k for k >= 2 is at most 2^(B-1). */
  lemma HalfQuotient(p: int, k: int)
    requires k >= 2 && p >= 0 && p % 2 == 0
    ensures 0 <= p / k <= p / 2
  {
    var q, r := p / k, p % k;
    assert p == q * k + r && 0 <= r < k;
    if q > p / 2 {
      MulMonotone(2, k, q);
    }
  }

  /** The steps of divideInfinity(k) stay in range, and the result is
      2^(n-1) / k. */
  lemma InfinitySteps(n: nat, k: int)
    requires n > 0 && 2 <= k < Pow2(n - 1)
    ensures InRange(Pow2(n - 1) - 1 - k, n, true) && InRange(Pow2(n - 1) - k, n, true)
    ensures (Pow2(n - 1) - k) / k + 1 == Pow2(n - 1) / k
    ensures InRange(Pow2(n - 1) / k, n, true) && InRange(-(Pow2(n - 1) / k), n, true)
  {
    var p := Pow2(n - 1);
    assert n >= 2;
    InfinityQuotient(p, k);
    assert p == 2 * Pow2(n - 2);
    HalfQuotient(p, k);
    assert 0 <= p / k < p;
  }

  // ---------------------------------------------------------------------
  // Remainders and native divisors

  /** unsignedBits(): the number of bits of the non-negative part. */
  function UnsignedBits(n: nat, signed: bool): nat
    requires signed ==> n > 0
  {
    if signed then n - 1 else n
  }

  /** Every n-bit value lies within 2^B of zero, B = UnsignedBits. */
  lemma MagnitudeBound(v: int, n: nat, signed: bool)
    requires InRange(v, n, signed)
    ensures Abs(v) <= Pow2(UnsignedBits(n, signed))
    ensures Abs(v) == Pow2(UnsignedBits(n, signed)) ==> signed && v == -(Pow2(n - 1) as int)
  {
  }

  /** The remainder of two n-bit integers is an n-bit integer: smaller
      than the divisor in magnitude, with the dividend's sign. */
  lemma RemainderInRange(a: int, b: int, n: nat, signed: bool)
    requires InRange(a, n, signed) && InRange(b, n, signed) && b != 0
    ensures InRange(TruncRem(a, b), n, signed)
    ensures Reduce(TruncRem(a, b), n, signed) == TruncRem(a, b)
  {
    TruncDivision(a, b);
    MagnitudeBound(b, n, signed);
    ReduceInRange(TruncRem(a, b), n, signed);
  }

  /** operator%= computes a - (a / b) * b with every step reduced modulo
      2^n, which is the remainder itself. */
  lemma RemainderValue(a: int, b: int, n: nat, signed: bool)
    requires InRange(a, n, signed) && InRange(b, n, signed) && b != 0
    ensures Reduce(a - Reduce(Reduce(TruncDiv(a, b), n, signed) * b, n, signed), n, signed) == TruncRem(a, b)
  {
    var q := TruncDiv(a, b);
    ReduceProduct(q, b, n, signed);
    ReduceSubtrahend(q * b, a, n, signed);
    RemainderInRange(a, b, n, signed);
  }

  /** A native divisor of magnitude 2^B or more: the quotient is zero and
      the remainder the dividend, except for -2^B divided by +-2^B, whose
      quotient is -+1 and remainder zero. */
  lemma LargeDivisor(v: int, d: int, n: nat, signed: bool)
    requires InRange(v, n, signed) && (signed ==> n > 0) && Abs(d) >= Pow2(UnsignedBits(n, signed))
    ensures d != 0
    ensures signed && v == -(Pow2(n - 1) as int) && Abs(d) == Pow2(n - 1) ==>
      TruncDiv(v, d) == (if d < 0 then 1 else -1) && TruncRem(v, d) == 0
    ensures !(signed && v == -(Pow2(n - 1) as int) && Abs(d) == Pow2(n - 1)) ==>
      TruncDiv(v, d) == 0 && TruncRem(v, d) == v
  {
    MagnitudeBound(v, n, signed);
    if signed && v == -(Pow2(n - 1) as int) && Abs(d) == Pow2(n - 1) {
      DivUnique(Abs(v), Abs(d), 1, 0);
    } else {
      DivUnique(Abs(v), Abs(d), 0, Abs(v));
    }
  }

  /** The divisor a native integer d stands for: d itself when its
      magnitude is 2^B or more; otherwise the n-bit integer it converts
      to, which is d unless a negative d meets an unsigned integer and
      wraps to d + 2^n. */
  function NativeDivisor(d: int, n: nat, signed: bool): (r: int)
    requires signed ==> n > 0
    ensures d != 0 ==> r != 0
    ensures r == d || (!signed && d < 0 && r == d + Pow2(n))
  {
    if Abs(d) >= Pow2(UnsignedBits(n, signed)) then d
    else
      NativeConversion(d, n, signed);
      Reduce(d, n, signed)
  }

  /** A native integer of magnitude below 2^B converts to itself, or to
      d + 2^n when it is negative and the integer unsigned. */
  lemma NativeConversion(d: int, n: nat, signed: bool)
    requires (signed ==> n > 0) && Abs(d) < Pow2(UnsignedBits(n, signed))
    ensures Reduce(d, n, signed) == if !signed && d < 0 then d + Pow2(n) else d
  {
    if !signed && d < 0 {
      MultipleMod(-1, Pow2(n));
      ReduceCongruent(d, d + Pow2(n), n, signed);
      ReduceInRange(d + Pow2(n), n, signed);
    } else {
      ReduceInRange(d, n, signed);
    }
  }
}
