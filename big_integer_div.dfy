// BigInteger's operator/= and operator% (pastel/math/biginteger.cpp):
// the quotient is found by a binary search over candidate magnitudes,
// each candidate checked by a multiplication; the remainder is taken
// from the magnitudes.
module BigIntegerDivision {
  import opened Bits
  import opened BigDigits
  import opened BigIntegers
  import opened BigIntegerProducts
  import opened BigIntegerShifts

  function Abs(x: int): nat
  {
    if x < 0 then -x else x
  }

  /** Integer division rounded towards zero, as C++ divides. */
  function TruncatedQuotient(x: int, y: int): (q: int)
    requires y != 0
    ensures Abs(q) * Abs(y) <= Abs(x) < (Abs(q) + 1) * Abs(y)
    ensures q == 0 || ((q > 0) <==> ((x < 0) == (y < 0)))
  {
    var m := Abs(x) / Abs(y);
    QuotientBounds(Abs(x), Abs(y));
    if (x < 0) == (y < 0) then m else -m
  }

  lemma QuotientBounds(n: nat, t: nat)
    requires t > 0
    ensures (n / t) * t <= n < (n / t + 1) * t
  {
  }

  /** The quotient of magnitudes is the one m with m * t <= n < (m + 1) * t. */
  lemma QuotientUnique(n: nat, t: nat, m: nat)
    requires t > 0 && m * t <= n < (m + 1) * t
    ensures n / t == m
  {
    DivUnique(n, t, m, n - m * t);
  }

  /** The remainder left by the truncated quotient is below the divisor
      in size and, when not zero, has the dividend's sign: together with
      the quotient it rebuilds the dividend. */
  lemma TruncatedDivision(x: int, y: int)
    requires y != 0
    ensures var r := x - TruncatedQuotient(x, y) * y;
      Abs(r) < Abs(y) && (r == 0 || ((r > 0) <==> (x > 0)))
  {
    var q := TruncatedQuotient(x, y);
    var m := Abs(x) / Abs(y);
    QuotientBounds(Abs(x), Abs(y));
    assert Abs(q) == m;
    assert Abs(q * y) == m * Abs(y) by {
      ProductSign(q, y);
    }
    if (x < 0) == (y < 0) {
      assert q * y == (if x < 0 then -(m * Abs(y)) else m * Abs(y)) by {
        ProductSign(q, y);
      }
    } else {
      assert q * y == (if x < 0 then -(m * Abs(y)) else m * Abs(y)) by {
        ProductSign(q, y);
      }
    }
  }

  /** The sign of a product from the signs and sizes of its factors. */
  lemma ProductSign(a: int, b: int)
    ensures Abs(a * b) == Abs(a) * Abs(b)
    ensures a * b > 0 <==> (a > 0 && b > 0) || (a < 0 && b < 0)
    ensures a * b < 0 <==> (a > 0 && b < 0) || (a < 0 && b > 0)
  {
    if a > 0 && b > 0 {
      MulPositive(a, b);
    } else if a < 0 && b < 0 {
      MulPositive(-a, -b);
    } else if a > 0 && b < 0 {
      MulPositive(a, -b);
    } else if a < 0 && b > 0 {
      MulPositive(-a, b);
    }
  }

  /** operator/=: a zero result when |a| < |b|; otherwise a binary search
      for the quotient of the magnitudes between 0 and |a| + 1, stopping
      when the candidate's product equals |a| exactly or the bounds are
      adjacent. The sign is positive exactly when both or neither operand
      is negative, which rounds the quotient towards zero. */
  method Divide(a: BigInt, b: BigInt) returns (r: BigInt)
    requires Valid(a) && Valid(b) && Value(b) != 0
    ensures Valid(r) && Value(r) == TruncatedQuotient(Value(a), Value(b))
  {
    ghost var n, t := Mag(a.digits), Mag(b.digits);
    MagPositive(b.digits);
    MagBounds(a.digits);
    var isLess := AbsoluteLessThan(a.digits, b.digits);
    if isLess {
      QuotientUnique(n, t, 0);
      return BigInt([], true);
    }
    assert t <= n;
    // Here |a| >= |b| > 0, so a is not zero.
    var middle := SearchQuotient(a, b);
    r := BigInt(middle.digits, !(Negative(a) != Negative(b)));
    DivideSign(a, b, middle, r);
  }

  /** The binary search of operator/=, over candidates for |a| / |b|
      between 0 and |a| + 1. */
  method SearchQuotient(a: BigInt, b: BigInt) returns (middle: BigInt)
    requires Valid(a) && Valid(b) && 0 < Mag(b.digits) <= Mag(a.digits)
    ensures Valid(middle) && Value(middle) == Mag(a.digits) / Mag(b.digits)
  {
    ghost var q := Mag(a.digits) / Mag(b.digits);
    var one := FromInteger(1);
    var lo := FromInteger(0);
    var hi := Plus(BigInt(a.digits, true), one);
    QuotientAtMost(Mag(a.digits), Mag(b.digits));
    middle := lo;
    while true
      invariant Valid(lo) && Valid(hi) && Valid(middle)
      invariant 0 <= Value(lo) <= q < Value(hi)
      decreases Value(hi) - Value(lo)
    {
      var found;
      middle, found, lo, hi := Narrow(a, b, lo, hi, one);
      if found {
        break;
      }
    }
  }

  lemma QuotientAtMost(n: nat, t: nat)
    requires t > 0
    ensures n / t <= n
  {
    var q := n / t;
    assert q * t <= n;
    if q > n {
      MulMonotone(n + 1, q, t);
      MulMonotone(1, t, n + 1);
      assert false;
    }
  }

  /** A candidate is at most the quotient exactly when its product is at
      most the dividend. */
  lemma CompareWithQuotient(n: nat, t: nat, m: int)
    requires t > 0
    ensures m <= n / t <==> m * t <= n
    ensures m * t == n ==> m == n / t
  {
    QuotientBounds(n, t);
    if m <= n / t {
      MulMonotone(m, n / t, t);
    } else {
      MulMonotone(n / t + 1, m, t);
    }
    if m * t == n {
      MulMonotone(m, m + 1, t);
      QuotientUnique(n, t, m);
    }
  }

  /** One pass of operator/='s search loop: stop at a candidate whose
      product is |a| or whose bounds are adjacent, otherwise move the
      bound on the candidate's side of |a| to the candidate. */
  method Narrow(a: BigInt, b: BigInt, lo: BigInt, hi: BigInt, one: BigInt)
      returns (middle: BigInt, found: bool, lo': BigInt, hi': BigInt)
    requires Valid(a) && Valid(b) && Valid(lo) && Valid(hi) && Valid(one) && Value(one) == 1
    requires 0 < Mag(b.digits)
    requires 0 <= Value(lo) <= Mag(a.digits) / Mag(b.digits) < Value(hi)
    ensures Valid(middle) && Valid(lo') && Valid(hi')
    ensures found ==> Value(middle) == Mag(a.digits) / Mag(b.digits)
    ensures !found ==> 0 <= Value(lo') <= Mag(a.digits) / Mag(b.digits) < Value(hi')
    ensures !found ==> Value(hi') - Value(lo') < Value(hi) - Value(lo)
  {
    middle := Halve(lo, hi);
    var product, exact := Probe(a, b, middle);
    var hiLessOne := Minus(hi, one);
    var apart := Less(lo, hiLessOne);
    lo', hi' := lo, hi;
    if exact || !apart {
      return middle, true, lo', hi';
    }
    found := false;
    var below := AbsoluteLessThan(product.digits, a.digits);
    if below {
      lo' := middle;
    } else {
      hi' := middle;
    }
  }

  /** The candidate (lo + hi) >> 1 of operator/='s search. */
  method Halve(lo: BigInt, hi: BigInt) returns (middle: BigInt)
    requires Valid(lo) && Valid(hi) && 0 <= Value(lo) < Value(hi)
    ensures Valid(middle) && Value(lo) <= Value(middle) < Value(hi)
    ensures Value(lo) + 1 < Value(hi) ==> Value(lo) < Value(middle)
    ensures Value(lo) + 1 == Value(hi) ==> Value(middle) == Value(lo)
  {
    var sum := Plus(lo, hi);
    middle := ShiftRight(sum, 1);
    ghost var m := Midpoint(sum, Value(lo), Value(hi));
  }

  /** The candidate's product with b, and whether it has |a|'s digits;
      what either outcome says of the candidate against the quotient of
      the magnitudes. */
  method Probe(a: BigInt, b: BigInt, middle: BigInt) returns (product: BigInt, exact: bool)
    requires Valid(a) && Valid(b) && Valid(middle) && 0 < Mag(b.digits) && Value(middle) >= 0
    ensures Valid(product)
    ensures exact ==> Value(middle) == Mag(a.digits) / Mag(b.digits)
    ensures Mag(product.digits) < Mag(a.digits) ==> Value(middle) <= Mag(a.digits) / Mag(b.digits)
    ensures !exact && Mag(product.digits) >= Mag(a.digits) ==> Mag(a.digits) / Mag(b.digits) < Value(middle)
  {
    product := Times(middle, b);
    ProductMagnitude(middle, b, product);
    exact := AbsoluteEqual(product.digits, a.digits);
    if !exact {
      MagDistinct(product.digits, a.digits);
    }
    MagBounds(a.digits);
    CompareWithQuotient(Mag(a.digits), Mag(b.digits), Value(middle));
  }

  /** The candidate (lo + hi) >> 1 lies in [lo, hi) and leaves both halves
      non-empty when the bounds are not adjacent. */
  lemma Midpoint(sum: BigInt, lo: int, hi: int) returns (m: int)
    requires Valid(sum) && Value(sum) == lo + hi && 0 <= lo < hi
    ensures m == (if sum.sign then Mag(sum.digits) / Pow2(1) else -(Mag(sum.digits) / Pow2(1)))
    ensures m == (lo + hi) / 2 && lo <= m < hi && (lo + 1 < hi ==> lo < m)
  {
    assert Pow2(1) == 2;
    SignsClassify(sum);
    m := (lo + hi) / 2;
  }

  /** The magnitude of middle * b, for a non-negative middle. */
  lemma ProductMagnitude(middle: BigInt, b: BigInt, product: BigInt)
    requires Valid(middle) && Valid(b) && Valid(product)
    requires Value(middle) >= 0 && Value(product) == Value(middle) * Value(b)
    ensures Mag(product.digits) == Value(middle) * Mag(b.digits)
  {
    MagBounds(product.digits);
    MagBounds(b.digits);
    ProductSign(Value(middle), Value(b));
    assert Abs(Value(product)) == Mag(product.digits);
    assert Abs(Value(b)) == Mag(b.digits);
  }

  /** Distinct trimmed digit vectors have distinct magnitudes. */
  lemma MagDistinct(x: seq<int>, y: seq<int>)
    requires IsDigits(x) && IsDigits(y) && Trimmed(x) && Trimmed(y) && x != y
    ensures Mag(x) != Mag(y)
  {
    if Mag(x) == Mag(y) {
      MagInjective(x, y);
    }
  }

  lemma DivideSign(a: BigInt, b: BigInt, middle: BigInt, r: BigInt)
    requires Valid(a) && Valid(b) && Mag(b.digits) > 0 && Valid(middle)
    requires Mag(b.digits) <= Mag(a.digits)
    requires Value(middle) == Mag(a.digits) / Mag(b.digits)
    requires r == BigInt(middle.digits, !(Negative(a) != Negative(b)))
    ensures Valid(r) && Value(r) == TruncatedQuotient(Value(a), Value(b))
  {
    MagPositive(b.digits);
    MagBounds(a.digits);
    DivAtLeastOne(Mag(a.digits), Mag(b.digits));
    SignsClassify(a);
    SignsClassify(b);
    SignsClassify(middle);
    assert Abs(Value(a)) == Mag(a.digits) && Abs(Value(b)) == Mag(b.digits);
  }

  lemma DivAtLeastOne(n: nat, t: nat)
    requires 0 < t <= n
    ensures n / t >= 1
  {
    if n / t == 0 {
      QuotientBounds(n, t);
      assert false;
    }
  }

  /** operator%: the magnitude of a less the magnitude of b times the
      quotient of the magnitudes, which is the remainder of the
      magnitudes whatever the operands' signs. */
  method Modulo(a: BigInt, b: BigInt) returns (r: BigInt)
    requires Valid(a) && Valid(b) && Value(b) != 0
    ensures Valid(r) && Value(r) == Abs(Value(a)) % Abs(Value(b))
  {
    var absThis := BigInt(a.digits, true);
    var absThat := BigInt(b.digits, true);
    var quotient := Divide(absThis, absThat);
    var product := Times(quotient, absThat);
    r := Minus(absThis, product);
    MagPositive(b.digits);
    ModuloValue(a, b, Value(quotient));
  }

  lemma ModuloValue(a: BigInt, b: BigInt, q: int)
    requires Valid(a) && Valid(b) && Mag(b.digits) > 0
    requires q == TruncatedQuotient(Mag(a.digits), Mag(b.digits))
    ensures Mag(a.digits) - q * Mag(b.digits) == Abs(Value(a)) % Abs(Value(b))
  {
    MagPositive(b.digits);
    MagBounds(a.digits);
    var n, t := Mag(a.digits), Mag(b.digits);
    assert q == n / t;
    QuotientBounds(n, t);
    DivUnique(n, t, q, n - q * t);
  }

  /** operator/ and operator% together rebuild |a| from |b|: the quotient
      of the magnitudes times |b| plus the remainder. For a negative a the
      remainder keeps a positive sign, so a itself is rebuilt only when it
      is not negative. */
  lemma DivideModulo(x: int, y: int)
    requires y != 0
    ensures Abs(TruncatedQuotient(x, y)) * Abs(y) + Abs(x) % Abs(y) == Abs(x)
    ensures x >= 0 ==> TruncatedQuotient(x, y) * y + Abs(x) % Abs(y) == x
  {
    var n, t := Abs(x), Abs(y);
    QuotientBounds(n, t);
    assert Abs(TruncatedQuotient(x, y)) == n / t;
    if x >= 0 {
      var q := TruncatedQuotient(x, y);
      if y < 0 {
        assert q + n / t == 0;
        assert q * y == (n / t) * t;
      }
    }
  }
}
