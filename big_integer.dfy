// BigInteger (pastel/math/biginteger.cpp) as a sign-magnitude value: a
// trimmed digit vector and a sign flag that is true for zero. The digit
// loops live in BigDigits; this module holds the sign rules of the
// operators, the integer constructor and asNative().
module BigIntegers {
  import opened BigDigits

  /** The digits_/sign_ pair of a BigInteger. */
  datatype BigInt = BigInt(digits: seq<int>, sign: bool)

  /** What every BigInteger the public operations produce satisfies:
      16-bit digits, no zero most-significant digit, and a positive sign
      for zero (the empty vector). */
  predicate Valid(x: BigInt)
  {
    IsDigits(x.digits) && Trimmed(x.digits) && (|x.digits| == 0 ==> x.sign)
  }

  function Value(x: BigInt): int
  {
    if x.sign then Mag(x.digits) else -Mag(x.digits)
  }

  /** zero(): the empty digit vector. */
  predicate IsZero(x: BigInt)
  {
    |x.digits| == 0
  }

  /** positive(): a positive sign and not zero. */
  predicate Positive(x: BigInt)
  {
    x.sign && !IsZero(x)
  }

  /** negative(): a negative sign and not zero. */
  predicate Negative(x: BigInt)
  {
    !x.sign && !IsZero(x)
  }

  /** A trimmed non-empty vector stands for a positive number. */
  lemma MagPositive(s: seq<int>)
    requires IsDigits(s) && Trimmed(s) && |s| > 0
    ensures Mag(s) > 0
  {
    TrimmedLower(s);
  }

  /** The three predicates classify the value; for zero both positive()
      and negative() are false. */
  lemma SignsClassify(x: BigInt)
    requires Valid(x)
    ensures IsZero(x) <==> Value(x) == 0
    ensures Positive(x) <==> Value(x) > 0
    ensures Negative(x) <==> Value(x) < 0
  {
    if |x.digits| > 0 {
      MagPositive(x.digits);
    }
  }

  /** Two valid BigIntegers with the same value are the same. */
  lemma ValueInjective(x: BigInt, y: BigInt)
    requires Valid(x) && Valid(y) && Value(x) == Value(y)
    ensures x == y
  {
    SignsClassify(x);
    SignsClassify(y);
    if |x.digits| == 0 || |y.digits| == 0 {
      assert |x.digits| == 0 && |y.digits| == 0;
    } else {
      assert x.sign == y.sign;
      MagInjective(x.digits, y.digits);
    }
  }

  // ---------------------------------------------------------------------
  // Unary minus

  /** operator-(): flips the sign of a non-zero value only. */
  function Neg(x: BigInt): (r: BigInt)
    ensures Valid(x) ==> Valid(r)
    ensures Value(r) == -Value(x)
    ensures r.digits == x.digits
  {
    if IsZero(x) then x else BigInt(x.digits, !x.sign)
  }

  lemma NegInvolution(x: BigInt)
    ensures Neg(Neg(x)) == x
  {
  }

  // ---------------------------------------------------------------------
  // operator+

  /** operator+ when both operands are non-negative: add() with the
      operand that is not absolutely less first. The vectors need not be
      trimmed, as in the partial products of multiplication; the sum is
      trimmed when the longer operand is. */
  method SumMagnitudes(x: seq<int>, y: seq<int>) returns (r: seq<int>)
    requires IsDigits(x) && IsDigits(y)
    ensures IsDigits(r) && Mag(r) == Mag(x) + Mag(y)
    ensures |x| <= |r| && |y| <= |r| && (|r| <= |x| + 1 || |r| <= |y| + 1)
    ensures (|r| > |x| && |r| > |y|) ==> Trimmed(r)
    ensures (Trimmed(x) && |x| >= |y|) || (Trimmed(y) && |y| >= |x|) ==> Trimmed(r)
  {
    var yIsAbsLess := AbsoluteLessThan(y, x);
    if yIsAbsLess {
      r := Add(x, y);
      if Trimmed(y) && |y| >= |x| {
        LargerTrimmed(y, x);
      }
    } else {
      r := Add(y, x);
      if Trimmed(x) && |x| >= |y| {
        LargerTrimmed(x, y);
      }
    }
  }

  /** A vector of the same length as a trimmed one and at least as large
      is trimmed. */
  lemma LargerTrimmed(small: seq<int>, large: seq<int>)
    requires IsDigits(small) && IsDigits(large) && Trimmed(small)
    requires |small| == |large| && Mag(small) <= Mag(large)
    ensures Trimmed(large)
  {
    if |small| > 0 {
      TrimmedLower(small);
      TrimmedByValue(large);
    }
  }

  /** operator+: add() when the signs agree, subtract() of the smaller
      magnitude from the larger when they differ; the sign is the larger
      operand's, and a zero sum is positive. */
  method Plus(a: BigInt, b: BigInt) returns (r: BigInt)
    requires Valid(a) && Valid(b)
    ensures Valid(r) && Value(r) == Value(a) + Value(b)
  {
    var thatIsAbsLess := AbsoluteLessThan(b.digits, a.digits);
    var result: seq<int>;
    var resultSign: bool;
    if !Negative(a) {
      if !Negative(b) {
        result := SumMagnitudes(a.digits, b.digits);
        resultSign := true;
      } else if thatIsAbsLess {
        result := Subtract(a.digits, b.digits);
        resultSign := true;
      } else {
        result := Subtract(b.digits, a.digits);
        resultSign := false;
      }
    } else {
      if !Negative(b) {
        if thatIsAbsLess {
          result := Subtract(a.digits, b.digits);
          resultSign := false;
        } else {
          result := Subtract(b.digits, a.digits);
          resultSign := true;
        }
      } else {
        result := SumMagnitudes(a.digits, b.digits);
        resultSign := false;
      }
    }
    if |result| == 0 {
      resultSign := true;
    }
    r := BigInt(result, resultSign);
    PlusValue(a, b, thatIsAbsLess, result, resultSign);
  }

  /** The value of operator+'s result, case by case. */
  lemma PlusValue(a: BigInt, b: BigInt, thatIsAbsLess: bool, result: seq<int>, resultSign: bool)
    requires Valid(a) && Valid(b)
    requires thatIsAbsLess <==> Mag(b.digits) < Mag(a.digits)
    requires !Negative(a) && !Negative(b) ==> Mag(result) == Mag(a.digits) + Mag(b.digits) && resultSign
    requires Negative(a) && Negative(b) ==> Mag(result) == Mag(a.digits) + Mag(b.digits) && (resultSign <==> |result| == 0)
    requires Negative(a) != Negative(b) && thatIsAbsLess ==> Mag(result) == Mag(a.digits) - Mag(b.digits) && (resultSign <==> (!Negative(a) || |result| == 0))
    requires Negative(a) != Negative(b) && !thatIsAbsLess ==> Mag(result) == Mag(b.digits) - Mag(a.digits) && (resultSign <==> (Negative(a) || |result| == 0))
    requires |result| == 0 ==> Mag(result) == 0
    ensures Value(BigInt(result, resultSign)) == Value(a) + Value(b)
  {
    SignsClassify(a);
    SignsClassify(b);
  }

  /** operator-: the sum with the negated operand. */
  method Minus(a: BigInt, b: BigInt) returns (r: BigInt)
    requires Valid(a) && Valid(b)
    ensures Valid(r) && Value(r) == Value(a) - Value(b)
  {
    r := Plus(a, Neg(b));
  }

  // ---------------------------------------------------------------------
  // Comparisons

  /** operator==: the same sign and the same digits. */
  method Equal(a: BigInt, b: BigInt) returns (r: bool)
    requires Valid(a) && Valid(b)
    ensures r <==> Value(a) == Value(b)
  {
    var sameDigits := AbsoluteEqual(a.digits, b.digits);
    r := a.sign == b.sign && sameDigits;
    if Value(a) == Value(b) {
      ValueInjective(a, b);
    }
  }

  /** operator<: a negative operand is less than a non-negative one;
      otherwise the magnitudes decide, reversed for two negatives. */
  method Less(a: BigInt, b: BigInt) returns (r: bool)
    requires Valid(a) && Valid(b)
    ensures r <==> Value(a) < Value(b)
  {
    SignsClassify(a);
    SignsClassify(b);
    if Negative(a) {
      if Negative(b) {
        r := AbsoluteLessThan(b.digits, a.digits);
      } else {
        r := true;
      }
    } else if Negative(b) {
      r := false;
    } else {
      r := AbsoluteLessThan(a.digits, b.digits);
    }
  }

  // ---------------------------------------------------------------------
  // The integer constructor

  /** The base-65536 digits of m, least significant first. */
  function NatDigits(m: nat): (s: seq<int>)
    ensures IsDigits(s) && Trimmed(s) && Mag(s) == m
    decreases m
  {
    if m == 0 then [] else [m % 0x10000] + NatDigits(m / 0x10000)
  }

  /** BigInteger(integer) as intended: the sign of the argument and all
      the digits of its magnitude. */
  function FromInteger(that: int): (r: BigInt)
    ensures Valid(r) && Value(r) == that
  {
    BigInt(NatDigits(if that < 0 then -that else that), that >= 0)
  }

  /** BigInteger(integer) as written: a low digit and one upper digit,
      the upper one cut to 16 bits by the push into the uint16 vector.
      The argument is a 64-bit integer other than the most negative one,
      whose negation overflows. */
  function FromIntegerAsWritten(that: int): (r: BigInt)
    requires -0x8000_0000_0000_0000 < that < 0x8000_0000_0000_0000
  {
    if that == 0 then BigInt([], true)
    else
      var m := if that < 0 then -that else that;
      var upperBits := m / 0x10000;
      BigInt([m % 0x10000] + (if upperBits != 0 then [upperBits % 0x10000] else []), that >= 0)
  }

  /** Below 2^32 in magnitude the constructor as written is right. */
  lemma FromIntegerAsWrittenSmall(that: int)
    requires -0x1_0000_0000 < that < 0x1_0000_0000
    ensures FromIntegerAsWritten(that) == FromInteger(that)
  {
    var m := if that < 0 then -that else that;
    if m != 0 {
      var upper := m / 0x10000;
      assert NatDigits(m) == [m % 0x10000] + NatDigits(upper);
      if upper != 0 {
        assert NatDigits(upper) == [upper % 0x10000] + NatDigits(upper / 0x10000);
        assert upper / 0x10000 == 0;
      }
    }
  }

  /** At 2^32 the upper digit 0x10000 is cut to 0: the result is an
      untrimmed zero instead of 4294967296. */
  lemma FromIntegerAsWrittenTruncates()
    ensures FromIntegerAsWritten(0x1_0000_0000) == BigInt([0, 0], true)
    ensures Value(FromIntegerAsWritten(0x1_0000_0000)) == 0
  {
    MagTwoDigits(0, 0);
  }

  // ---------------------------------------------------------------------
  // asNative()

  const IntegerMax := 0x7FFF_FFFF_FFFF_FFFF
  const IntegerMin := -0x8000_0000_0000_0000

  /** asNative(): the value itself when it has at most 31 bits of
      magnitude, the largest or smallest integer otherwise. */
  function AsNative(x: BigInt): (r: int)
    requires Valid(x)
    ensures -0x8000_0000 < Value(x) < 0x8000_0000 ==> r == Value(x)
    ensures Value(x) >= 0x8000_0000 ==> r == IntegerMax
    ensures Value(x) <= -0x8000_0000 ==> r == IntegerMin
  {
    var d := x.digits;
    AsNativeRange(x);
    if |d| == 0 then 0
    else if |d| > 2 || (|d| == 2 && d[1] >= 0x8000) then
      (if Negative(x) then IntegerMin else IntegerMax)
    else
      var result := d[0] + (if |d| >= 2 then (d[1] % 0x8000) * 0x10000 else 0);
      if Negative(x) then -result else result
  }

  /** Where the digit tests of asNative() put the magnitude. */
  lemma AsNativeRange(x: BigInt)
    requires Valid(x)
    ensures |x.digits| == 1 ==> Mag(x.digits) == x.digits[0]
    ensures |x.digits| == 2 ==> Mag(x.digits) == x.digits[0] + x.digits[1] * 0x10000
    ensures |x.digits| == 2 && x.digits[1] >= 0x8000 ==> Mag(x.digits) >= 0x8000_0000
    ensures |x.digits| > 2 ==> Mag(x.digits) >= 0x1_0000_0000
    ensures !Negative(x) <==> Value(x) >= 0
  {
    var d := x.digits;
    SignsClassify(x);
    if |d| == 1 {
      assert d == [d[0]];
      assert [d[0]][1..] == [];
    } else if |d| == 2 {
      assert d == [d[0], d[1]];
      MagTwoDigits(d[0], d[1]);
    } else if |d| > 2 {
      TrimmedLower(d);
      PowBMonotone(2, |d| - 1);
      assert PowB(2) == 0x10000 * (0x10000 * PowB(0));
    }
  }
}
