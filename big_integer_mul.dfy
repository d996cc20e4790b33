// BigInteger multiplication (pastel/math/biginteger.cpp): the private
// constructor that places one digit product, multiply() by a 16-bit
// digit, and operator*= as the sum of shifted digit products.
module BigIntegerProducts {
  import opened Bits
  import opened BigDigits
  import opened BigIntegers

  /** Only a smaller power of the base lies below a larger one. */
  lemma PowBLess(j: nat, k: nat)
    requires PowB(j) < PowB(k)
    ensures j < k
  {
    if j >= k {
      PowBMonotone(k, j);
      assert false;
    }
  }

  /** A trimmed vector whose value is below 0x10000^n has at most n
      digits. */
  lemma LengthByValue(v: seq<int>, n: nat)
    requires IsDigits(v) && Trimmed(v) && Mag(v) < PowB(n)
    ensures |v| <= n
  {
    if |v| > 0 {
      TrimmedLower(v);
      PowBLess(|v| - 1, n);
    }
  }

  /** Conversely, a vector holding at least 0x10000^(n-1) has at least n
      digits. */
  lemma LengthAtLeast(v: seq<int>, n: nat)
    requires IsDigits(v) && n > 0 && Mag(v) >= PowB(n - 1)
    ensures |v| >= n
  {
    MagBounds(v);
    PowBLess(n - 1, |v|);
  }

  // ---------------------------------------------------------------------
  // BigInteger(int32 value, integer digitShift)

  /** The private constructor as intended, for a non-negative product p
      of two digits: shift zero digits, the low half, and the high half
      when it is non-zero. */
  function ShiftedProduct(p: nat, shift: nat): (r: seq<int>)
    requires p < 0x1_0000_0000
    ensures IsDigits(r) && shift < |r| <= shift + 2
    ensures p != 0 ==> Trimmed(r)
  {
    Zeros(shift) + [p % 0x10000] + (if p / 0x10000 != 0 then [p / 0x10000] else [])
  }

  lemma ShiftedProductValue(p: nat, shift: nat)
    requires p < 0x1_0000_0000
    ensures Mag(ShiftedProduct(p, shift)) == p * PowB(shift)
  {
    var high := if p / 0x10000 != 0 then [p / 0x10000] else [];
    var body := [p % 0x10000] + high;
    assert ShiftedProduct(p, shift) == Zeros(shift) + body;
    MagShifted(body, shift);
    assert body[1..] == high;
    if high != [] {
      assert high[1..] == [];
    }
    assert Mag(body) == p % 0x10000 + 0x10000 * Mag(high);
  }

  /** The int32 that multiply() of biginteger.cpp stores a product of two digits in: two's
      complement wrap-around past 2^31 - 1. */
  function Wrap32(x: int): (r: int)
    ensures -0x8000_0000 <= r < 0x8000_0000
  {
    var m := x % 0x1_0000_0000;
    if m < 0x8000_0000 then m else m - 0x1_0000_0000
  }

  /** The private constructor as written: sign from the int32 value,
      magnitude split into a low digit and a 16-bit high digit. */
  function ShiftedProductAsWritten(value: int, shift: nat): (r: BigInt)
    requires -0x8000_0000 < value < 0x8000_0000
    ensures r.sign <==> value >= 0
    ensures shift < |r.digits| <= shift + 2 && r.digits[..shift] == Zeros(shift)
  {
    var m := if value < 0 then -value else value;
    var upperBits := (m / 0x10000) % 0x10000;
    BigInt(Zeros(shift) + [m % 0x10000] + (if upperBits != 0 then [upperBits] else []), value >= 0)
  }

  /** multiply() as written forms digits_[i] * that in int32: for
      0xFFFF * 0xFFFF that wraps to -131071, and the partial product is
      a negative BigInteger instead of 4294836225. */
  lemma DigitProductOverflows()
    ensures 0xFFFF * 0xFFFF == 4294836225
    ensures Wrap32(0xFFFF * 0xFFFF) == -131071
    ensures ShiftedProductAsWritten(-131071, 0) == BigInt([0xFFFF, 1], false)
    ensures Value(BigInt([0xFFFF, 1], false)) == -131071
  {
    assert Zeros(0) == [];
    MagTwoDigits(0xFFFF, 1);
  }

  /** Below 2^31 the product fits in int32 and the constructor as written
      agrees with the intended one. */
  lemma ShiftedProductAsWrittenSmall(p: nat, shift: nat)
    requires p < 0x8000_0000
    ensures Wrap32(p) == p
    ensures ShiftedProductAsWritten(p, shift) == BigInt(ShiftedProduct(p, shift), true)
  {
    DivUnique(p, 0x1_0000_0000, 0, p);
    DivUnique(p / 0x10000, 0x10000, 0, p / 0x10000);
  }

  // ---------------------------------------------------------------------
  // multiply(uint16)

  /** multiply(): the sum of the products digits_[i] * that, each placed
      at digit i, formed without overflow. */
  method MultiplyDigit(digits: seq<int>, d: int) returns (r: seq<int>)
    requires IsDigits(digits) && 0 <= d < 0x10000
    ensures IsDigits(r) && Mag(r) == Mag(digits) * d && |r| <= |digits| + 1
    ensures Trimmed(digits) && |digits| > 0 && d != 0 ==> Trimmed(r) && |r| >= |digits|
  {
    r := [];
    var i := 0;
    while i < |digits|
      invariant 0 <= i <= |digits| && IsDigits(r) && |r| <= i + 1
      invariant Mag(r) == Mag(digits[..i]) * d
      invariant Trimmed(digits) && d != 0 && i == |digits| > 0 ==> Trimmed(r)
    {
      r := AddDigitProduct(r, digits, d, i);
      i := i + 1;
    }
    assert digits[..i] == digits;
    if Trimmed(digits) && |digits| > 0 && d != 0 {
      TrimmedLower(digits);
      MulMonotone(1, d, Mag(digits));
      LengthAtLeast(r, |digits|);
    }
  }

  /** One pass of multiply()'s loop. */
  method AddDigitProduct(r: seq<int>, digits: seq<int>, d: int, i: nat) returns (r': seq<int>)
    requires IsDigits(digits) && 0 <= d < 0x10000 && i < |digits|
    requires IsDigits(r) && |r| <= i + 1 && Mag(r) == Mag(digits[..i]) * d
    ensures IsDigits(r') && |r'| <= i + 2 && Mag(r') == Mag(digits[..i + 1]) * d
    ensures Trimmed(digits) && d != 0 && i + 1 == |digits| ==> Trimmed(r')
  {
    var p := digits[i] * d;
    DigitProductBound(digits[i], d);
    var product := ShiftedProduct(p, i);
    r' := SumMagnitudes(r, product);
    assert Mag(r') == Mag(digits[..i + 1]) * d by {
      ShiftedProductValue(p, i);
      DigitProductValue(digits, d, i, Mag(r), Mag(product), Mag(r'));
    }
    if |r'| > |r| && |r'| > |product| {
      PrefixProductBound(digits, d, i);
      LengthByValue(r', i + 2);
    }
    if Trimmed(digits) && d != 0 && i + 1 == |digits| {
      MulPositive(digits[i], d);
    }
  }

  lemma DigitProductBound(x: int, y: int)
    requires 0 <= x < 0x10000 && 0 <= y < 0x10000
    ensures 0 <= x * y < 0x1_0000_0000
  {
    MulMonotone(x, 0xFFFF, y);
    MulMonotone(y, 0xFFFF, 0xFFFF);
    MulNonNegative(x, y);
  }

  /** The accumulated sum grows by digit i's product. */
  lemma DigitProductValue(digits: seq<int>, d: int, i: nat, before: int, product: int, after: int)
    requires i < |digits| && before == Mag(digits[..i]) * d
    requires product == digits[i] * d * PowB(i) && after == before + product
    ensures after == Mag(digits[..i + 1]) * d
  {
    PrefixAppend(digits, i);
    var low, p := Mag(digits[..i]), PowB(i);
    assert digits[i] * d * p == digits[i] * p * d by {
      MulAssociative(digits[i], d, p);
      MulAssociative(digits[i], p, d);
    }
    assert (low + digits[i] * p) * d == low * d + digits[i] * p * d;
  }

  /** The first i + 1 digits times a digit stay below 0x10000^(i+2). */
  lemma PrefixProductBound(digits: seq<int>, d: int, i: nat)
    requires IsDigits(digits) && 0 <= d < 0x10000 && i < |digits|
    ensures Mag(digits[..i + 1]) * d < PowB(i + 2)
  {
    var m, p := Mag(digits[..i + 1]), PowB(i + 1);
    PrefixDigits(digits, i + 1);
    MagBounds(digits[..i + 1]);
    MulMonotone(d, 0xFFFF, m);
    assert m * d <= m * 0xFFFF;
    assert PowB(i + 2) == 0x10000 * p;
  }

  lemma MulPositive(a: int, b: int)
    requires a > 0 && b > 0
    ensures a * b > 0
  {
    MulStrict(0, a, b);
  }

  // ---------------------------------------------------------------------
  // operator*=

  /** operator*=: zero when either operand is zero; otherwise the sum of
      this times each digit of that, shifted to the digit's place, with a
      positive sign exactly when the operands' signs agree. A zero this
      may carry either sign (the string constructor sets the sign before
      any digit). */
  method Times(a: BigInt, b: BigInt) returns (r: BigInt)
    requires (Valid(a) || a.digits == []) && Valid(b)
    ensures Valid(r) && Value(r) == Value(a) * Value(b)
  {
    if IsZero(a) || IsZero(b) {
      return BigInt([], true);
    }
    var result := [];
    var i := 0;
    while i < |b.digits|
      invariant 0 <= i <= |b.digits| && IsDigits(result) && |result| <= |a.digits| + i
      invariant Mag(result) == Mag(a.digits) * Mag(b.digits[..i])
      invariant i == |b.digits| ==> Trimmed(result)
    {
      result := AddPartialProduct(result, a.digits, b.digits, i);
      i := i + 1;
    }
    assert b.digits[..i] == b.digits;
    r := BigInt(result, !(Negative(a) != Negative(b)));
    TimesValue(a, b, result);
  }

  lemma TimesValue(a: BigInt, b: BigInt, result: seq<int>)
    requires Valid(a) && Valid(b) && !IsZero(a) && !IsZero(b)
    requires IsDigits(result) && Mag(result) == Mag(a.digits) * Mag(b.digits)
    ensures Value(BigInt(result, !(Negative(a) != Negative(b)))) == Value(a) * Value(b)
    ensures Mag(result) > 0
  {
    var x, y := Mag(a.digits), Mag(b.digits);
    assert x > 0 && y > 0 by {
      MagPositive(a.digits);
      MagPositive(b.digits);
    }
    MulPositive(x, y);
    SignedProduct(x, y);
    assert Value(a) == (if a.sign then x else -x);
    assert Value(b) == (if b.sign then y else -y);
  }

  lemma SignedProduct(x: int, y: int)
    ensures (-x) * y == -(x * y) && x * (-y) == -(x * y) && (-x) * (-y) == x * y
  {
  }

  /** One pass of operator*='s loop: the partial product for digit i of
      that, shifted i digits up, added to the running sum. */
  method AddPartialProduct(result: seq<int>, a: seq<int>, b: seq<int>, i: nat)
      returns (result': seq<int>)
    requires IsDigits(a) && Trimmed(a) && |a| > 0
    requires IsDigits(b) && Trimmed(b) && i < |b|
    requires IsDigits(result) && |result| <= |a| + i
    requires Mag(result) == Mag(a) * Mag(b[..i])
    ensures IsDigits(result') && |result'| <= |a| + i + 1
    ensures Mag(result') == Mag(a) * Mag(b[..i + 1])
    ensures i + 1 == |b| ==> Trimmed(result')
  {
    var digitProduct := MultiplyDigit(a, b[i]);
    var shifted := ShiftDigitsLeft(digitProduct, i);
    result' := SumMagnitudes(result, shifted);
    assert Mag(result') == Mag(a) * Mag(b[..i + 1]) by {
      PartialProductValue(a, b, i, Mag(result), Mag(digitProduct), Mag(shifted), Mag(result'));
    }
    if |result'| > |result| && |result'| > |shifted| {
      PartialProductBound(a, b, i);
      LengthByValue(result', |a| + i + 1);
    }
  }

  /** The running sum grows by a times digit i of b at its place. */
  lemma PartialProductValue(a: seq<int>, b: seq<int>, i: nat,
                            before: int, digitProduct: int, shifted: int, after: int)
    requires i < |b|
    requires before == Mag(a) * Mag(b[..i]) && digitProduct == Mag(a) * b[i]
    requires shifted == digitProduct * PowB(i) && after == before + shifted
    ensures after == Mag(a) * Mag(b[..i + 1])
  {
    PrefixAppend(b, i);
    var m, low, p := Mag(a), Mag(b[..i]), PowB(i);
    MulAssociative(m, b[i], p);
    assert m * (low + b[i] * p) == m * low + m * (b[i] * p);
  }

  /** a times the first i + 1 digits of b stays below
      0x10000^(|a| + i + 1). */
  lemma PartialProductBound(a: seq<int>, b: seq<int>, i: nat)
    requires IsDigits(a) && IsDigits(b) && i < |b|
    ensures Mag(a) * Mag(b[..i + 1]) < PowB(|a| + i + 1)
  {
    PrefixDigits(b, i + 1);
    MagBounds(a);
    MagBounds(b[..i + 1]);
    PowBAdd(|a|, i + 1);
    var x, y := Mag(a), Mag(b[..i + 1]);
    MulMonotone(x, PowB(|a|), y);
    MulStrict(y, PowB(i + 1), PowB(|a|));
  }
}
