// BigInteger's bit shifts (pastel/math/biginteger.cpp): whole digits move
// with shiftDigitsLeft/Right, the remaining 0-15 bits with a carry loop
// over the 16-bit digits. Both shift the magnitude and keep the sign, so
// a right shift rounds the magnitude down (towards zero).
module BigIntegerShifts {
  import opened Bits
  import opened BigDigits
  import opened BigIntegers

  lemma Pow2Sixteen()
    ensures Pow2(16) == 0x10000 && Pow2(15) == 0x8000
  {
    assert Pow2(8) == 0x100;
    Pow2Add(8, 8);
  }

  /** A power of the base is a power of two. */
  lemma {:induction false} PowBIsPow2(k: nat)
    ensures PowB(k) == Pow2(16 * k)
  {
    if k > 0 {
      PowBIsPow2(k - 1);
      assert 16 * k == 16 + 16 * (k - 1);
      Pow2Add(16, 16 * (k - 1));
      Pow2Sixteen();
    }
  }

  /** Dividing by a and then by b divides by a * b. */
  lemma DivDiv(m: nat, a: int, b: int)
    requires a > 0 && b > 0
    ensures m / a / b == m / (a * b)
  {
    var q, r1 := m / a, m % a;
    var q2, r2 := q / b, q % b;
    assert m == q2 * (a * b) + (r2 * a + r1) by {
      assert q == q2 * b + r2;
      assert m == q * a + r1;
      MulAssociative(q2, b, a);
      assert (q2 * b + r2) * a == q2 * b * a + r2 * a;
    }
    assert r2 * a + r1 < a * b by {
      MulMonotone(r2, b - 1, a);
      assert (b - 1) * a == a * b - a;
    }
    MulNonNegative(r2, a);
    DivUnique(m, a * b, q2, r2 * a + r1);
  }

  // ---------------------------------------------------------------------
  // operator<<=

  /** The carry loop of operator<<=: each digit moves up by offset bits,
      the bits pushed past 16 carry into the next digit, and a final
      non-zero carry becomes a new digit. */
  method ShiftBitsUp(digits: seq<int>, offset: nat) returns (r: seq<int>)
    requires IsDigits(digits) && 0 < offset < 16
    ensures IsDigits(r) && Mag(r) == Mag(digits) * Pow2(offset)
    ensures |digits| <= |r| <= |digits| + 1
    ensures Trimmed(digits) ==> Trimmed(r)
  {
    var p := Pow2(offset);
    assert 1 <= p <= 0x8000 by {
      Pow2Monotone(offset, 15);
      Pow2Monotone(0, offset);
      Pow2Sixteen();
    }
    r := digits;
    var carry := 0;
    var i := 0;
    while i < |digits|
      invariant 0 <= i <= |digits| && |r| == |digits| && r[i..] == digits[i..]
      invariant IsDigits(r[..i]) && 0 <= carry < p
      invariant Mag(r[..i]) + carry * PowB(i) == Mag(digits[..i]) * p
      invariant i > 0 && digits[i - 1] != 0 ==> r[i - 1] != 0 || carry != 0
    {
      r, carry := ShiftUpDigit(r, digits, i, p, carry);
      i := i + 1;
    }
    assert r[..i] == r;
    assert digits[..i] == digits;
    if carry != 0 {
      MagAppend(r, carry);
      r := r + [carry];
    }
  }

  /** One pass of operator<<='s carry loop: the shifted digit plus the
      carry, truncated to 16 bits, and the bits above as the next carry. */
  method ShiftUpDigit(r: seq<int>, digits: seq<int>, i: nat, p: int, carry: int)
      returns (r': seq<int>, carry': int)
    requires IsDigits(digits) && i < |digits| == |r| && r[i..] == digits[i..]
    requires 1 <= p <= 0x8000 && 0 <= carry < p
    requires IsDigits(r[..i]) && Mag(r[..i]) + carry * PowB(i) == Mag(digits[..i]) * p
    ensures |r'| == |r| && IsDigits(r'[..i + 1]) && r'[i + 1..] == digits[i + 1..]
    ensures 0 <= carry' < p
    ensures Mag(r'[..i + 1]) + carry' * PowB(i + 1) == Mag(digits[..i + 1]) * p
    ensures digits[i] != 0 ==> r'[i] != 0 || carry' != 0
  {
    var x := digits[i] * p + carry;
    assert 0 <= x < 0x10000 * p by {
      MulMonotone(digits[i], 0xFFFF, p);
      MulNonNegative(digits[i], p);
    }
    assert digits[i] != 0 ==> x > 0 by {
      if digits[i] != 0 {
        MulMonotone(1, digits[i], p);
      }
    }
    var v := x % 0x10000;
    carry' := x / 0x10000;
    r' := r[i := v];
    assert r'[..i + 1] == r[..i] + [v];
    assert carry' < p by {
      DivBelow(x, 0x10000, p);
    }
    PrefixAppend(r', i);
    PrefixAppend(digits, i);
    ShiftUpValue(Mag(r[..i]), carry, Mag(digits[..i]), digits[i], x, v, carry', p, PowB(i));
  }

  lemma DivBelow(x: int, d: int, k: int)
    requires d > 0 && 0 <= x < d * k
    ensures x / d < k
  {
    if x / d >= k {
      MulMonotone(k, x / d, d);
      assert false;
    }
  }

  lemma ShiftUpValue(low: int, carry: int, m: int, d: int, x: int, v: int, c: int, p: int, b: int)
    requires low + carry * b == m * p && x == d * p + carry
    requires x == c * 0x10000 + v
    ensures low + v * b + c * (0x10000 * b) == (m + d * b) * p
  {
    assert c * (0x10000 * b) == (c * 0x10000) * b;
    assert v * b + (c * 0x10000) * b == x * b;
    assert x * b == d * p * b + carry * b;
    assert d * p * b == d * b * p by {
      MulAssociative(d, p, b);
      MulAssociative(d, b, p);
    }
  }

  /** operator<<=: whole digits first, then the remaining bits; the
      sign is kept. */
  method ShiftLeft(a: BigInt, byBits: nat) returns (r: BigInt)
    requires Valid(a)
    ensures Valid(r) && Value(r) == Value(a) * Pow2(byBits)
  {
    if byBits == 0 || IsZero(a) {
      assert Pow2(byBits) == 1 || Value(a) == 0;
      return a;
    }
    var byDigits := byBits / 16;
    var byOffsetBits := byBits % 16;
    var digits := ShiftDigitsLeft(a.digits, byDigits);
    assert Mag(digits) == Mag(a.digits) * PowB(byDigits) * Pow2(0);
    if byOffsetBits > 0 {
      digits := ShiftBitsUp(digits, byOffsetBits);
    }
    r := BigInt(digits, a.sign);
    ShiftLeftValue(a, byBits, Mag(digits));
  }

  lemma ShiftLeftValue(a: BigInt, byBits: nat, m: int)
    requires m == Mag(a.digits) * PowB(byBits / 16) * Pow2(byBits % 16)
    ensures (if a.sign then m else -m) == Value(a) * Pow2(byBits)
  {
    var mag, b, o := Mag(a.digits), PowB(byBits / 16), Pow2(byBits % 16);
    assert Pow2(byBits) == b * o by {
      PowBIsPow2(byBits / 16);
      assert byBits == 16 * (byBits / 16) + byBits % 16;
      Pow2Add(16 * (byBits / 16), byBits % 16);
    }
    MulAssociative(mag, b, o);
    if !a.sign {
      assert Value(a) == -mag;
      assert -mag * (b * o) == -(mag * (b * o));
    }
  }

  // ---------------------------------------------------------------------
  // operator>>=

  /** The step of operator>>='s carry loop as arithmetic: with p * q the
      base, dividing d + base * s by p gives the digit d / p plus the
      carry (s % p) * q, over base * (s / p); the remainder is d % p. */
  lemma ShiftDownStep(d: int, s: nat, p: int, q: int)
    requires 0 <= d < 0x10000 && p >= 1 && q >= 1 && p * q == 0x10000
    ensures 0 <= d / p + (s % p) * q < 0x10000
    ensures (d + 0x10000 * s) / p == d / p + (s % p) * q + 0x10000 * (s / p)
    ensures (d + 0x10000 * s) % p == d % p
  {
    var e, f, a, b := d / p, d % p, s / p, s % p;
    ShiftDownCore(d, s, p, q, e, f, a, b);
    DivUnique(d + 0x10000 * s, p, e + b * q + 0x10000 * a, f);
  }

  /** ShiftDownStep with the quotients and remainders by p named. */
  lemma ShiftDownCore(d: int, s: int, p: int, q: int, e: int, f: int, a: int, b: int)
    requires 0 <= d < p * q && p >= 1 && q >= 1 && p * q == 0x10000
    requires d == e * p + f && 0 <= f < p && s == a * p + b && 0 <= b < p
    ensures 0 <= e + b * q < 0x10000
    ensures d + 0x10000 * s == (e + b * q + 0x10000 * a) * p + f
  {
    assert 0 <= e < q by {
      if e >= q {
        MulMonotone(q, e, p);
      }
      if e < 0 {
        MulMonotone(e, -1, p);
      }
    }
    assert 0 <= b * q <= (p - 1) * q by {
      MulMonotone(b, p - 1, q);
      MulNonNegative(b, q);
    }
    ShiftDownAlgebra(d, s, p, q, e, f, a, b);
  }

  lemma ShiftDownAlgebra(d: int, s: int, p: int, q: int, e: int, f: int, a: int, b: int)
    requires p * q == 0x10000 && d == e * p + f && s == a * p + b
    ensures d + 0x10000 * s == (e + b * q + 0x10000 * a) * p + f
  {
    calc {
      d + 0x10000 * s;
      e * p + f + (p * q) * (a * p + b);
      { MulAssociative(p, q, b); MulAssociative(p * q, a, p); }
      e * p + f + (p * q * a) * p + b * q * p;
      { MulAssociative(0x10000, a, p); }
      (e + b * q + 0x10000 * a) * p + f;
    }
  }

  /** The carry loop of operator>>=, from the top digit down: each digit
      moves down by offset bits and takes in, at its top, the bits the
      digit above lost. */
  method ShiftBitsDown(digits: seq<int>, offset: nat) returns (r: seq<int>)
    requires IsDigits(digits) && 0 < offset < 16
    ensures IsDigits(r) && |r| == |digits|
    ensures Mag(r) == Mag(digits) / Pow2(offset)
  {
    var p := Pow2(offset);
    var q := Pow2(16 - offset);
    SplitBase(offset);
    r := digits;
    var carry := 0;
    var j := |digits|;
    assert Mag(digits[j..]) == 0 by {
      assert digits[j..] == [];
    }
    assert 0 / p == 0 && 0 % p == 0;
    while j > 0
      invariant 0 <= j <= |digits| && |r| == |digits| && r[..j] == digits[..j]
      invariant IsDigits(r[j..]) && Mag(r[j..]) == Mag(digits[j..]) / p
      invariant carry == (Mag(digits[j..]) % p) * q
    {
      r, carry := ShiftDownDigit(r, digits, j - 1, p, q, carry);
      j := j - 1;
    }
    assert r[j..] == r;
    assert digits[j..] == digits;
  }

  /** 2^offset and 2^(16 - offset) split the base. */
  lemma SplitBase(offset: nat)
    requires offset <= 16
    ensures Pow2(offset) >= 1 && Pow2(16 - offset) >= 1
    ensures Pow2(offset) * Pow2(16 - offset) == 0x10000
  {
    Pow2Add(offset, 16 - offset);
    Pow2Sixteen();
    Pow2Monotone(0, offset);
    Pow2Monotone(0, 16 - offset);
  }

  /** One pass of operator>>='s carry loop, at digit i. */
  method ShiftDownDigit(r: seq<int>, digits: seq<int>, i: nat, p: int, q: int, carry: int)
      returns (r': seq<int>, carry': int)
    requires IsDigits(digits) && i < |digits| == |r| && r[..i + 1] == digits[..i + 1]
    requires p >= 1 && q >= 1 && p * q == 0x10000
    requires IsDigits(r[i + 1..]) && Mag(r[i + 1..]) == Mag(digits[i + 1..]) / p
    requires carry == (Mag(digits[i + 1..]) % p) * q
    ensures |r'| == |r| && r'[..i] == digits[..i]
    ensures IsDigits(r'[i..]) && Mag(r'[i..]) == Mag(digits[i..]) / p
    ensures carry' == (Mag(digits[i..]) % p) * q
  {
    var d := digits[i];
    MagBounds(digits[i + 1..]);
    var s := Mag(digits[i + 1..]);
    ShiftDownStep(d, s, p, q);
    var v := d / p + carry;
    carry' := (d % p) * q;
    r' := r[i := v];
    assert r'[i..] == [v] + r[i + 1..];
    assert r'[i..][1..] == r[i + 1..];
    assert digits[i..][1..] == digits[i + 1..];
    assert Mag(digits[i..]) == d + 0x10000 * s;
    assert Mag(r'[i..]) == v + 0x10000 * Mag(r[i + 1..]);
  }

  /** The magnitude part of operator>>=: whole digits first, then the
      remaining bits, then trimming. */
  method ShiftMagnitudeRight(digits: seq<int>, byBits: nat) returns (t: seq<int>)
    requires IsDigits(digits)
    ensures IsDigits(t) && Trimmed(t) && Mag(t) == Mag(digits) / Pow2(byBits)
  {
    var byDigits := byBits / 16;
    var byOffsetBits := byBits % 16;
    t := ShiftDigitsRight(digits, byDigits);
    if byOffsetBits > 0 {
      t := ShiftBitsDown(t, byOffsetBits);
    }
    assert Mag(t) == Mag(digits) / PowB(byDigits) / Pow2(byOffsetBits);
    MagBounds(digits);
    ShiftRightValue(Mag(digits), byBits);
    t := Trim(t);
  }

  /** operator>>=: the magnitude is shifted and the sign kept, so the
      result is the quotient by a power of two rounded towards zero; a
      zero result is positive. */
  method ShiftRight(a: BigInt, byBits: nat) returns (r: BigInt)
    requires Valid(a)
    ensures Valid(r)
    ensures Value(r) == if a.sign then Mag(a.digits) / Pow2(byBits)
                        else -(Mag(a.digits) / Pow2(byBits))
  {
    ghost var m := Mag(a.digits) / Pow2(byBits);
    if byBits == 0 || IsZero(a) {
      assert m == Mag(a.digits) by {
        Pow2Monotone(0, byBits);
        DivTrivial(Mag(a.digits), Pow2(byBits));
      }
      return a;
    }
    var digits := ShiftMagnitudeRight(a.digits, byBits);
    r := BigInt(digits, a.sign || |digits| == 0);
    assert Mag(digits) == m;
  }

  lemma DivTrivial(m: int, k: int)
    requires k >= 1 && (k == 1 || m == 0)
    ensures m / k == m
  {
  }

  lemma ShiftRightValue(m: nat, byBits: nat)
    ensures m / PowB(byBits / 16) / Pow2(byBits % 16) == m / Pow2(byBits)
  {
    PowBIsPow2(byBits / 16);
    assert byBits == 16 * (byBits / 16) + byBits % 16;
    Pow2Add(16 * (byBits / 16), byBits % 16);
    Pow2Monotone(0, byBits % 16);
    DivDiv(m, PowB(byBits / 16), Pow2(byBits % 16));
  }
}
