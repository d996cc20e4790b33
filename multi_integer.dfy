// MultiInteger (pastel/sys/integer/multi_integer/multi_integer.h): an
// N-bit integer, read in two's complement when signed, kept in an array of
// 16-bit words, least significant first. Every operation updates the words
// in place and finishes with signExtend(), which keeps the bits of the last
// word above N equal to the sign bit (signed) or zero (unsigned).
module MultiIntegers {
  import opened Bits
  import opened BigDigits
  import opened BigIntegerShifts
  import opened MultiIntegerWords
  import opened MultiIntegerBits
  import opened MultiIntegerShifts
  import opened MultiIntegerDivision
  import opened MultiIntegerConversion

  /** Words that are all zero form the number zero. */
  lemma ZeroWordsValue(s: seq<int>, n: nat, signed: bool)
    requires signed ==> n > 0
    requires forall i :: 0 <= i < |s| ==> s[i] == 0
    ensures IsDigits(s) && Mag(s) == 0
    ensures Reduce(Mag(s), n, signed) == 0 && Extension(0, n) == 0
  {
    assert s == Zeros(|s|);
    MagZeros(|s|);
    ReduceInRange(0, n, signed);
  }

  /** One step of the native constructor: the low word of `rest` and the
      rest shifted down by a word together keep the total. */
  lemma NativeStep(rest: int, p: int)
    ensures (rest % 0x10000) * p + (rest / 0x10000) * (0x10000 * p) == rest * p
  {
    var q, r := rest / 0x10000, rest % 0x10000;
    assert rest == q * 0x10000 + r;
    MulAssociative(q, 0x10000, p);
  }

  /** The bits of -1 are all set, so the all-ones words are -1 reduced. */
  lemma AllOnes(y: int, n: nat, signed: bool)
    requires InRange(y, n, signed)
    requires forall i :: 0 <= i < n ==> TwosBit(y, i)
    ensures y == Reduce(-1, n, signed)
  {
    forall i | 0 <= i < n
      ensures TwosBit(y, i) <==> TwosBit(Reduce(-1, n, signed), i)
    {
      DivUnique(-1, Pow2(i), -1, Pow2(i) - 1);
      CongruentBits(-1, Reduce(-1, n, signed), n, i);
    }
    ValueFromBits(y, Reduce(-1, n, signed), n, signed);
  }

  /** The bits of zero are all clear. */
  lemma AllZeros(y: int, n: nat, signed: bool)
    requires InRange(y, n, signed) && (signed ==> n > 0)
    requires forall i :: 0 <= i < n ==> !TwosBit(y, i)
    ensures y == 0
  {
    forall i | 0 <= i < n
      ensures TwosBit(y, i) <==> TwosBit(0, i)
    {
    }
    ReduceInRange(0, n, signed);
    ValueFromBits(y, 0, n, signed);
  }

  /** The sign bit of a signed value says whether it is negative. */
  lemma SignBit(v: int, n: nat)
    requires InRange(v, n, true)
    ensures TwosBit(v, n - 1) <==> v < 0
  {
    SignBits(v, n - 1, n - 1);
  }

  /** Setting all 16 bits of a word gives the all-ones or all-zeros word. */
  lemma WholeWord(x: int, v: bool)
    requires 0 <= x < 0x10000
    ensures SetRange(x, 0, 16, v) == if v then 0xFFFF else 0
  {
    Pow2Sixteen();
    assert Pow2(0) == 1;
    assert x / 0x10000 == 0;
  }

  /** Complemented words stand for -1 - x modulo 2^N. */
  lemma {:induction false} FlippedValue(s: seq<int>, t: seq<int>, n: nat, signed: bool)
    requires IsDigits(s) && |s| == WordCount(n) && (signed ==> n > 0)
    requires |t| == |s| && forall i :: 0 <= i < |s| ==> t[i] == 0xFFFF - s[i]
    ensures IsDigits(t)
    ensures Reduce(Mag(t), n, signed) == Reduce(-1 - Reduce(Mag(s), n, signed), n, signed)
  {
    ComplementMag(s, t);
    WordsCongruent(Mag(t), -1 - Mag(s), 1, n, signed);
    ReduceSubtrahend(Mag(s), -1, n, signed);
  }

  /** The words of Infinity: the low N bits, or N - 1 when signed, set. */
  lemma InfinityValue(y: int, n: nat, signed: bool)
    requires signed ==> n > 0
    requires InRange(y, n, signed)
    requires BitsAfterSet(0, y, n, 0, n - (if signed then 1 else 0), true)
    ensures y == Pow2(n - (if signed then 1 else 0)) - 1
  {
    var m := n - (if signed then 1 else 0);
    SetBitsValue(0, y, n, signed, 0, m, true);
    assert SetRange(0, 0, m, true) == Pow2(m) - 1 by {
      assert Pow2(0) == 1;
    }
    if signed {
      assert Pow2(n) == 2 * Pow2(n - 1);
    }
    ReduceInRange(Pow2(m) - 1, n, signed);
  }

  /** The carry rule of operator+=: with at most one carried in, the sum
      overflowed the word exactly when something was added and the word did
      not grow. */
  lemma CarryOut(a: int, b: int, c: int, w: int, c': int)
    requires 0 <= a < 0x10000 && 0 <= b < 0x10000 && (c == 0 || c == 1)
    requires w == (a + b + c) % 0x10000
    requires c' == if (b > 0 || c > 0) && w <= a then 1 else 0
    ensures w + c' * 0x10000 == a + b + c && 0 <= w < 0x10000
  {
  }

  /** The words of a sum, with the carry out of the top word dropped,
      denote the sum of the values modulo 2^N. */
  lemma {:induction false} SumValue(L: seq<int>, R: seq<int>, t: seq<int>, carry: int, n: nat, signed: bool)
    requires |L| == |t| == WordCount(n) && (signed ==> n > 0)
    requires Mag(t) + carry * PowB(|t|) == Mag(L) + Mag(R)
    ensures Reduce(Mag(t), n, signed)
      == Reduce(Reduce(Mag(L), n, signed) + Reduce(Mag(R), n, signed), n, signed)
  {
    var a, b := Mag(L), Mag(R);
    var ra := Reduce(a, n, signed);
    assert Reduce(Mag(t), n, signed) == Reduce(a + b, n, signed) by {
      WordsCongruent(Mag(t), a + b, -carry, n, signed);
    }
    assert Reduce(a + b, n, signed) == Reduce(ra + b, n, signed) by {
      ReduceSum(a, b, n, signed);
    }
    assert Reduce(b + ra, n, signed) == Reduce(Reduce(b, n, signed) + ra, n, signed) by {
      ReduceSum(b, ra, n, signed);
    }
  }

  /** One word of operator++: the word grows by one, or wraps to zero and
      carries into the next. */
  lemma IncrementStep(s: seq<int>, i: nat, m: int)
    requires IsDigits(s) && i < |s| && Mag(s) + PowB(i) == m
    ensures IsDigits(s[i := (s[i] + 1) % 0x10000])
    ensures (s[i] + 1) % 0x10000 != 0 ==> Mag(s[i := (s[i] + 1) % 0x10000]) == m
    ensures (s[i] + 1) % 0x10000 == 0 ==> Mag(s[i := (s[i] + 1) % 0x10000]) + PowB(i + 1) == m
  {
    MagUpdate(s, i, (s[i] + 1) % 0x10000);
  }

  /** One word of operator--: the word shrinks by one, or wraps to all-ones
      and borrows from the next. */
  lemma DecrementStep(s: seq<int>, i: nat, m: int)
    requires IsDigits(s) && i < |s| && Mag(s) == m + PowB(i)
    ensures IsDigits(s[i := (s[i] - 1) % 0x10000])
    ensures (s[i] - 1) % 0x10000 != 0xFFFF ==> Mag(s[i := (s[i] - 1) % 0x10000]) == m
    ensures (s[i] - 1) % 0x10000 == 0xFFFF ==> Mag(s[i := (s[i] - 1) % 0x10000]) == m + PowB(i + 1)
  {
    MagUpdate(s, i, (s[i] - 1) % 0x10000);
  }

  /** After operator++ or operator-- (d = 1 or -1) the words denote the old
      value plus d modulo 2^N, whether or not the carry ran off the top. */
  lemma {:induction false} StepsValue(s0: seq<int>, t: seq<int>, d: int, wrapped: bool, n: nat, signed: bool)
    requires |s0| == WordCount(n) && (signed ==> n > 0)
    requires Mag(t) + (if wrapped then d * PowB(|s0|) else 0) == Mag(s0) + d
    ensures Reduce(Mag(t), n, signed) == Reduce(Reduce(Mag(s0), n, signed) + d, n, signed)
  {
    WordsCongruent(Mag(t), Mag(s0) + d, if wrapped then -d else 0, n, signed);
    ReduceSum(Mag(s0), d, n, signed);
  }

  /** MinusInfinity is the negation of Infinity, which is in range. */
  lemma NegatedInfinity(n: nat)
    requires n > 0
    ensures Reduce(-(Pow2(n - 1) - 1), n, true) == 1 - Pow2(n - 1)
  {
    ReduceInRange(1 - Pow2(n - 1), n, true);
  }

  lemma ColumnAlgebra(m: int, w: int, t: int, carry: int, li: int, rj: int,
                      a: int, pi: int, q: int, m0: int)
    requires m + carry * (pi * q) == m0 + rj * a * q
    requires t == li * rj + w + carry
    ensures m + (t % 0x10000 - w) * (pi * q) + (t / 0x10000) * (0x10000 * (pi * q))
      == m0 + rj * (a + li * pi) * q
  {
    var p := pi * q;
    assert (t % 0x10000 - w) * p + (t / 0x10000) * (0x10000 * p) == (t - w) * p by {
      assert t % 0x10000 + 0x10000 * (t / 0x10000) == t;
      MulAssociative(t / 0x10000, 0x10000, p);
    }
    assert rj * (a + li * pi) * q == rj * a * q + li * rj * p by {
      MulAssociative(rj, li * pi, q);
      MulAssociative(li, pi, q);
    }
  }

  /** One word of a column of operator*=. */
  lemma {:induction false} ColumnStep(s: seq<int>, left: seq<int>, i: nat, j: nat, rj: int, carry: int, m0: int)
    requires IsDigits(s) && i + j < |s| && i < |left|
    requires Mag(s) + carry * PowB(i + j) == m0 + rj * Mag(left[..i]) * PowB(j)
    ensures var t := left[i] * rj + s[i + j] + carry;
      Mag(s[i + j := t % 0x10000]) + (t / 0x10000) * PowB(i + j + 1)
        == m0 + rj * Mag(left[..i + 1]) * PowB(j)
  {
    var t := left[i] * rj + s[i + j] + carry;
    MagUpdate(s, i + j, t % 0x10000);
    PrefixAppend(left, i);
    PowBAdd(i, j);
    assert PowB(i + j + 1) == 0x10000 * PowB(i + j);
    ColumnAlgebra(Mag(s), s[i + j], t, carry, left[i], rj, Mag(left[..i]), PowB(i), PowB(j), m0);
  }

  lemma EndAlgebra(m: int, carry: int, m0: int, rj: int, ml: int, lo: int, hi: int,
                    r: int, q: int, p: int)
    requires p > 0 && ml == lo + hi * r && r * q == p
    requires m + carry * p == m0 + rj * lo * q
    ensures (m - (m0 + rj * ml * q)) % p == 0
  {
    assert rj * ml * q == rj * lo * q + rj * hi * p by {
      assert rj * (lo + hi * r) == rj * lo + rj * (hi * r);
      assert (rj * lo + rj * (hi * r)) * q == rj * lo * q + rj * (hi * r) * q;
      MulAssociative(rj, hi * r, q);
      MulAssociative(hi, r, q);
      MulAssociative(rj, hi, p);
    }
    assert m - (m0 + rj * ml * q) == (-carry - rj * hi) * p;
    MultipleMod(-carry - rj * hi, p);
  }

  /** The end of a column: the part of left beyond the last word and the
      final carry only add multiples of 2^(16 Words). */
  lemma {:induction false} ColumnEnd(m: int, carry: int, m0: int, rj: int, left: seq<int>, j: nat, k: nat)
    requires j <= k && |left| == k
    requires m + carry * PowB(k) == m0 + rj * Mag(left[..k - j]) * PowB(j)
    ensures (m - (m0 + rj * Mag(left) * PowB(j))) % PowB(k) == 0
  {
    var ml, lo, hi := Mag(left), Mag(left[..k - j]), Mag(left[k - j..]);
    var r, q, p := PowB(k - j), PowB(j), PowB(k);
    assert ml == lo + hi * r by {
      MagSplit(left, k - j);
    }
    assert r * q == p by {
      PowBAdd(k - j, j);
    }
    EndAlgebra(m, carry, m0, rj, ml, lo, hi, r, q, p);
  }

  /** A column adds rj * left * 0x10000^j to the running product. */
  lemma ColumnValue(m1: int, m: int, ml: int, mr: int, mr': int, rj: int, q: int, p: int)
    requires p > 0 && mr' == mr + rj * q
    requires (m1 - (m + rj * ml * q)) % p == 0 && (m - ml * mr) % p == 0
    ensures (m1 - ml * mr') % p == 0
  {
    assert ml * mr' == ml * mr + rj * ml * q;
    MultipleSum(m1 - (m + rj * ml * q), m - ml * mr, p);
  }

  /** Words congruent to the product of two word vectors modulo
      2^(16 Words) denote the product of their values modulo 2^N. */
  lemma {:induction false} ProductValue(left: seq<int>, right: seq<int>, t: seq<int>, n: nat, signed: bool)
    requires |t| == WordCount(n) && (signed ==> n > 0)
    requires (Mag(t) - Mag(left) * Mag(right)) % PowB(|t|) == 0
    ensures Reduce(Mag(t), n, signed)
      == Reduce(Reduce(Mag(left), n, signed) * Reduce(Mag(right), n, signed), n, signed)
  {
    var a, b := Mag(left), Mag(right);
    var ra := Reduce(a, n, signed);
    assert Reduce(Mag(t), n, signed) == Reduce(a * b, n, signed) by {
      var c := (Mag(t) - a * b) / PowB(|t|);
      WordsCongruent(Mag(t), a * b, c, n, signed);
    }
    assert Reduce(a * b, n, signed) == Reduce(ra * b, n, signed) by {
      ReduceProduct(a, b, n, signed);
    }
    assert Reduce(b * ra, n, signed) == Reduce(Reduce(b, n, signed) * ra, n, signed) by {
      ReduceProduct(b, ra, n, signed);
    }
  }

  /** Digits that denote zero are all zero. */
  lemma {:induction false} ZeroMag(s: seq<int>)
    requires IsDigits(s) && Mag(s) == 0
    ensures forall i :: 0 <= i < |s| ==> s[i] == 0
  {
    if |s| > 0 {
      MagBounds(s[1..]);
      ZeroMag(s[1..]);
      assert forall i :: 1 <= i < |s| ==> s[i] == s[1..][i - 1];
    }
  }

  /** Digit vectors of one length with one magnitude are equal. */
  lemma {:induction false} MagEqualLength(a: seq<int>, b: seq<int>)
    requires IsDigits(a) && IsDigits(b) && |a| == |b| && Mag(a) == Mag(b)
    ensures a == b
  {
    if |a| > 0 {
      DivUnique(Mag(a), 0x10000, Mag(a[1..]), a[0]);
      DivUnique(Mag(b), 0x10000, Mag(b[1..]), b[0]);
      MagEqualLength(a[1..], b[1..]);
      assert a == [a[0]] + a[1..];
      assert b == [b[0]] + b[1..];
    }
  }

  /** Values of one sign are ordered as their extensions to whole words:
      the unsigned comparison of the words is the signed comparison when
      the signs agree. */
  lemma ExtensionOrder(v: int, w: int, n: nat, signed: bool)
    requires InRange(v, n, signed) && InRange(w, n, signed) && (v < 0 <==> w < 0)
    ensures Extension(v, n) < Extension(w, n) <==> v < w
  {
    var p := PowB(WordCount(n));
    assert Pow2(n) <= p by {
      PowBIsPow2(WordCount(n));
      Pow2Monotone(n, 16 * WordCount(n));
    }
    if v < 0 {
      Pow2Monotone(n - 1, n);
      DivUnique(v, p, -1, v + p);
      DivUnique(w, p, -1, w + p);
    } else {
      DivUnique(v, p, 0, v);
      DivUnique(w, p, 0, w);
    }
  }

  /** x *= x with x = 3 should give 9 whenever 9 fits; SquareAsWritten
      gives 0. */
  lemma SquareOfThree(n: nat, signed: bool)
    requires n >= 5
    ensures Reduce(3 * 3, n, signed) == 9
  {
    Pow2Monotone(4, n - 1);
    Pow2Monotone(n - 1, n);
    assert Pow2(4) == 16;
    ReduceInRange(9, n, signed);
  }

  /** setBits(7, 8) on the 8-bit signed zero, as written: the single word
      becomes 0x80, whose value is -128, but -128 extended to the whole
      word is 0xFF80, so the words break the class invariant. */
  lemma SetBitsBreaksPadding(s: seq<int>)
    requires s == [SetRange(0, 7, 8, true)]
    ensures Reduce(Mag(s), 8, true) == -128
    ensures Mag(s) != Extension(Reduce(Mag(s), 8, true), 8)
  {
    assert Pow2(7) == 128 && Pow2(8) == 256;
    assert Mag(s) == 128 by {
      assert s[1..] == [];
    }
    assert InRange(-128, 8, true);
    ReduceCongruent(128, -128, 8, true);
    ReduceInRange(-128, 8, true);
    assert PowB(WordCount(8)) == 0x10000;
    DivUnique(-128, 0x10000, -1, 0xFF80);
  }

  /** A nonzero digit makes the magnitude positive. */
  lemma {:induction false} NonZeroMag(s: seq<int>, i: nat)
    requires IsDigits(s) && i < |s| && s[i] != 0
    ensures Mag(s) > 0
  {
    MagBounds(s[1..]);
    if i > 0 {
      NonZeroMag(s[1..], i - 1);
    }
  }

  /** Zero extends to the zero words. */
  lemma ZeroExtension(n: nat)
    ensures Extension(0, n) == 0
  {
  }

  /** Every n-bit value is below 2^n. */
  lemma BelowPower(v: int, n: nat, signed: bool)
    requires InRange(v, n, signed)
    ensures v < Pow2(n)
  {
    if signed {
      Pow2Monotone(n - 1, n);
    }
  }

  /** A non-negative value whose highest bit is r is below 2^B, so r < B,
      and everything below 2^(r + 1) is in range. */
  lemma {:induction false} BelowHighestBit(l: int, r: nat, x: int, n: nat, signed: bool)
    requires InRange(l, n, signed) && Pow2(r) <= l && 0 <= x < Pow2(r + 1)
    ensures InRange(x, n, signed)
  {
    var b := n - (if signed then 1 else 0);
    if r + 1 > b {
      Pow2Monotone(b, r);
    } else {
      Pow2Monotone(r + 1, b);
    }
  }

  /** The values in a subtracting step of operator/='s loop: the new
      quotient q + 2^i and the new rest left - R0 2^i keep the division
      state and are n-bit values. */
  lemma DivisorSubtracted(l0: int, r0: int, q: int, rest: int, d: int, i: nat, iLeft0: nat, n: nat, signed: bool)
    requires Dividing(l0, r0, q, rest, i) && d == r0 * Pow2(i) && d <= rest
    requires InRange(l0, n, signed) && InRange(rest, n, signed)
    requires Pow2(iLeft0) <= l0 < Pow2(iLeft0 + 1) && i <= iLeft0 < n
    ensures Dividing(l0, r0, q + Pow2(i), rest - d, i - 1)
    ensures Reduce(rest - d, n, signed) == rest - d
    ensures q >= 0 && q % Pow2(i + 1) == 0 && InRange(q + Pow2(i), n, signed)
  {
    DivisionSubtract(l0, r0, q, rest, i);
    assert 0 <= rest - d <= rest;
    ReduceInRange(rest - d, n, signed);
    BelowHighestBit(l0, iLeft0, q + Pow2(i), n, signed);
  }

  /** A nonzero divisor of -2^(N-1) other than itself: 1 is in range,
      and by +-1 the quotient -+2^(N-1) is -2^(N-1) modulo 2^N. */
  lemma SmallestDivisor(w: int, n: nat)
    requires InRange(w, n, true) && w != 0 && w != -(Pow2(n - 1) as int)
    ensures n >= 2 && Reduce(1, n, true) == 1
    ensures Abs(w) == 1 ==> Reduce(TruncDiv(-(Pow2(n - 1) as int), w), n, true) == -(Pow2(n - 1) as int)
  {
    assert n >= 2;
    var m := -(Pow2(n - 1) as int);
    assert Pow2(n - 1) == 2 * Pow2(n - 2);
    ReduceInRange(1, n, true);
    if w == 1 {
      assert TruncDiv(m, w) == m;
      ReduceInRange(m, n, true);
    } else if w == -1 {
      assert TruncDiv(m, w) == -m;
      NegatedValue(m, n);
    }
  }

  /** -2^(N-1) / w for |w| >= 2: the quotient of the magnitudes q and its
      negation are in range, and the result is -q, or q for a negative w. */
  lemma SmallestQuotient(w: int, n: nat, q: int)
    requires InRange(w, n, true) && w != 0 && w != -(Pow2(n - 1) as int) && Abs(w) != 1
    requires q == Pow2(n - 1) / Abs(w)
    ensures Reduce(-q, n, true) == -q && Reduce(q, n, true) == q
    ensures Reduce(TruncDiv(-(Pow2(n - 1) as int), w), n, true) == if w < 0 then q else -q
  {
    SmallestDivisor(w, n);
    var p := Pow2(n - 1);
    assert p == 2 * Pow2(n - 2);
    HalfQuotient(p, Abs(w));
    ReduceInRange(q, n, true);
    ReduceInRange(-q, n, true);
    assert Abs(-(p as int)) == p;
    if w < 0 {
      assert TruncDiv(-(p as int), w) == q;
    } else {
      assert TruncDiv(-(p as int), w) == -q;
    }
  }

  /** x + (-x) == 0: the negation computed by negate() cancels the value
      modulo 2^N, the smallest signed value (its own negation) included. */
  lemma NegationCancels(v: int, n: nat, signed: bool)
    requires signed ==> n > 0
    ensures Reduce(v + Reduce(-v, n, signed), n, signed) == 0
  {
    ReduceSum(-v, v, n, signed);
    ReduceInRange(0, n, signed);
  }

  /** -F(i) == F(-i): negating the integer made from a native i gives the
      integer made from -i. */
  lemma NegationOfNative(i: int, n: nat, signed: bool)
    requires signed ==> n > 0
    ensures Reduce(-Reduce(i, n, signed), n, signed) == Reduce(-i, n, signed)
  {
    ReduceSubtrahend(i, 0, n, signed);
  }

  /** ~~x == x: complementing twice gives the value back. */
  lemma ComplementTwice(v: int, n: nat, signed: bool)
    requires InRange(v, n, signed)
    ensures Reduce(-1 - Reduce(-1 - v, n, signed), n, signed) == v
  {
    ReduceSubtrahend(-1 - v, -1, n, signed);
    ReduceInRange(v, n, signed);
  }

  /** ++ on Infinity wraps: to zero when unsigned, to the smallest value,
      -2^(N-1), when signed. */
  lemma InfinityWraps(n: nat, signed: bool)
    requires signed ==> n > 0
    ensures Reduce(Pow2(n - (if signed then 1 else 0)) - 1 + 1, n, signed)
      == if signed then -(Pow2(n - 1) as int) else 0
  {
    if signed {
      assert Pow2(n) == 2 * Pow2(n - 1);
      MultipleMod(1, Pow2(n));
      ReduceCongruent(Pow2(n - 1), -(Pow2(n - 1) as int), n, true);
      ReduceInRange(-(Pow2(n - 1) as int), n, true);
    } else {
      MultipleMod(1, Pow2(n));
      ReduceCongruent(Pow2(n), 0, n, false);
      ReduceInRange(0, n, false);
    }
  }

  /** numberOfOneBits() of the 20-bit signed -1 counts the 12 padding bits
      of its last word besides its 20 bits: 32, where oneBits() gives 20. */
  lemma PaddingCounted()
    ensures Ones(-1, 0, 20) == 20
    ensures WordCount(20) == 2 && Ones(-1, 0, 20) + (16 * WordCount(20) - 20) == 32
  {
    AllOnesCount(20);
  }

  /** The number a list of words spells, most significant first, as the
      initializer-list constructor reads it. */
  function WordsValue(ws: seq<int>): int
  {
    if |ws| == 0 then 0 else WordsValue(ws[..|ws| - 1]) * 0x10000 + ws[|ws| - 1]
  }

  /** The last k words of a list, least significant first. */
  function LowWords(ws: seq<int>, k: nat): (r: seq<int>)
    requires k <= |ws|
    ensures |r| == k && forall i :: 0 <= i < k ==> r[i] == ws[|ws| - 1 - i]
  {
    seq(k, i requires 0 <= i < k => ws[|ws| - 1 - i])
  }

  /** The last k words hold the list's number modulo 2^(16k); the words
      before them are the rest. */
  lemma {:induction false} LowWordsValue(ws: seq<int>, k: nat)
    requires k <= |ws|
    ensures WordsValue(ws) == Mag(LowWords(ws, k)) + WordsValue(ws[..|ws| - k]) * PowB(k)
  {
    if k > 0 {
      LowWordsValue(ws, k - 1);
      var w := ws[|ws| - k];
      var rest := ws[..|ws| - k];
      assert ws[..|ws| - (k - 1)][..|ws| - k] == rest;
      assert WordsValue(ws[..|ws| - (k - 1)]) == WordsValue(rest) * 0x10000 + w;
      assert LowWords(ws, k) == LowWords(ws, k - 1) + [w];
      MagAppend(LowWords(ws, k - 1), w);
      assert PowB(k) == 0x10000 * PowB(k - 1);
      MulAssociative(WordsValue(rest), 0x10000, PowB(k - 1));
    } else {
      assert ws[..|ws|] == ws;
    }
  }

  /** The bit-range constructor as written, on the 20-bit signed -1 with
      the range [0, 20): the last word keeps only its four low bits, so the
      words read as -1 but do not hold -1 extended to whole words. */
  lemma BitRangeBreaksPadding(s: seq<int>)
    requires s == [0xFFFF, SetRange(0xFFFF, 4, 16, false)]
    ensures Reduce(Mag(s), 20, true) == -1
    ensures Mag(s) != Extension(-1, 20)
  {
    assert Pow2(4) == 16 && Pow2(16) == 0x10000 && Pow2(20) == 0x100000;
    assert SetRange(0xFFFF, 4, 16, false) == 15 by {
      DivUnique(0xFFFF, 0x10000, 0, 0xFFFF);
      DivUnique(0xFFFF, 16, 0xFFF, 15);
      assert 0xFFFF / Pow2(16) == 0 && 0xFFFF % Pow2(4) == 15;
    }
    assert Mag(s) == 0xFFFFF by {
      assert s[1..] == [15] && s[1..][1..] == [];
      assert Mag(s[1..]) == 15;
    }
    MultipleMod(1, Pow2(20));
    ReduceCongruent(0xFFFFF, -1, 20, true);
    ReduceInRange(-1, 20, true);
    assert PowB(WordCount(20)) == 0x100000000;
    DivUnique(-1, 0x100000000, -1, 0xFFFFFFFF);
  }

  /** Division of a non-negative value by a positive native divisor: the
      quotient and remainder of C++ are the floor ones, and the quotient
      is a value of the type. */
  lemma DigitDivision(a: int, b: int, n: nat, signed: bool)
    requires InRange(a, n, signed) && a >= 0 && b > 0
    ensures TruncDiv(a, b) == a / b && TruncRem(a, b) == a % b
    ensures 0 <= a / b <= a && Reduce(a / b, n, signed) == a / b
  {
    assert TruncDiv(a, b) == a / b;
    if a / b < 0 {
      MulMonotone(a / b, -1, b);
    }
    DivAtMost(a, b);
    ReduceInRange(a / b, n, signed);
  }

  class MultiInteger {
    /** N, the number of bits. */
    const n: nat
    /** Whether the bits are read in two's complement. */
    const signed: bool
    /** wordSet_: the 16-bit words, least significant first. */
    const words: array<int>

    /** The shape of the storage: WordCount(N) words of 16 bits. A signed
        integer has at least the sign bit. */
    ghost predicate WellFormed()
      reads words
    {
      (signed ==> n > 0) && words.Length == WordCount(n) && IsDigits(words[..])
    }

    /** The integer the low N bits of the words denote. */
    ghost function Value(): int
      reads words
      requires WellFormed()
    {
      Reduce(Mag(words[..]), n, signed)
    }

    /** The class invariant: the bits above N in the last word are copies
        of the sign bit (signed) or zeros (unsigned), so that the words as
        a whole hold the value extended to whole words. */
    ghost predicate Valid()
      reads words
    {
      WellFormed() && Mag(words[..]) == Extension(Value(), n)
    }

    /** Whether that has the same N and signedness. */
    predicate SameType(that: MultiInteger)
    {
      that.n == n && that.signed == signed
    }

    /** signExtend(): the bits of the last word above N become copies of
        bit N - 1 (signed) or zeros (unsigned); the value stays. */
    method SignExtend()
      requires WellFormed()
      modifies words
      ensures Valid() && Value() == old(Value())
      ensures words[..] == SignExtended(old(words[..]), n, signed)
    {
      ghost var s := words[..];
      if n % 16 > 0 {
        var last := words.Length - 1;
        words[last] := ExtendedTopWord(words[last], n, signed);
      }
      assert words[..] == SignExtended(s, n, signed);
      SignExtendedValue(s, n, signed);
    }

    /** MultiInteger(): zero. */
    constructor Zero(n: nat, signed: bool)
      requires signed ==> n > 0
      ensures this.n == n && this.signed == signed && fresh(words)
      ensures Valid() && Value() == 0
    {
      this.n := n;
      this.signed := signed;
      words := new int[WordCount(n)](_ => 0);
      new;
      ZeroWordsValue(words[..], n, signed);
    }

    /** MultiInteger(that) for a native integer: the words take that's two's
        complement digits, the arithmetic shift providing the sign words,
        and the value is that modulo 2^N. */
    constructor FromNative(n: nat, signed: bool, that: int)
      requires signed ==> n > 0
      ensures this.n == n && this.signed == signed && fresh(words)
      ensures Valid() && Value() == Reduce(that, n, signed)
    {
      this.n := n;
      this.signed := signed;
      words := new int[WordCount(n)](_ => 0);
      new;
      ghost var rest := StoreNative(that);
      WordsCongruent(Mag(words[..]), that, -rest, n, signed);
      SignExtend();
    }

    /** MultiInteger(that) for an unsigned native type of `width` bits, as
        written: the word loop is the same, but arithmeticShiftRight fills
        the shifted value with copies of its top bit, so the words spell
        SignFilled(that, width). Native widths are whole words here. */
    constructor FromUnsignedAsWritten(n: nat, signed: bool, width: nat, that: nat)
      requires signed ==> n > 0
      requires width >= 16 && width % 16 == 0 && that < Pow2(width)
      ensures this.n == n && this.signed == signed && fresh(words)
      ensures Valid() && Value() == Reduce(SignFilled(that, width), n, signed)
    {
      this.n := n;
      this.signed := signed;
      words := new int[WordCount(n)](_ => 0);
      new;
      var filled := SignFilled(that, width);
      ghost var rest := StoreNative(filled);
      WordsCongruent(Mag(words[..]), filled, -rest, n, signed);
      SignExtend();
    }

    /** The word loop of the native constructors: word i takes bits
        [16 i, 16 i + 16) of that; rest is what the words leave over. */
    method StoreNative(that: int) returns (ghost rest: int)
      modifies words
      ensures IsDigits(words[..]) && Mag(words[..]) + rest * PowB(words.Length) == that
    {
      var r := that;
      var i := 0;
      while i < words.Length
        invariant 0 <= i <= words.Length
        invariant IsDigits(words[..i])
        invariant Mag(words[..i]) + r * PowB(i) == that
      {
        ghost var before := words[..i];
        NativeStep(r, PowB(i));
        words[i] := r % 0x10000;
        r := r / 0x10000;
        assert words[..i + 1] == before + [words[i]];
        MagAppend(before, words[i]);
        i := i + 1;
      }
      assert words[..] == words[..i];
      rest := r;
    }

    /** The copy constructor. */
    constructor Copy(that: MultiInteger)
      requires that.Valid()
      ensures n == that.n && signed == that.signed && fresh(words)
      ensures words[..] == that.words[..]
      ensures Valid() && Value() == that.Value()
    {
      n := that.n;
      signed := that.signed;
      words := new int[that.words.Length];
      new;
      forall i | 0 <= i < words.Length {
        words[i] := that.words[i];
      }
      CopyValid(that);
    }

    /** Words equal to a valid integer's words of the same type are valid
        and denote its value. */
    lemma CopyValid(that: MultiInteger)
      requires that.Valid() && SameType(that) && words[..] == that.words[..]
      ensures Valid() && Value() == that.Value()
    {
      assert Mag(words[..]) == Mag(that.words[..]);
    }

    /** MultiInteger({w_k, ..., w_0}): the last words of the list, least
        significant first, as many as fit; the value is the number the
        list spells modulo 2^N. */
    constructor FromWords(n: nat, signed: bool, ws: seq<int>)
      requires signed ==> n > 0
      requires IsDigits(ws)
      ensures this.n == n && this.signed == signed && fresh(words)
      ensures Valid() && Value() == Reduce(WordsValue(ws), n, signed)
    {
      this.n := n;
      this.signed := signed;
      words := new int[WordCount(n)](_ => 0);
      new;
      var count := if |ws| < words.Length then |ws| else words.Length;
      var i := 0;
      while i < count
        invariant 0 <= i <= count
        invariant forall j :: 0 <= j < words.Length ==> words[j] == if j < i then ws[|ws| - 1 - j] else 0
      {
        words[i] := ws[|ws| - 1 - i];
        i := i + 1;
      }
      assert words[..] == LowWords(ws, count) + Zeros(words.Length - count);
      MagTrailingZeros(LowWords(ws, count), words.Length - count);
      LowWordsValue(ws, count);
      if count < words.Length {
        assert ws[..|ws| - count] == [];
      }
      WordsCongruent(WordsValue(ws), Mag(words[..]), WordsValue(ws[..|ws| - count]), n, signed);
      SignExtend();
    }

    /** MultiInteger(that, beginBit, endBit) as written: the words holding
        the range are copied, and the bits of the first word below beginBit
        and of the last word from endBit up are cleared. There is no
        signExtend(), so a range that ends at N with bit N - 1 set leaves
        the padding clear (BitRangeBreaksPadding). */
    constructor BitRangeAsWritten(that: MultiInteger, b: nat, e: nat)
      requires that.Valid() && b <= e <= that.n
      ensures n == that.n && signed == that.signed && fresh(words)
      ensures WellFormed() && BitsKept(that.words[..], words[..], b, e)
      ensures KeptBits(that.Value(), Value(), n, b, e)
    {
      n := that.n;
      signed := that.signed;
      words := new int[that.words.Length](_ => 0);
      new;
      CopyBitRange(that, b, e);
      KeptMeaning(that.words[..], words[..], n, signed, b, e);
    }

    /** The bit-range constructor with signExtend() at its end: the bits of
        that in [beginBit, endBit) and no other bit, as a valid integer. */
    constructor BitRange(that: MultiInteger, b: nat, e: nat)
      requires that.Valid() && b <= e <= that.n
      ensures n == that.n && signed == that.signed && fresh(words)
      ensures Valid() && KeptBits(that.Value(), Value(), n, b, e)
    {
      n := that.n;
      signed := that.signed;
      words := new int[that.words.Length](_ => 0);
      new;
      CopyBitRange(that, b, e);
      KeptMeaning(that.words[..], words[..], n, signed, b, e);
      SignExtend();
    }

    /** The body of the bit-range constructor on zeroed words. */
    method CopyBitRange(that: MultiInteger, b: nat, e: nat)
      requires WellFormed() && that.Valid() && SameType(that) && b <= e <= n
      requires words != that.words
      requires forall j :: 0 <= j < words.Length ==> words[j] == 0
      modifies words
      ensures WellFormed() && BitsKept(that.words[..], words[..], b, e)
    {
      if b == e {
        ZeroWordsKept(that.words[..], words[..], b);
        return;
      }
      var first, last := b / 16, (e - 1) / 16;
      assert 16 * first <= b < 16 * first + 16 && 16 * last < e <= 16 * last + 16;
      assert last < words.Length;
      ghost var s := that.words[..];
      CopyWordRange(that, first, last + 1);
      ghost var s1 := words[..];
      SetWordBits(first, 0, b - 16 * first, false);
      KeptClearedBelow(s, s1, words[..], 16 * first, b, 16 * (last + 1));
      ghost var s2 := words[..];
      SetWordBits(last, e - 16 * last, 16, false);
      KeptClearedAbove(s, s2, words[..], b, 16 * (last + 1), e);
    }

    /** std::copy of that's words [from, to) into zeroed words. */
    method CopyWordRange(that: MultiInteger, from: nat, to: nat)
      requires WellFormed() && that.Valid() && SameType(that) && from <= to <= words.Length
      requires words != that.words
      requires forall j :: 0 <= j < words.Length ==> words[j] == 0
      modifies words
      ensures WellFormed() && BitsKept(that.words[..], words[..], 16 * from, 16 * to)
    {
      var k := from;
      while k < to
        invariant from <= k <= to
        invariant forall j :: 0 <= j < words.Length ==>
          words[j] == if from <= j < k then that.words[j] else 0
      {
        words[k] := that.words[k];
        k := k + 1;
      }
      CopiedWordsKept(that.words[..], words[..], from, to);
    }

    /** bit(i): bit i of the two's complement form; beyond N it is the last
        bit (signed) or false (unsigned). */
    method Bit(i: nat) returns (r: bool)
      requires Valid()
      ensures r <==> TwosBit(Value(), i)
      decreases if i >= n then 2 else 0
    {
      if i >= n {
        ghost var v := Value();
        if signed {
          r := LastBit();
          assert -(Pow2(n - 1) as int) <= v < Pow2(n - 1);
          SignBits(v, n - 1, i);
        } else {
          r := false;
          assert 0 <= v < Pow2(n);
          SignBits(v, n, i);
        }
      } else {
        r := (words[i / 16] / Pow2(i % 16)) % 2 == 1;
        SourceBitMeaning(words[..], n, signed, i);
      }
    }

    /** lastBit(): bit N - 1, which for a signed integer says whether it is
        negative. */
    method LastBit() returns (r: bool)
      requires Valid() && n > 0
      ensures r <==> TwosBit(Value(), n - 1)
      ensures signed ==> (r <==> Value() < 0)
      decreases 1
    {
      r := Bit(n - 1);
      if signed {
        SignBit(Value(), n);
      }
    }

    /** Pastel::setBits() on the word k: the bits [lo, hi) of the word
        become v. */
    method SetWordBits(k: nat, lo: nat, hi: nat, v: bool)
      requires WellFormed() && k < words.Length && lo <= hi <= 16
      modifies words
      ensures WellFormed() && words[..] == old(words[..])[k := SetRange(old(words[k]), lo, hi, v)]
      ensures BitsSetBetween(old(words[..]), words[..], 16 * k + lo, 16 * k + hi, v)
    {
      ghost var s := words[..];
      SetRangeWord(words[k], lo, hi, v);
      SetWordRangeBits(s, k, lo, hi, v);
      words[k] := SetRange(words[k], lo, hi, v);
      assert words[..] == s[k := SetRange(s[k], lo, hi, v)];
    }

    /** std::fill of the words [from, to) with all-ones or all-zeros. */
    method FillWords(from: nat, to: nat, v: bool)
      requires WellFormed() && from <= to <= words.Length
      modifies words
      ensures WellFormed()
      ensures forall j :: 0 <= j < words.Length ==>
        words[j] == if from <= j < to then (if v then 0xFFFF else 0) else old(words[j])
      ensures BitsSetBetween(old(words[..]), words[..], 16 * from, 16 * to, v)
    {
      var word := if v then 0xFFFF else 0;
      var k := from;
      while k < to
        invariant from <= k <= to
        invariant WellFormed()
        invariant forall j :: 0 <= j < words.Length ==>
          words[j] == if from <= j < k then word else old(words[j])
        invariant BitsSetBetween(old(words[..]), words[..], 16 * from, 16 * k, v)
      {
        ghost var s := words[..];
        SetWordRangeBits(s, k, 0, 16, v);
        WholeWord(s[k], v);
        words[k] := word;
        assert words[..] == s[k := word];
        SetBetweenUnion(old(words[..]), s, words[..], 16 * from, 16 * k, 16 * k, 16 * k + 16, v);
        k := k + 1;
      }
    }
 
    /** The close of every bit operation: signExtend(), after which the
        value's bits are those the words were given. */
    method FinishSetBits(ghost s0: seq<int>, ghost b: int, ghost e: int, ghost v: bool)
      requires WellFormed() && IsDigits(s0) && |s0| == words.Length
      requires BitsSetBetween(s0, words[..], b, e, v)
      modifies words
      ensures Valid() && BitsAfterSet(Reduce(Mag(s0), n, signed), Value(), n, b, e, v)
    {
      SetBitsMeaning(s0, words[..], n, signed, b, e, v);
      SignExtend();
    }

    /** setBits(begin, end, value): the bits [begin, end) become value and
        every other bit stays. A range inside one word is set in that word;
        otherwise the partial first word, the whole words between and the
        partial last word are set in turn. */
    method SetBits(b: nat, e: nat, v: bool)
      requires Valid() && b <= e <= n
      modifies words
      ensures Valid() && BitsAfterSet(old(Value()), Value(), n, b, e, v)
    {
      if b == e {
        return;
      }
      ghost var s0 := words[..];
      var single := SetFirstWordBits(b, e, v);
      if !single {
        SetRestBits(s0, b, e, v);
      }
      // On the single-word path setBits() in multi_integer.h returns here without
      // signExtend(); see SetBitsAsWritten.
      FinishSetBits(s0, b, e, v);
    }

    /** setBits(begin, end, value) as multi_integer.h runs it: a range inside
        one word returns before signExtend(). The low N bits are right, but
        setting the top bit of a signed integer leaves the padding bits
        unextended, so the words no longer hold the value extended to whole
        words (SetBitsBreaksPadding). */
    method SetBitsAsWritten(b: nat, e: nat, v: bool)
      requires Valid() && b <= e <= n
      modifies words
      ensures WellFormed() && BitsAfterSet(old(Value()), Value(), n, b, e, v)
      ensures b < e && e - 16 * (b / 16) <= 16 ==>
        words[..] == old(words[..])[b / 16 := SetRange(old(words[b / 16]), b % 16, e - 16 * (b / 16), v)]
      ensures e - 16 * (b / 16) > 16 ==> Valid()
    {
      if b == e {
        return;
      }
      ghost var s0 := words[..];
      var single := SetFirstWordBits(b, e, v);
      if single {
        SetBitsMeaning(s0, words[..], n, signed, b, e, v);
        return;
      }
      SetRestBits(s0, b, e, v);
      FinishSetBits(s0, b, e, v);
    }

    /** The multi-word part of setBits(begin, end, value): the whole words
        of the range, then the partial last word. */
    method SetRestBits(ghost s0: seq<int>, b: nat, e: nat, v: bool)
      requires WellFormed() && b < e <= 16 * words.Length && e - 16 * (b / 16) > 16
      requires IsDigits(s0) && |s0| == words.Length
      requires BitsSetBetween(s0, words[..], b, 16 * ((b + 15) / 16), v)
      modifies words
      ensures WellFormed() && BitsSetBetween(s0, words[..], b, e, v)
    {
      ghost var s1 := words[..];
      var beginFullWord := (b + 15) / 16;
      var endFullWord := e / 16;
      FillWords(beginFullWord, endFullWord, v);
      ghost var s2 := words[..];
      SetBetweenUnion(s0, s1, s2, b, 16 * beginFullWord, 16 * beginFullWord, 16 * endFullWord, v);
      assert b <= 16 * ((e - 1) / 16) <= 16 * endFullWord <= e;
      SetLastWordBits(e, v);
      ghost var s3 := words[..];
      SetBetweenUnion(s0, s2, s3, b, 16 * endFullWord, 16 * ((e - 1) / 16), e, v);
    }

    /** The first step of setBits(begin, end, value): the bits from begin
        to the end of its word or to end, whichever comes first. */
    method SetFirstWordBits(b: nat, e: nat, v: bool) returns (single: bool)
      requires WellFormed() && b < e <= 16 * words.Length
      modifies words
      ensures WellFormed()
      ensures single <==> e - 16 * (b / 16) <= 16
      ensures single ==> BitsSetBetween(old(words[..]), words[..], b, e, v)
      ensures single ==> words[..] == old(words[..])[b / 16 := SetRange(old(words[b / 16]), b % 16, e - 16 * (b / 16), v)]
      ensures !single ==> BitsSetBetween(old(words[..]), words[..], b, 16 * ((b + 15) / 16), v)
    {
      var firstWord := b / 16;
      WordSplit(b);
      var localBegin := b - firstWord * 16;
      var localEnd := e - firstWord * 16;
      var cappedEnd := if localEnd < 16 then localEnd else 16;
      single := localEnd <= 16;
      if single || localBegin > 0 {
        SetWordBits(firstWord, localBegin, cappedEnd, v);
      }
    }

    /** The last step of setBits(begin, end, value): the bits of the word
        holding bit end - 1, up to end. */
    method SetLastWordBits(e: nat, v: bool)
      requires WellFormed() && 0 < e <= 16 * words.Length
      modifies words
      ensures WellFormed()
      ensures BitsSetBetween(old(words[..]), words[..], 16 * ((e - 1) / 16), e, v)
    {
      var last := e - 1;
      var lastWord := last / 16;
      var localLast := last - lastWord * 16;
      // localLast < 16 by construction, so the test of it in multi_integer.h always
      // passes.
      SetWordBits(lastWord, 0, localLast + 1, v);
    }

    /** clearBits(begin, end): setBits(begin, end, false). */
    method ClearBits(b: nat, e: nat)
      requires Valid() && b <= e <= n
      modifies words
      ensures Valid() && BitsAfterSet(old(Value()), Value(), n, b, e, false)
    {
      SetBits(b, e, false);
    }

    /** setBit(i): bit i becomes 1. */
    method SetBit(i: nat)
      requires Valid() && i < n
      modifies words
      ensures Valid() && BitsAfterSet(old(Value()), Value(), n, i, i + 1, true)
    {
      ghost var s0 := words[..];
      var word := i / 16;
      var bit := i - word * 16;
      SetWordBits(word, bit, bit + 1, true);
      FinishSetBits(s0, i, i + 1, true);
    }

    /** clearBit(i): bit i becomes 0. */
    method ClearBit(i: nat)
      requires Valid() && i < n
      modifies words
      ensures Valid() && BitsAfterSet(old(Value()), Value(), n, i, i + 1, false)
    {
      ghost var s0 := words[..];
      var word := i / 16;
      var bit := i - word * 16;
      SetWordBits(word, bit, bit + 1, false);
      FinishSetBits(s0, i, i + 1, false);
    }

    /** setBit(i, value). */
    method SetBitTo(i: nat, v: bool)
      requires Valid() && i < n
      modifies words
      ensures Valid() && BitsAfterSet(old(Value()), Value(), n, i, i + 1, v)
    {
      if v {
        SetBit(i);
      } else {
        ClearBit(i);
      }
    }

    /** flipBit(i): bit i takes the opposite value. */
    method FlipBit(i: nat)
      requires Valid() && i < n
      modifies words
      ensures Valid() && BitsAfterSet(old(Value()), Value(), n, i, i + 1, !TwosBit(old(Value()), i))
    {
      ghost var s0 := words[..];
      var word := i / 16;
      var bit := i - word * 16;
      var isSet := (words[word] / Pow2(bit)) % 2 == 1;
      LowBits(s0, n, signed, i);
      SetWordBits(word, bit, bit + 1, !isSet);
      FinishSetBits(s0, i, i + 1, !isSet);
    }

    /** setBits(): every bit becomes 1, which is -1 modulo 2^N. */
    method SetAllBits()
      requires Valid()
      modifies words
      ensures Valid() && Value() == Reduce(-1, n, signed)
    {
      ghost var s0 := words[..];
      FillWords(0, words.Length, true);
      FinishSetBits(s0, 0, 16 * words.Length, true);
      AllOnes(Value(), n, signed);
    }

    /** clearBits(): every bit becomes 0. */
    method ClearAllBits()
      requires Valid()
      modifies words
      ensures Valid() && Value() == 0
    {
      ghost var s0 := words[..];
      FillWords(0, words.Length, false);
      FinishSetBits(s0, 0, 16 * words.Length, false);
      AllZeros(Value(), n, signed);
    }

    /** flipBits(): every word is complemented, which takes x to -1 - x
        modulo 2^N. */
    method FlipBits()
      requires Valid()
      modifies words
      ensures Valid() && Value() == Reduce(-1 - old(Value()), n, signed)
    {
      ghost var s0 := words[..];
      var i := 0;
      while i < words.Length
        invariant 0 <= i <= words.Length
        invariant forall j :: 0 <= j < i ==> words[j] == 0xFFFF - s0[j]
        invariant forall j :: i <= j < words.Length ==> words[j] == s0[j]
      {
        words[i] := 0xFFFF - words[i];
        i := i + 1;
      }
      FlippedValue(s0, words[..], n, signed);
      SignExtend();
    }
 
    /** MultiInteger(Infinity): the largest value, 2^N - 1 unsigned and
        2^(N-1) - 1 signed. */
    constructor Infinity(n: nat, signed: bool)
      requires signed ==> n > 0
      ensures this.n == n && this.signed == signed && fresh(words)
      ensures Valid() && Value() == Pow2(n - (if signed then 1 else 0)) - 1
    {
      this.n := n;
      this.signed := signed;
      words := new int[WordCount(n)](_ => 0);
      new;
      ZeroWordsValue(words[..], n, signed);
      SetBits(0, n - (if signed then 1 else 0), true);
      InfinityValue(Value(), n, signed);
    }

    /** MultiInteger(MinusInfinity), signed only: the negation of Infinity,
        one above the smallest value. */
    constructor MinusInfinity(n: nat)
      requires n > 0
      ensures this.n == n && signed && fresh(words)
      ensures Valid() && Value() == 1 - Pow2(n - 1)
    {
      this.n := n;
      signed := true;
      words := new int[WordCount(n)](_ => 0);
      new;
      ZeroWordsValue(words[..], n, true);
      SetBits(0, n - 1, true);
      InfinityValue(Value(), n, true);
      Negate();
      NegatedInfinity(n);
    }

    /** operator+=: word by word with a carry; a carry comes out of a word
        when something was added and the word did not grow. */
    method Add(that: MultiInteger)
      requires Valid() && that.Valid() && SameType(that)
      modifies words
      ensures Valid() && Value() == Reduce(old(Value()) + old(that.Value()), n, signed)
    {
      ghost var L := words[..];
      ghost var R := that.words[..];
      var carry := AddWords(that, L, R);
      SumValue(L, R, words[..], carry, n, signed);
      SignExtend();
    }

    /** The loop of operator+=: the word sums and the carry out of the last
        word. */
    method AddWords(that: MultiInteger, ghost L: seq<int>, ghost R: seq<int>) returns (carry: int)
      requires Valid() && that.Valid() && SameType(that)
      requires L == words[..] && R == that.words[..]
      modifies words
      ensures WellFormed() && IsDigits(words[..]) && (carry == 0 || carry == 1)
      ensures Mag(words[..]) + carry * PowB(|L|) == Mag(L) + Mag(R)
    {
      carry := 0;
      var i := 0;
      while i < words.Length
        invariant 0 <= i <= words.Length
        invariant carry == 0 || carry == 1
        invariant IsDigits(words[..i])
        invariant forall j :: i <= j < words.Length ==> words[j] == L[j] && that.words[j] == R[j]
        invariant Mag(words[..i]) + carry * PowB(i) == Mag(L[..i]) + Mag(R[..i])
      {
        ghost var done := words[..i];
        var before := words[i];
        var nonZero := that.words[i] > 0;
        words[i] := (words[i] + that.words[i] + carry) % 0x10000;
        var carry' := if (nonZero || carry > 0) && words[i] <= before then 1 else 0;
        CarryOut(before, R[i], carry, words[i], carry');
        AddStep(done, L, Mag(R[..i]), i, carry, R[i], words[i], carry');
        PrefixAppend(R, i);
        assert words[..i + 1] == done + [words[i]];
        carry := carry';
        i := i + 1;
      }
      assert words[..] == words[..i];
      assert L == L[..i] && R == R[..i];
    }

    /** operator-=: adds the negation of that. */
    method Subtract(that: MultiInteger)
      requires Valid() && that.Valid() && SameType(that)
      modifies words
      ensures Valid() && Value() == Reduce(old(Value()) - old(that.Value()), n, signed)
    {
      var negated := new MultiInteger.Copy(that);
      negated.Negate();
      Add(negated);
      ReduceSum(-old(that.Value()), old(Value()), n, signed);
    }

    /** operator++: adds one to the words from the least significant up,
        stopping at the first word that does not wrap to zero. */
    method Increment()
      requires Valid()
      modifies words
      ensures Valid() && Value() == Reduce(old(Value()) + 1, n, signed)
    {
      ghost var s0 := words[..];
      ghost var wrapped := IncrementWords(s0);
      StepsValue(s0, words[..], 1, wrapped, n, signed);
      SignExtend();
    }

    /** The loop of operator++: words that wrap to 0 carry into the next;
        wrapped says that the carry went out of the last word. */
    method IncrementWords(ghost s0: seq<int>) returns (ghost wrapped: bool)
      requires WellFormed() && s0 == words[..]
      modifies words
      ensures WellFormed()
      ensures Mag(words[..]) + (if wrapped then PowB(|s0|) else 0) == Mag(s0) + 1
    {
      wrapped := true;
      var i := 0;
      while i < words.Length
        invariant 0 <= i <= words.Length && wrapped
        invariant IsDigits(words[..])
        invariant Mag(words[..]) + PowB(i) == Mag(s0) + 1
      {
        ghost var before := words[..];
        words[i] := (words[i] + 1) % 0x10000;
        assert words[..] == before[i := words[i]];
        IncrementStep(before, i, Mag(s0) + 1);
        if words[i] != 0 {
          wrapped := false;
          return;
        }
        i := i + 1;
      }
    }

    /** operator--: subtracts one from the words from the least significant
        up, stopping at the first word that does not wrap to all-ones. */
    method Decrement()
      requires Valid()
      modifies words
      ensures Valid() && Value() == Reduce(old(Value()) - 1, n, signed)
    {
      ghost var s0 := words[..];
      ghost var wrapped := DecrementWords(s0);
      StepsValue(s0, words[..], -1, wrapped, n, signed);
      SignExtend();
    }

    /** The loop of operator--: words that wrap to 0xFFFF borrow from the
        next; wrapped says that the borrow went out of the last word. */
    method DecrementWords(ghost s0: seq<int>) returns (ghost wrapped: bool)
      requires WellFormed() && s0 == words[..]
      modifies words
      ensures WellFormed()
      ensures Mag(words[..]) + (if wrapped then -PowB(|s0|) else 0) == Mag(s0) - 1
    {
      wrapped := true;
      var i := 0;
      while i < words.Length
        invariant 0 <= i <= words.Length && wrapped
        invariant IsDigits(words[..])
        invariant Mag(words[..]) == Mag(s0) - 1 + PowB(i)
      {
        ghost var before := words[..];
        words[i] := (words[i] - 1) % 0x10000;
        assert words[..] == before[i := words[i]];
        DecrementStep(before, i, Mag(s0) - 1);
        if words[i] != 0xFFFF {
          wrapped := false;
          return;
        }
        i := i + 1;
      }
    }

    /** negate(): the two's complement ~x + 1, which is -x modulo 2^N. */
    method Negate()
      requires Valid()
      modifies words
      ensures Valid() && Value() == Reduce(-old(Value()), n, signed)
    {
      FlipBits();
      Increment();
      ReduceSum(-1 - old(Value()), 1, n, signed);
    }
 
    /** operator*=: schoolbook multiplication into the cleared words; column
        j adds left * right[j] shifted by j words and keeps only the low
        Words words. The right factor is read from a copy of that's words,
        so x *= x multiplies x by itself (see SquareAsWritten). */
    method Multiply(that: MultiInteger)
      requires Valid() && that.Valid() && SameType(that)
      modifies words
      ensures Valid() && Value() == Reduce(old(Value()) * old(that.Value()), n, signed)
    {
      var left := words[..];
      var right := that.words[..];
      ClearAllBits();
      MultiplyWords(left, right);
      ProductValue(left, right, words[..], n, signed);
      SignExtend();
    }

    /** The two loops of operator*=: on zeroed words, the words end up
        congruent to the product modulo 2^(16 Words). */
    method MultiplyWords(left: seq<int>, right: seq<int>)
      requires WellFormed() && Mag(words[..]) == 0
      requires |left| == |right| == words.Length && IsDigits(left) && IsDigits(right)
      modifies words
      ensures WellFormed()
      ensures (Mag(words[..]) - Mag(left) * Mag(right)) % PowB(words.Length) == 0
    {
      var j := 0;
      assert (Mag(words[..]) - Mag(left) * Mag(right[..0])) % PowB(words.Length) == 0 by {
        assert right[..0] == [];
        assert Mag(left) * Mag(right[..0]) == 0;
      }
      while j < words.Length
        invariant 0 <= j <= words.Length
        invariant WellFormed()
        invariant (Mag(words[..]) - Mag(left) * Mag(right[..j])) % PowB(words.Length) == 0
      {
        ghost var m := Mag(words[..]);
        MultiplyColumn(left, right[j], j, m);
        ghost var m1 := Mag(words[..]);
        assert Mag(right[..j + 1]) == Mag(right[..j]) + right[j] * PowB(j) by {
          PrefixAppend(right, j);
        }
        ColumnValue(m1, m, Mag(left), Mag(right[..j]), Mag(right[..j + 1]),
                    right[j], PowB(j), PowB(words.Length));
        j := j + 1;
      }
      assert right[..j] == right;
    }

    /** Column j of operator*=: adds rj * left, shifted by j words, to the
        words, dropping the carry out of the last word. */
    method MultiplyColumn(left: seq<int>, rj: int, j: nat, ghost m0: int)
      requires WellFormed() && |left| == words.Length && IsDigits(left)
      requires 0 <= rj < 0x10000 && j < words.Length && Mag(words[..]) == m0
      modifies words
      ensures WellFormed()
      ensures (Mag(words[..]) - (m0 + rj * Mag(left) * PowB(j))) % PowB(words.Length) == 0
    {
      var carry := 0;
      var i := 0;
      while i < words.Length - j
        invariant 0 <= i <= words.Length - j
        invariant WellFormed() && carry >= 0
        invariant Mag(words[..]) + carry * PowB(i + j) == m0 + rj * Mag(left[..i]) * PowB(j)
      {
        ghost var before := words[..];
        var t := left[i] * rj + words[i + j] + carry;
        MulNonNegative(left[i], rj);
        ColumnStep(before, left, i, j, rj, carry, m0);
        words[i + j] := t % 0x10000;
        carry := t / 0x10000;
        assert words[..] == before[i + j := t % 0x10000];
        i := i + 1;
      }
      ColumnEnd(Mag(words[..]), carry, m0, rj, left, j, words.Length);
    }

    /** x *= x as operator*= in multi_integer.h runs it: `right` refers to this integer's own
        words, which clearBits() has just zeroed, so every column adds zero
        and the result is 0 whatever x was. */
    method SquareAsWritten()
      requires Valid()
      modifies words
      ensures Valid() && Value() == 0
    {
      var left := words[..];
      ClearAllBits();
      ZeroMag(words[..]);
      var j := 0;
      while j < words.Length
        invariant 0 <= j <= words.Length
        invariant forall k :: 0 <= k < words.Length ==> words[k] == 0
      {
        var carry := 0;
        var i := 0;
        while i < words.Length - j
          invariant 0 <= i <= words.Length - j && carry == 0
          invariant forall k :: 0 <= k < words.Length ==> words[k] == 0
        {
          // right[j] is words[j]: the alias of the result.
          var t := left[i] * words[j] + words[i + j] + carry;
          words[i + j] := t % 0x10000;
          carry := t / 0x10000;
          i := i + 1;
        }
        j := j + 1;
      }
      ZeroWordsValue(words[..], n, signed);
      SignExtend();
    }

    /** operator==: the words are equal, which for valid integers of one
        type is the same as equal values. */
    method Equal(that: MultiInteger) returns (r: bool)
      requires Valid() && that.Valid() && SameType(that)
      ensures r <==> Value() == that.Value()
    {
      r := words[..] == that.words[..];
      ExtensionInjective(Value(), that.Value(), n, signed);
      if Value() == that.Value() {
        MagEqualLength(words[..], that.words[..]);
      }
    }

    /** operator<: integers of different signs compare by their signs;
        otherwise the words are compared from the most significant down.
        For two negative integers operator< in multi_integer.h compares the words with >
        (see LessAsWritten); comparing the extended words with < is right
        for both signs. */
    method Less(that: MultiInteger) returns (r: bool)
      requires Valid() && that.Valid() && SameType(that) && n > 0
      ensures r <==> Value() < that.Value()
    {
      var sign := LastBit();
      var thatSign := that.LastBit();
      if signed && sign != thatSign {
        r := sign;
        return;
      }
      r := CompareEqualLength(words[..], that.words[..]);
      ExtensionOrder(Value(), that.Value(), n, signed);
    }

    /** operator< as multi_integer.h runs it: for two negative integers the
        word comparison is reversed, so the answer is that.Value() <
        Value() instead. */
    method LessAsWritten(that: MultiInteger) returns (r: bool)
      requires Valid() && that.Valid() && SameType(that) && n > 0
      ensures signed && Value() < 0 && that.Value() < 0 ==> (r <==> that.Value() < Value())
      ensures !(signed && Value() < 0 && that.Value() < 0) ==> (r <==> Value() < that.Value())
    {
      var sign := LastBit();
      var thatSign := that.LastBit();
      if signed && sign != thatSign {
        r := sign;
        return;
      }
      if !signed || !sign {
        r := CompareEqualLength(words[..], that.words[..]);
      } else {
        r := CompareEqualLength(that.words[..], words[..]);
      }
      ExtensionOrder(Value(), that.Value(), n, signed);
    }

    /** operator<<=: by N or more bits the result is zero; otherwise the
        words move up by amount / 16 words and amount % 16 bits, the sign
        is extended, and the words below are zero-filled. The result is
        the value times 2^amount modulo 2^N. */
    method ShiftLeft(amount: nat)
      requires Valid()
      modifies words
      ensures Valid()
      ensures amount >= n ==> Value() == 0
      ensures amount < n ==> Value() == Reduce(old(Value()) * Pow2(amount), n, signed)
    {
      if amount >= n {
        ClearAllBits();
        return;
      }
      ghost var s0 := words[..];
      var wordsToShift := amount / 16;
      var bitsToShift := amount % 16;
      ShiftWordsUp(wordsToShift, bitsToShift);
      ghost var s1 := words[..];
      SignExtend();
      ghost var s2 := words[..];
      FillWords(0, wordsToShift, false);
      assert words[..] == SignExtended(ShiftedLeft(s0, wordsToShift, bitsToShift), n, signed) by {
        ShiftedUpExtended(s0, s1, s2, words[..], wordsToShift, bitsToShift);
      }
      ShiftedUpValue(s0, n, signed, amount);
    }

    /** The word loop of operator<<=: from the top down, word i takes the
        high bits of word i - ws and the low bits of word i - ws - 1; word
        ws takes word 0 shifted up. The words below ws are not touched. */
    method ShiftWordsUp(ws: nat, t: nat)
      requires WellFormed() && ws < words.Length && t < 16
      modifies words
      ensures WellFormed()
      ensures forall j :: 0 <= j < ws ==> words[j] == old(words[j])
      ensures forall j :: ws <= j < words.Length ==> words[j] == ShiftedLeftWord(old(words[..]), ws, t, j)
    {
      ghost var s0 := words[..];
      var i := words.Length - 1;
      while i > ws
        invariant ws <= i < words.Length
        invariant forall j :: 0 <= j <= i ==> words[j] == s0[j]
        invariant forall j :: i < j < words.Length ==> words[j] == ShiftedLeftWord(s0, ws, t, j)
      {
        words[i] := Funnel(words[i - ws], words[i - ws - 1], t);
        i := i - 1;
      }
      words[ws] := Funnel(words[0], 0, t);
    }

    /** The two loops of operator>>= in multi_integer.h leave a sign-extended
        vector, whether signExtend() runs before or after the zero-fill
        below ws: the fill does not reach the last word. */
    lemma ShiftedUpExtended(s0: seq<int>, s1: seq<int>, s2: seq<int>, s3: seq<int>, ws: nat, t: nat)
      requires WellFormed() && IsDigits(s0) && |s0| == words.Length && t < 16 && ws < |s0|
      requires |s1| == |s0| && IsDigits(s1)
      requires forall j :: ws <= j < |s1| ==> s1[j] == ShiftedLeftWord(s0, ws, t, j)
      requires s2 == SignExtended(s1, n, signed)
      requires |s3| == |s2| && forall j :: 0 <= j < |s3| ==> s3[j] == if j < ws then 0 else s2[j]
      ensures s3 == SignExtended(ShiftedLeft(s0, ws, t), n, signed)
    {
      var r := SignExtended(ShiftedLeft(s0, ws, t), n, signed);
      forall j | 0 <= j < |s3|
        ensures s3[j] == r[j]
      {
      }
    }

    /** operator>>=: by N or more bits the result is zero; otherwise the
        words move down by amount / 16 words and amount % 16 bits and the
        vacated words take the padding of the sign. The padding word is
        read from the sign before the shift and also fills the top bits of
        the highest shifted word, which makes the shift arithmetic: the
        result is the value divided by 2^amount, rounded down. operator>>= in multi_integer.h
        reads the sign after the shift and shifts zeros into the highest
        word (see ShiftRightAsWritten). */
    method ShiftRight(amount: nat)
      requires Valid()
      modifies words
      ensures Valid()
      ensures amount >= n ==> Value() == 0
      ensures amount < n ==> Value() == old(Value()) / Pow2(amount)
    {
      if amount >= n {
        ClearAllBits();
        return;
      }
      ghost var s0 := words[..];
      ghost var v := Value();
      var wordsToShift := amount / 16;
      var bitsToShift := amount % 16;
      var negative := false;
      if signed {
        negative := LastBit();
      }
      assert negative <==> v < 0;
      var padding := if negative then 0xFFFF else 0;
      ShiftWordsDown(wordsToShift, bitsToShift, padding);
      FillWords(words.Length - wordsToShift, words.Length, negative);
      assert words[..] == ShiftedRight(s0, wordsToShift, bitsToShift, padding);
      ShiftedDownValue(s0, n, signed, v, amount);
    }

    /** The word loop of operator>>=: from the bottom up, word i takes the
        low bits of word i + ws + 1 and the high bits of word i + ws; the
        highest shifted word takes the padding word's bits on top. The
        words from Words - ws up are not touched. */
    method ShiftWordsDown(ws: nat, t: nat, padding: int)
      requires WellFormed() && ws < words.Length && t < 16 && IsPadding(padding)
      modifies words
      ensures WellFormed()
      ensures forall j :: words.Length - ws <= j < words.Length ==> words[j] == old(words[j])
      ensures forall j :: 0 <= j < words.Length - ws ==>
        words[j] == ShiftedRightWord(old(words[..]), ws, t, padding, j)
    {
      ghost var s0 := words[..];
      var i := 0;
      while i < words.Length - ws - 1
        invariant 0 <= i <= words.Length - ws - 1
        invariant forall j :: i <= j < words.Length ==> words[j] == s0[j]
        invariant forall j :: 0 <= j < i ==> words[j] == ShiftedRightWord(s0, ws, t, padding, j)
      {
        words[i] := Funnel(words[i + ws + 1], words[i + ws], 16 - t);
        i := i + 1;
      }
      words[words.Length - ws - 1] := Funnel(padding, words[words.Length - 1], 16 - t);
    }

    /** zero(x): whether every word is zero, which for a valid integer is
        whether the value is zero. */
    method IsZero() returns (r: bool)
      requires Valid()
      ensures r <==> Value() == 0
    {
      var i := 0;
      while i < words.Length
        invariant 0 <= i <= words.Length
        invariant forall j :: 0 <= j < i ==> words[j] == 0
      {
        if words[i] != 0 {
          assert Value() != 0 by {
            NonZeroMag(words[..], i);
            ZeroExtension(n);
          }
          return false;
        }
        i := i + 1;
      }
      assert Value() == 0 by {
        ZeroWordsValue(words[..], n, signed);
      }
      return true;
    }

    /** negative(x): a signed integer whose last bit is set. */
    method IsNegative() returns (r: bool)
      requires Valid()
      ensures r <==> Value() < 0
    {
      if signed {
        r := LastBit();
      } else {
        r := false;
      }
    }

    /** Assignment: the words of that are copied over. */
    method Assign(that: MultiInteger)
      requires Valid() && that.Valid() && SameType(that)
      modifies words
      ensures words[..] == old(that.words[..])
      ensures Valid() && Value() == old(that.Value())
    {
      forall i | 0 <= i < words.Length {
        words[i] := that.words[i];
      }
      CopyValid(that);
    }

    /** highestBit(x) of a non-negative integer: the index of its highest
        1-bit, or -1 for zero. */
    method HighestBit() returns (r: int)
      requires Valid() && Value() >= 0
      ensures -1 <= r < n
      ensures r < 0 <==> Value() == 0
      ensures r >= 0 ==> Pow2(r) <= Value() < Pow2(r + 1)
    {
      BelowPower(Value(), n, signed);
      r := n - 1;
      while r >= 0
        invariant -1 <= r < n
        invariant Value() < Pow2(r + 1)
      {
        var b := Bit(r);
        TopBit(Value(), r);
        if b {
          return;
        }
        r := r - 1;
      }
    }

    /** The shift-and-subtract loop of operator/= on magnitudes, with this
        integer as the result: right is shifted up to meet left's highest
        bit; at each bit i, from the top down, a right that fits is
        subtracted and bit i of the result set; where left has no bit at
        i + iRight, right jumps down to left's highest bit. */
    method DivideMagnitudes(left: MultiInteger, right: MultiInteger)
      requires Valid() && left.Valid() && right.Valid() && SameType(left) && SameType(right)
      requires words != left.words && words != right.words && left.words != right.words
      requires left.Value() >= 0 && right.Value() > 0
      modifies words, left.words, right.words
      ensures Valid() && Value() == old(left.Value()) / old(right.Value())
    {
      ghost var l0, r0 := left.Value(), right.Value();
      ClearAllBits();
      var less := left.Less(right);
      if less {
        DivisionDone(l0, r0, 0, l0);
        return;
      }
      var iLeft := left.HighestBit();
      var iRight := right.HighestBit();
      if iLeft < iRight {
        Pow2Monotone(iLeft + 1, iRight);
      }
      AlignAndDivide(left, right, iLeft, iRight);
    }

    /** The rest of DivideMagnitudes once both highest bits are known:
        right is shifted up by their difference and the loop run. */
    method AlignAndDivide(left: MultiInteger, right: MultiInteger, iLeft: nat, iRight: nat)
      requires Valid() && left.Valid() && right.Valid() && SameType(left) && SameType(right)
      requires words != left.words && words != right.words && left.words != right.words
      requires Value() == 0 && iRight <= iLeft < n
      requires Pow2(iLeft) <= left.Value() < Pow2(iLeft + 1)
      requires Pow2(iRight) <= right.Value() < Pow2(iRight + 1)
      modifies words, left.words, right.words
      ensures Valid() && Value() == old(left.Value()) / old(right.Value())
    {
      ghost var l0, r0 := left.Value(), right.Value();
      var shift := iLeft - iRight;
      DivisionStart(l0, r0, iLeft, iRight);
      BelowHighestBit(l0, iLeft, r0 * Pow2(shift), n, signed);
      ReduceInRange(r0 * Pow2(shift), n, signed);
      right.ShiftLeft(shift);
      DivisionLoop(left, right, shift, iRight, l0, r0, iLeft);
      SignExtend();
    }

    /** The loop of operator/=, from bit i = shift down: each step
        subtracts or moves right down, until bit 0 is passed or nothing
        is left. */
    method DivisionLoop(left: MultiInteger, right: MultiInteger, shift: nat, iRight: nat,
                        ghost l0: int, ghost r0: int, ghost iLeft0: nat)
      requires Valid() && left.Valid() && right.Valid() && SameType(left) && SameType(right)
      requires words != left.words && words != right.words && left.words != right.words
      requires Dividing(l0, r0, Value(), left.Value(), shift) && right.Value() == r0 * Pow2(shift)
      requires InRange(l0, n, signed) && Pow2(iLeft0) <= l0 < Pow2(iLeft0 + 1) && iLeft0 < n
      requires Pow2(iRight) <= r0 < Pow2(iRight + 1) && shift + iRight == iLeft0
      modifies words, left.words, right.words
      ensures Valid() && Value() == l0 / r0
    {
      var i: int := shift;
      var stop := false;
      while i >= 0
        invariant -1 <= i <= shift && !stop
        invariant Valid() && left.Valid() && right.Valid()
        invariant Dividing(l0, r0, Value(), left.Value(), i)
        invariant i >= 0 ==> right.Value() == r0 * Pow2(i)
      {
        var toRight;
        toRight, stop := DivisionStep(left, right, i, iRight, l0, r0, iLeft0);
        if stop {
          break;
        }
        if toRight <= i {
          ShiftDivisorDown(r0, i, toRight);
        }
        ghost var q1, left1 := Value(), left.Value();
        right.ShiftRight(toRight);
        assert Value() == q1 && left.Value() == left1;
        i := i - toRight;
      }
      if !stop {
        DivisionDone(l0, r0, Value(), left.Value());
      }
    }

    /** right <= left in operator/='s loop: left -= right and
        setBit(i). */
    method SubtractDivisor(left: MultiInteger, right: MultiInteger, i: nat,
                           ghost l0: int, ghost r0: int, ghost iLeft0: nat)
      requires Valid() && left.Valid() && right.Valid() && SameType(left) && SameType(right)
      requires words != left.words && words != right.words && left.words != right.words
      requires Dividing(l0, r0, Value(), left.Value(), i) && right.Value() == r0 * Pow2(i)
      requires right.Value() <= left.Value()
      requires InRange(l0, n, signed) && Pow2(iLeft0) <= l0 < Pow2(iLeft0 + 1) && i <= iLeft0 < n
      modifies words, left.words
      ensures Valid() && left.Valid()
      ensures Dividing(l0, r0, Value(), left.Value(), i - 1)
    {
      ghost var q, rest := Value(), left.Value();
      DivisorSubtracted(l0, r0, q, rest, right.Value(), i, iLeft0, n, signed);
      left.Subtract(right);
      SetBit(i);
      SetQuotientBit(q, Value(), n, signed, i);
    }

    /** One step of operator/='s loop at bit i, with right = R0 2^i: either
        right fits and is subtracted, setting bit i of the result, or the
        step finds how far right moves down to the next 1-bit of left, or
        that nothing is left to divide (stop). */
    method DivisionStep(left: MultiInteger, right: MultiInteger, i: nat, iRight: nat,
                        ghost l0: int, ghost r0: int, ghost iLeft0: nat)
        returns (toRight: nat, stop: bool)
      requires Valid() && left.Valid() && right.Valid() && SameType(left) && SameType(right)
      requires words != left.words && words != right.words && left.words != right.words
      requires Dividing(l0, r0, Value(), left.Value(), i) && right.Value() == r0 * Pow2(i)
      requires InRange(l0, n, signed) && Pow2(iLeft0) <= l0 < Pow2(iLeft0 + 1) && iLeft0 < n
      requires Pow2(iRight) <= r0 < Pow2(iRight + 1) && i + iRight <= iLeft0
      modifies words, left.words
      ensures Valid() && left.Valid()
      ensures stop ==> Value() == l0 / r0
      ensures !stop ==> 1 <= toRight <= i + 1 && Dividing(l0, r0, Value(), left.Value(), i - toRight)
    {
      toRight := 1;
      stop := false;
      var fits := left.Less(right);
      if !fits {
        SubtractDivisor(left, right, i, l0, r0, iLeft0);
        return;
      }
      var b := left.Bit(i + iRight);
      if b {
        DivisionSkip(l0, r0, Value(), left.Value(), i, 1);
        return;
      }
      var iLeft := left.HighestBit();
      if iLeft < 0 {
        DivisionDone(l0, r0, Value(), left.Value());
        stop := true;
        return;
      }
      assert left.Value() < r0 * Pow2(i);
      SkipDistance(left.Value(), iLeft, r0, iRight, i);
      toRight := (i + iRight) - iLeft;
      if toRight > i {
        SkipPast(left.Value(), iLeft, r0, iRight);
        DivisionDone(l0, r0, Value(), left.Value());
        stop := true;
        return;
      }
      SkipBound(left.Value(), iLeft, r0, iRight, i, toRight);
      DivisionSkip(l0, r0, Value(), left.Value(), i, toRight);
    }

    /** divideInfinity(k) for a signed k >= 2: the quotient 2^(N-1) / k,
        which does not fit the integer's own range as a dividend. It is
        computed as (2^(N-1) - k) / k + 1. */
    static method DivideInfinity(k: MultiInteger) returns (q: MultiInteger)
      requires k.Valid() && k.signed && 2 <= k.Value()
      ensures fresh(q.words) && q.SameType(k)
      ensures q.Valid() && q.Value() == Pow2(k.n - 1) / k.Value()
    {
      ghost var p, kv := Pow2(k.n - 1), k.Value();
      InfinitySteps(k.n, kv);
      q := InfinityLess(k);
      var left := new MultiInteger.Copy(q);
      var right := new MultiInteger.Copy(k);
      assert left.Value() == p - kv && right.Value() == kv;
      q.DivideMagnitudes(left, right);
      ReduceInRange(p / kv, k.n, true);
      q.Increment();
    }

    /** The dividend of divideInfinity: Infinity - k + 1 = 2^(N-1) - k. */
    static method InfinityLess(k: MultiInteger) returns (q: MultiInteger)
      requires k.Valid() && k.signed && 2 <= k.Value()
      ensures fresh(q.words) && q.SameType(k)
      ensures q.Valid() && q.Value() == Pow2(k.n - 1) - k.Value()
    {
      ghost var p, kv := Pow2(k.n - 1), k.Value();
      InfinitySteps(k.n, kv);
      q := new MultiInteger.Infinity(k.n, true);
      ReduceInRange(p - 1 - kv, k.n, true);
      q.Subtract(k);
      ReduceInRange(p - kv, k.n, true);
      q.Increment();
    }

    /** abs(x) for an x other than the smallest signed value, as a fresh
        integer, and whether x was negative. */
    static method Magnitude(x: MultiInteger) returns (m: MultiInteger, negative: bool)
      requires x.Valid() && !(x.signed && x.Value() == -(Pow2(x.n - 1) as int))
      ensures fresh(m.words) && m.SameType(x)
      ensures negative <==> x.Value() < 0
      ensures m.Valid() && m.Value() == Abs(x.Value())
    {
      m := new MultiInteger.Copy(x);
      negative := m.IsNegative();
      if negative {
        NegatedValue(x.Value(), x.n);
        m.Negate();
      }
    }

    /** operator/=: C++ division, truncating toward zero. The dividend and
        the divisor are reduced to their magnitudes, divided, and the sign
        restored; the smallest signed value -2^(N-1), which has no
        magnitude in range, is divided through divideInfinity. A quotient
        2^(N-1) (from -2^(N-1) / -1) wraps to -2^(N-1). The divisor
        -2^(N-1) is taken only by a zero dividend, which returns before the
        divisor is looked at: negating it leaves it negative, and the
        shift-and-subtract loop's assertion iRight <= iLeft fails. */
    method Divide(that: MultiInteger)
      requires Valid() && that.Valid() && SameType(that) && that.Value() != 0
      requires signed && that.Value() == -(Pow2(n - 1) as int) ==> Value() == 0
      modifies words
      ensures Valid() && Value() == Reduce(TruncDiv(old(Value()), old(that.Value())), n, signed)
    {
      ghost var v, w := Value(), that.Value();
      var isZero := IsZero();
      if isZero {
        assert TruncDiv(v, w) == 0;
        ReduceInRange(0, n, signed);
        return;
      }
      var left, leftNegative, smallest := DividendMagnitude(this);
      if smallest {
        DivideSmallest(that);
        return;
      }
      DivideMagnitudeBy(left, leftNegative, that);
      QuotientInRange(v, w, n, signed);
    }

    /** The start of operator/=: a copy of x negated when x is negative,
        which is the magnitude of x unless negation leaves it negative, as
        it does for the smallest signed value. */
    static method DividendMagnitude(x: MultiInteger) returns (m: MultiInteger, negative: bool, smallest: bool)
      requires x.Valid()
      ensures fresh(m.words) && m.SameType(x) && m.Valid()
      ensures negative <==> x.Value() < 0
      ensures smallest <==> x.signed && x.Value() == -(Pow2(x.n - 1) as int)
      ensures !smallest ==> m.Value() == Abs(x.Value())
    {
      m := new MultiInteger.Copy(x);
      negative := m.IsNegative();
      smallest := false;
      if negative {
        NegatedValue(x.Value(), x.n);
        m.Negate();
        smallest := m.IsNegative();
      }
    }

    /** The rest of operator/= once the dividend's magnitude is in left:
        the divisor is reduced to its magnitude, the magnitudes divided,
        and the result negated when the signs differ. */
    method DivideMagnitudeBy(left: MultiInteger, leftNegative: bool, that: MultiInteger)
      requires Valid() && left.Valid() && that.Valid() && SameType(left) && SameType(that)
      requires left.words != words && left.Value() >= 0 && (leftNegative ==> signed)
      requires that.Value() != 0 && !(signed && that.Value() == -(Pow2(n - 1) as int))
      requires leftNegative ==> left.Value() > 0
      modifies words, left.words
      ensures Valid()
      ensures Value() == TruncDiv(if leftNegative then -old(left.Value()) else old(left.Value()), old(that.Value()))
    {
      ghost var v := if leftNegative then -left.Value() else left.Value();
      ghost var w := that.Value();
      var negateResult := leftNegative;
      var right, rightNegative := Magnitude(that);
      if rightNegative {
        negateResult := !negateResult;
      }
      assert right.Value() == Abs(w) && (negateResult <==> (v < 0) != (w < 0));
      DivideMagnitudes(left, right);
      assert Value() == Abs(v) / Abs(w);
      QuotientInRange(v, w, n, signed);
      if negateResult {
        Negate();
      }
    }

    /** The branch of operator/= for the dividend -2^(N-1): by +-1 the
        result is the dividend itself (2^(N-1) wraps to -2^(N-1));
        otherwise it is -divideInfinity(|that|), negated again for a
        negative divisor. */
    method DivideSmallest(that: MultiInteger)
      requires Valid() && that.Valid() && SameType(that) && that.Value() != 0
      requires signed && Value() == -(Pow2(n - 1) as int) && that.Value() != Value()
      modifies words
      ensures Valid() && Value() == Reduce(TruncDiv(old(Value()), old(that.Value())), n, signed)
    {
      ghost var v, w := Value(), that.Value();
      var absThat, thatNegative := Magnitude(that);
      SmallestDivisor(w, n);
      var isOne := absThat.IsOne();
      if isOne {
        return;
      }
      AssignSmallestQuotient(absThat, thatNegative, w);
    }

    /** abs(that) == MultiInteger(1) in operator/=. */
    method IsOne() returns (r: bool)
      requires Valid() && n >= (if signed then 2 else 1)
      ensures r <==> Value() == 1
    {
      var one := new MultiInteger.FromNative(n, signed, 1);
      assert Reduce(1, n, signed) == 1 by {
        var b := if signed then n - 1 else n;
        assert Pow2(b) == 2 * Pow2(b - 1);
        ReduceInRange(1, n, signed);
      }
      r := Equal(one);
    }

    /** result = -divideInfinity(|that|), negated for a negative divisor. */
    method AssignSmallestQuotient(absThat: MultiInteger, thatNegative: bool, ghost w: int)
      requires Valid() && absThat.Valid() && SameType(absThat) && signed
      requires InRange(w, n, true) && w != 0 && w != -(Pow2(n - 1) as int)
      requires absThat.Value() == Abs(w) != 1 && (thatNegative <==> w < 0)
      modifies words
      ensures Valid() && Value() == Reduce(TruncDiv(-(Pow2(n - 1) as int), w), n, true)
    {
      ghost var q := Pow2(n - 1) / absThat.Value();
      SmallestQuotient(w, n, q);
      AssignMinusInfinityQuotient(absThat);
      if thatNegative {
        Negate();
      }
    }

    /** result = -divideInfinity(k): -floor(2^(N-1) / k). */
    method AssignMinusInfinityQuotient(k: MultiInteger)
      requires Valid() && k.Valid() && SameType(k) && signed
      requires 2 <= k.Value() < Pow2(n - 1)
      modifies words
      ensures Valid() && Value() == -(Pow2(n - 1) / old(k.Value()))
    {
      var q := DivideInfinity(k);
      ghost var qv := q.Value();
      InfinitySteps(n, k.Value());
      ReduceInRange(-qv, n, true);
      q.Negate();
      Assign(q);
    }

    /** Whether this is -2^(N-1), as operator/= and operator%= with a
        native divisor test it: negative(*this) && negative(-*this). */
    method IsSmallest() returns (r: bool)
      requires Valid()
      ensures r <==> signed && Value() == -(Pow2(n - 1) as int)
    {
      r := IsNegative();
      if r {
        var negated := new MultiInteger.Copy(this);
        NegatedValue(Value(), n);
        negated.Negate();
        r := negated.IsNegative();
      }
    }

    /** operator/= with a native divisor: a divisor of magnitude 2^B or
        more (B = unsignedBits()) gives 0, or +-1 for -2^B divided by
        -+2^B; a smaller one is converted to an N-bit integer (a negative
        one wrapping for an unsigned integer) and divided by. */
    method DivideByNative(that: int)
      requires Valid() && that != 0
      modifies words
      ensures Valid() && Value() == Reduce(TruncDiv(old(Value()), NativeDivisor(that, n, signed)), n, signed)
    {
      ghost var v := Value();
      if Abs(that) >= Pow2(UnsignedBits(n, signed)) {
        LargeDivisor(v, that, n, signed);
        var smallest := IsSmallest();
        if smallest && Abs(that) == Pow2(UnsignedBits(n, signed)) {
          var r := new MultiInteger.FromNative(n, signed, if that < 0 then 1 else -1);
          Assign(r);
        } else {
          ReduceInRange(0, n, signed);
          ClearAllBits();
        }
        return;
      }
      var divisor := new MultiInteger.FromNative(n, signed, that);
      NativeConversion(that, n, signed);
      Divide(divisor);
    }

    /** operator%=: this - (this / that) * that, each operation modulo 2^N,
        which is the remainder of C++'s division: smaller than the divisor
        in magnitude, with the dividend's sign. */
    method Remainder(that: MultiInteger)
      requires Valid() && that.Valid() && SameType(that) && that.Value() != 0
      requires signed && that.Value() == -(Pow2(n - 1) as int) ==> Value() == 0
      modifies words
      ensures Valid() && Value() == TruncRem(old(Value()), old(that.Value()))
    {
      ghost var v, w := Value(), that.Value();
      var product := new MultiInteger.Copy(this);
      product.Divide(that);
      product.Multiply(that);
      Subtract(product);
      RemainderValue(v, w, n, signed);
    }

    /** operator%= with a native divisor: a divisor of magnitude 2^B or
        more leaves the dividend, or gives 0 for -2^B and +-2^B; a smaller
        one is converted and taken the remainder by. */
    method RemainderByNative(that: int)
      requires Valid() && that != 0
      modifies words
      ensures Valid() && Value() == TruncRem(old(Value()), NativeDivisor(that, n, signed))
    {
      ghost var v := Value();
      if Abs(that) >= Pow2(UnsignedBits(n, signed)) {
        LargeDivisor(v, that, n, signed);
        var smallest := IsSmallest();
        if smallest && Abs(that) == Pow2(UnsignedBits(n, signed)) {
          ClearAllBits();
        }
        return;
      }
      var divisor := new MultiInteger.FromNative(n, signed, that);
      NativeConversion(that, n, signed);
      Remainder(divisor);
    }
  
    /** operator~: a copy with every bit complemented, -1 - x modulo 2^N. */
    method Complement() returns (r: MultiInteger)
      requires Valid()
      ensures fresh(r.words) && SameType(r)
      ensures r.Valid() && r.Value() == Reduce(-1 - Value(), n, signed)
    {
      r := new MultiInteger.Copy(this);
      r.FlipBits();
    }

    /** Unary operator-: a negated copy, -x modulo 2^N. */
    method Negated() returns (r: MultiInteger)
      requires Valid()
      ensures fresh(r.words) && SameType(r)
      ensures r.Valid() && r.Value() == Reduce(-Value(), n, signed)
    {
      r := new MultiInteger.Copy(this);
      r.Negate();
    }

    /** The word loop of asNative(): the low wc words, each shifted to its
        place and added in the native type. */
    method NativeFromWords(bits: nat, nativeSigned: bool, wc: nat) returns (r: int)
      requires WellFormed() && (nativeSigned ==> bits > 0) && wc <= words.Length
      ensures r == Reduce(Mag(words[..wc]), bits, nativeSigned)
    {
      r := 0;
      assert words[..0] == [];
      ReduceInRange(0, bits, nativeSigned);
      var i := 0;
      while i < wc
        invariant 0 <= i <= wc
        invariant r == Reduce(Mag(words[..i]), bits, nativeSigned)
      {
        ReduceSum(Mag(words[..i]), words[i] * PowB(i), bits, nativeSigned);
        assert words[..i + 1] == words[..i] + [words[i]];
        MagAppend(words[..i], words[i]);
        r := Reduce(r + words[i] * PowB(i), bits, nativeSigned);
        i := i + 1;
      }
    }

    /** asNative() for a native integer of `bits` bits, read in two's
        complement when nativeSigned: the words that fit are shifted into
        place and added, wrapping at the native width, and a negative
        integer gets the native bits above those words set. The result is
        the value modulo 2^bits, in the native type's reading. */
    method AsNative(bits: nat, nativeSigned: bool) returns (r: int)
      requires Valid() && (nativeSigned ==> bits > 0)
      ensures r == Reduce(Value(), bits, nativeSigned)
    {
      var wc := if WordCount(bits) < words.Length then WordCount(bits) else words.Length;
      r := NativeFromWords(bits, nativeSigned, wc);
      var negative := IsNegative();
      if signed && negative {
        ReduceSum(Mag(words[..wc]), Mask(16 * wc, bits), bits, nativeSigned);
        r := Reduce(r + Mask(16 * wc, bits), bits, nativeSigned);
      }
      AsNativeValue(words[..], n, signed, bits, nativeSigned, wc);
    }

    /** numberOfOneBits(x): the 1-bits of all the words, the padding of the
        last word included, so that a negative integer whose N is not a
        multiple of 16 counts its sign copies too. */
    method NumberOfOneBits() returns (r: int)
      requires Valid()
      ensures r == Ones(Value(), 0, n) + (if Value() < 0 then 16 * words.Length - n else 0)
    {
      ghost var s := words[..];
      r := 0;
      var i := 0;
      while i < words.Length
        invariant 0 <= i <= words.Length
        invariant r == Ones(Mag(s), 0, 16 * i)
      {
        WordOnes(s, i);
        OnesSplit(Mag(s), 0, 16 * i, 16 * i + 16);
        r := r + Ones(words[i], 0, 16);
        i := i + 1;
      }
      PaddedOnes(s, n, signed);
    }

    /** oneBits(): the 1-bits of the words, less the sign copies in the
        last word's padding when the integer is signed and its last bit is
        set: the number of 1-bits among the N bits. */
    method OneBits() returns (r: int)
      requires Valid()
      ensures r == Ones(Value(), 0, n)
    {
      r := NumberOfOneBits();
      ghost var v := Value();
      PaddingWidth(n);
      if n % 16 > 0 && signed {
        var last := LastBit();
        if last {
          r := r - (16 - n % 16);
        } else {
          assert v >= 0;
        }
      } else {
        assert v < 0 ==> 16 * words.Length - n == 0;
      }
    }

    /** mod(t, base) for a non-negative t, read as a native integer: the
        low digit of t in the base. */
    static method LowDigit(t: MultiInteger, base: nat) returns (d: int)
      requires t.Valid() && t.Value() >= 0 && 2 <= base <= 36
      ensures d == t.Value() % base
    {
      var u := new MultiInteger.Copy(t);
      u.RemainderByNative(base);
      DigitDivision(t.Value(), base, t.n, t.signed);
      d := u.AsNative(64, true);
      assert Pow2(6) == 64 by {
        Pow2Sixteen();
      }
      Pow2Monotone(6, 63);
      ReduceInRange(t.Value() % base, 64, true);
    }

    /** t /= base in asString(), for a non-negative t: the floor quotient. */
    method DivideByDigitBase(base: nat)
      requires Valid() && Value() >= 0 && 2 <= base <= 36
      modifies words
      ensures Valid() && Value() == old(Value()) / base
      ensures 0 <= Value() && (old(Value()) > 0 ==> Value() < old(Value()))
    {
      ghost var v := Value();
      DivideByNative(base);
      assert NativeDivisor(base, n, signed) == base;
      DigitDivision(v, base, n, signed);
      if v > 0 {
        QuotientSmaller(v, base);
      }
    }

    /** The loop of asString(): while t is not zero, its low digit goes to
        the end of the text and t is divided by the base, so the text holds
        the digits of m in reverse. */
    static method AppendDigits(t: MultiInteger, base: nat, result: string, ghost m: nat) returns (s: string)
      requires t.Valid() && t.Value() >= 0 && 2 <= base <= 36
      requires Digits(m, base) == Digits(t.Value(), base) + Reversed(result)
      modifies t.words
      ensures Digits(m, base) == Reversed(s)
    {
      s := result;
      var zero := t.IsZero();
      while !zero
        invariant t.Valid() && t.Value() >= 0
        invariant zero <==> t.Value() == 0
        invariant Digits(m, base) == Digits(t.Value(), base) + Reversed(s)
        decreases t.Value()
      {
        var d := LowDigit(t, base);
        ghost var tv := t.Value();
        t.DivideByDigitBase(base);
        ghost var s0 := s;
        s := s + [DigitChar(d)];
        DigitStep(m, tv, s0, base, t.Value(), s);
        zero := t.IsZero();
      }
    }

    /** asString(base): "0" for zero; otherwise the digits of the magnitude
        are produced from the least significant up, with -2^B (whose
        magnitude is not a value of the type) handled by taking its first
        digit in advance, then a minus sign for a negative integer, and the
        text reversed. */
    method AsString(base: nat) returns (s: string)
      requires Valid() && 2 <= base <= 36
      ensures s == Numeral(Value(), base)
    {
      var zero := IsZero();
      if zero {
        return "0";
      }
      var t, result, negative := StartDigits(base);
      result := AppendDigits(t, base, result, Abs(Value()));
      if signed && negative {
        ReversedAppend(result, '-');
        result := result + "-";
      }
      s := Reversed(result);
    }

    /** The start of asString() for a non-zero integer: t = abs(x), and
        when that is still negative (x = -2^B) the first digit in advance,
        with t the rest of the magnitude (0 when B = 0, otherwise
        divideInfinity(base), the quotient of 2^B by the base). */
    method StartDigits(base: nat) returns (t: MultiInteger, result: string, negative: bool)
      requires Valid() && Value() != 0 && 2 <= base <= 36
      ensures fresh(t.words) && t.Valid() && t.Value() >= 0
      ensures negative <==> Value() < 0
      ensures Digits(Abs(Value()), base) == Digits(t.Value(), base) + Reversed(result)
    {
      ghost var v := Value();
      result := "";
      t := new MultiInteger.Copy(this);
      negative := t.IsNegative();
      if negative {
        t.Negate();
        NegatedValue(v, n);
      }
      var stillNegative := t.IsNegative();
      if stillNegative {
        assert Abs(v) == Pow2(UnsignedBits(n, signed)) by {
          assert Pow2(n) == 2 * Pow2(n - 1);
        }
        t, result := SmallestDigits(n, signed, base);
      } else {
        assert t.Value() == Abs(v);
        assert Reversed(result) == [];
      }
    }

    /** asString() on the smallest signed value -2^B, B = unsignedBits():
        its lowest digit, 2^B mod base, is computed in advance and t
        starts from floor(2^B / base). */
    static method SmallestDigits(n: nat, signed: bool, base: nat) returns (t: MultiInteger, result: string)
      requires signed ==> n > 0
      requires 2 <= base <= 36 && Pow2(UnsignedBits(n, signed)) < Pow2(n)
      ensures fresh(t.words) && t.Valid() && t.Value() >= 0
      ensures Digits(Pow2(UnsignedBits(n, signed)), base) == Digits(t.Value(), base) + Reversed(result)
    {
      var b := UnsignedBits(n, signed);
      var p := Pow2(b);
      DigitsInAdvance(p, base);
      if b == 0 {
        assert p == 1;
        DivUnique(1, base, 0, 1);
        assert DigitChar(p % base) == '1';
        result := "1";
        t := new MultiInteger.Zero(n, signed);
      } else {
        result := [DigitChar(p % base)];
        QuotientSmaller(p, base);
        ReduceInRange(p / base, n, signed);
        t := new MultiInteger.FromNative(n, signed, p / base);
      }
    }
}
}
