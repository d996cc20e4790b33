// The bit-level facts behind MultiInteger's signExtend(), setBits(),
// flipBits() and the bit setters (pastel/sys/integer/multi_integer/
// multi_integer.h): what each word operation does to the bits of the
// word vector and to the value they stand for.
module MultiIntegerBits {
  import opened Bits
  import opened BigDigits
  import opened BigIntegerShifts
  import opened MultiIntegerWords

  // ---------------------------------------------------------------------
  // signExtend() on the whole vector

  /** The words after signExtend(): the last word is extended when N does
      not fill it, and nothing else changes. */
  function SignExtended(s: seq<int>, n: nat, signed: bool): (t: seq<int>)
    requires IsDigits(s) && |s| == WordCount(n)
    ensures IsDigits(t) && |t| == |s|
    ensures t[..|t| - (if n % 16 == 0 then 0 else 1)] == s[..|s| - (if n % 16 == 0 then 0 else 1)]
  {
    if n % 16 == 0 then s else s[|s| - 1 := ExtendedTopWord(s[|s| - 1], n, signed)]
  }

  /** signExtend() keeps the value of the low n bits and leaves the words
      holding that value's extension: the padding invariant. */
  lemma SignExtendedValue(s: seq<int>, n: nat, signed: bool)
    requires IsDigits(s) && |s| == WordCount(n) && (signed ==> n > 0)
    ensures Mag(SignExtended(s, n, signed)) == Extension(Reduce(Mag(s), n, signed), n)
    ensures Reduce(Mag(SignExtended(s, n, signed)), n, signed) == Reduce(Mag(s), n, signed)
  {
    var v := Reduce(Mag(s), n, signed);
    if n % 16 == 0 {
      FullWordsValue(s, n, signed);
    } else {
      PartialWordValue(s, n, signed);
    }
    ExtensionReduce(v, n, signed);
    ReduceInRange(v, n, signed);
  }

  /** When N fills the last word, the words already hold the extension. */
  lemma FullWordsValue(s: seq<int>, n: nat, signed: bool)
    requires IsDigits(s) && |s| == WordCount(n) && (signed ==> n > 0) && n % 16 == 0
    ensures Mag(s) == Extension(Reduce(Mag(s), n, signed), n)
  {
    var k := |s|;
    var v := Reduce(Mag(s), n, signed);
    var p := PowB(k);
    assert p == Pow2(n) by {
      PowBIsPow2(k);
    }
    SameResidue(Mag(s), v, p);
    MagBounds(s);
    DivUnique(Mag(s), p, 0, Mag(s));
  }

  /** Otherwise the extended last word completes the extension. */
  lemma PartialWordValue(s: seq<int>, n: nat, signed: bool)
    requires IsDigits(s) && |s| == WordCount(n) && (signed ==> n > 0) && n % 16 > 0
    ensures Mag(SignExtended(s, n, signed)) == Extension(Reduce(Mag(s), n, signed), n)
  {
    var k := |s|;
    var t := SignExtended(s, n, signed);
    var lo, w, b := Mag(s[..k - 1]), s[k - 1], PowB(k - 1);
    var x := ExtendedTopWord(w, n, signed);
    assert t == s[k - 1 := x];
    assert Mag(s) == lo + w * b by {
      MagLast(s);
    }
    assert Mag(t) == lo + x * b by {
      MagLast(t);
      assert t[..k - 1] == s[..k - 1];
    }
    assert 0 <= lo < b by {
      PrefixDigits(s, k - 1);
      MagBounds(s[..k - 1]);
    }
    ExtendTop(lo, w, n, signed);
  }

  /** Words whose value is congruent to x modulo 2^(16 k) stand for the
      same n-bit value as x. */
  lemma WordsCongruent(m: int, x: int, c: int, n: nat, signed: bool)
    requires signed ==> n > 0
    requires m == x + c * PowB(WordCount(n))
    ensures Reduce(m, n, signed) == Reduce(x, n, signed)
  {
    var k := WordCount(n);
    assert (m - x) % Pow2(16 * k) == 0 by {
      PowBIsPow2(k);
      MultipleMod(c, PowB(k));
    }
    DividesPowers(m - x, n, 16 * k);
    ReduceCongruent(m, x, n, signed);
  }

  /** Below N, the bits that the words hold are the bits of the value. */
  lemma LowBits(s: seq<int>, n: nat, signed: bool, i: nat)
    requires IsDigits(s) && |s| == WordCount(n) && (signed ==> n > 0) && i < n
    ensures WordBit(s, i) <==> TwosBit(Reduce(Mag(s), n, signed), i)
  {
    WordBitIsBit(s, i);
    CongruentBits(Mag(s), Reduce(Mag(s), n, signed), n, i);
  }

  // ---------------------------------------------------------------------
  // Bits determine the value

  /** Floor division by a then by b is floor division by a * b. */
  lemma DivDivInt(m: int, a: int, b: int)
    requires a > 0 && b > 0
    ensures m / a / b == m / (a * b)
  {
    var q, r1 := m / a, m % a;
    var q2, r2 := q / b, q % b;
    assert m == q2 * (a * b) + (r2 * a + r1) by {
      assert m == q * a + r1;
      assert q == q2 * b + r2;
      MulAssociative(q2, b, a);
    }
    MulMonotone(r2, b - 1, a);
    MulNonNegative(r2, a);
    DivUnique(m, a * b, q2, r2 * a + r1);
  }

  /** Bit i + 1 of x is bit i of x halved. */
  lemma HalfBits(x: int, i: nat)
    ensures TwosBit(x / 2, i) <==> TwosBit(x, i + 1)
  {
    DivDivInt(x, 2, Pow2(i));
  }

  /** Integers with the same bits below n are congruent modulo 2^n. */
  lemma {:induction false} BitsDetermine(x: int, y: int, n: nat)
    requires forall i :: 0 <= i < n ==> (TwosBit(x, i) <==> TwosBit(y, i))
    ensures (x - y) % Pow2(n) == 0
    decreases n
  {
    if n > 0 {
      forall i | 0 <= i < n - 1
        ensures TwosBit(x / 2, i) <==> TwosBit(y / 2, i)
      {
        HalfBits(x, i);
        HalfBits(y, i);
      }
      BitsDetermine(x / 2, y / 2, n - 1);
      var c := (x / 2 - y / 2) / Pow2(n - 1);
      assert x % 2 == y % 2 by {
        assert TwosBit(x, 0) <==> TwosBit(y, 0);
      }
      assert x - y == c * Pow2(n) by {
        assert x / 2 - y / 2 == c * Pow2(n - 1);
        assert x - y == 2 * (x / 2 - y / 2);
      }
      MultipleMod(c, Pow2(n));
    }
  }

  /** Two values of an n-bit type with the same n bits are equal. */
  lemma ValueFromBits(v: int, w: int, n: nat, signed: bool)
    requires InRange(v, n, signed) && InRange(w, n, signed)
    requires forall i :: 0 <= i < n ==> (TwosBit(v, i) <==> TwosBit(w, i))
    ensures v == w
  {
    BitsDetermine(v, w, n);
    ReduceCongruent(v, w, n, signed);
    ReduceInRange(v, n, signed);
    ReduceInRange(w, n, signed);
  }

  // ---------------------------------------------------------------------
  // setBits() on a number

  /** x with its bits in [b, e) set to v and its other bits kept; on a
      word this is the word-level setBits() that the class applies to its
      first and last words. */
  function SetRange(x: int, b: nat, e: nat, v: bool): int
    requires b <= e
  {
    (x / Pow2(e)) * Pow2(e) + (if v then Pow2(e) - Pow2(b) else 0) + x % Pow2(b)
  }

  /** The part of SetRange below 2^e. */
  lemma SetRangeLow(x: int, b: nat, e: nat, v: bool)
    requires b <= e
    ensures 0 <= SetRange(x, b, e, v) - (x / Pow2(e)) * Pow2(e) < Pow2(e)
  {
    Pow2Monotone(b, e);
  }

  lemma MiddleBit(h: int, l: int, p: int, j: int, t: int, v: bool)
    requires 0 <= l < p <= j && t >= 1
    ensures ((h * (j * (2 * t)) + (if v then j * (2 * t) - p else 0) + l) / j) % 2
      == if v then 1 else 0
  {
    var q := h * (2 * t) + (if v then 2 * t - 1 else 0);
    var r := (if v then j - p else 0) + l;
    assert h * (j * (2 * t)) + (if v then j * (2 * t) - p else 0) + l == q * j + r by {
      MulAssociative(h, 2 * t, j);
    }
    DivUnique(h * (j * (2 * t)) + (if v then j * (2 * t) - p else 0) + l, j, q, r);
    DivUnique(q, 2, h * t + (if v then t - 1 else 0), if v then 1 else 0);
  }

  /** SetRange changes exactly the bits in [b, e), to v. */
  lemma SetRangeBits(x: int, b: nat, e: nat, v: bool, j: nat)
    requires b <= e
    ensures TwosBit(SetRange(x, b, e, v), j) <==> if b <= j < e then v else TwosBit(x, j)
  {
    if j >= e {
      SetRangeHighBits(x, b, e, v, j);
    } else if j < b {
      SetRangeLowBits(x, b, e, v, j);
    } else {
      SetRangeMiddleBits(x, b, e, v, j);
    }
  }

  lemma SetRangeHighBits(x: int, b: nat, e: nat, v: bool, j: nat)
    requires b <= e <= j
    ensures TwosBit(SetRange(x, b, e, v), j) <==> TwosBit(x, j)
  {
    var y := SetRange(x, b, e, v);
    var q := Pow2(e);
    var h := x / q;
    assert y / q == h by {
      SetRangeLow(x, b, e, v);
      DivUnique(y, q, h, y - h * q);
    }
    assert Pow2(j) == q * Pow2(j - e) by {
      Pow2Add(e, j - e);
    }
    DivDivInt(y, q, Pow2(j - e));
    DivDivInt(x, q, Pow2(j - e));
  }

  lemma SetRangeLowBits(x: int, b: nat, e: nat, v: bool, j: nat)
    requires j < b <= e
    ensures TwosBit(SetRange(x, b, e, v), j) <==> TwosBit(x, j)
  {
    var y := SetRange(x, b, e, v);
    var p, q := Pow2(b), Pow2(e);
    var h := x / q;
    var d := Pow2(e - b);
    assert q == p * d by {
      Pow2Add(b, e - b);
    }
    var c := h * d + (if v then d - 1 else 0) - x / p;
    assert y - x == c * p by {
      assert x == (x / p) * p + x % p;
      MulAssociative(h, d, p);
    }
    MultipleMod(c, p);
    CongruentBits(y, x, b, j);
  }

  lemma SetRangeMiddleBits(x: int, b: nat, e: nat, v: bool, j: nat)
    requires b <= j < e
    ensures TwosBit(SetRange(x, b, e, v), j) <==> v
  {
    var p, q := Pow2(b), Pow2(e);
    var t := Pow2(e - j - 1);
    assert q == Pow2(j) * (2 * t) by {
      Pow2Add(j, e - j);
    }
    Pow2Monotone(b, j);
    MiddleBit(x / q, x % p, p, Pow2(j), t, v);
  }

  /** A multiple of q below q * d is at most q * d - q. */
  lemma BelowMultiple(w: int, q: int, d: int)
    requires q > 0 && 0 <= w < q * d
    ensures (w / q) * q <= q * d - q
  {
    var h := w / q;
    assert h * q <= w;
    if h >= d {
      MulMonotone(d, h, q);
    }
    MulMonotone(h, d - 1, q);
  }

  /** setBits() on a word keeps it a word. */
  lemma SetRangeWord(w: int, b: nat, e: nat, v: bool)
    requires 0 <= w < 0x10000 && b <= e <= 16
    ensures 0 <= SetRange(w, b, e, v) < 0x10000
  {
    var q := Pow2(e);
    var h := w / q;
    assert 0 <= h * q <= 0x10000 - q by {
      WordMultiple(w, e);
    }
    var y := SetRange(w, b, e, v);
    assert 0 <= y - h * q < q by {
      SetRangeLow(w, b, e, v);
    }
  }

  lemma WordMultiple(w: int, e: nat)
    requires 0 <= w < 0x10000 && e <= 16
    ensures 0 <= (w / Pow2(e)) * Pow2(e) <= 0x10000 - Pow2(e)
  {
    var q, d := Pow2(e), Pow2(16 - e);
    assert q * d == 0x10000 by {
      Pow2Add(e, 16 - e);
      Pow2Sixteen();
    }
    BelowMultiple(w, q, d);
    var h := w / q;
    if h < 0 {
      MulMonotone(h, -1, q);
    }
    MulNonNegative(h, q);
  }

  /** The words 0xFFFF and 0 have all their 16 bits set, or none. */
  lemma FullWordBits(v: bool, j: nat)
    requires j < 16
    ensures TwosBit(if v then 0xFFFF else 0, j) <==> v
  {
    if v {
      Pow2Sixteen();
      OnesBits(16, j);
    }
  }

  /** 2^m - 1 has exactly the bits below m. */
  lemma OnesBits(m: nat, j: nat)
    ensures TwosBit(Pow2(m) - 1, j) <==> j < m
  {
    assert SetRange(0, 0, m, true) == Pow2(m) - 1;
    SetRangeBits(0, 0, m, true, j);
  }

  // ---------------------------------------------------------------------
  // Bits of whole word vectors

  /** t is s with the bits in [b, e) set to v and every other bit kept. */
  ghost predicate BitsSetBetween(s: seq<int>, t: seq<int>, b: int, e: int, v: bool)
  {
    |t| == |s| &&
    forall i :: 0 <= i < 16 * |s| ==>
      (WordBit(t, i) <==> if b <= i < e then v else WordBit(s, i))
  }

  /** Setting two overlapping or adjacent ranges sets their union. */
  lemma SetBetweenUnion(s0: seq<int>, s1: seq<int>, s2: seq<int>,
                        b1: int, e1: int, b2: int, e2: int, v: bool)
    requires BitsSetBetween(s0, s1, b1, e1, v) && BitsSetBetween(s1, s2, b2, e2, v)
    requires b1 <= b2 <= e1 <= e2
    ensures BitsSetBetween(s0, s2, b1, e2, v)
  {
  }

  /** Setting the bits of one word: only that word's bits in [lo, hi). */
  lemma SetWordRangeBits(s: seq<int>, k: nat, lo: nat, hi: nat, v: bool)
    requires IsDigits(s) && k < |s| && lo <= hi <= 16
    ensures BitsSetBetween(s, s[k := SetRange(s[k], lo, hi, v)], 16 * k + lo, 16 * k + hi, v)
  {
    var t := s[k := SetRange(s[k], lo, hi, v)];
    forall i | 0 <= i < 16 * |s|
      ensures WordBit(t, i) <==> if 16 * k + lo <= i < 16 * k + hi then v else WordBit(s, i)
    {
      if i / 16 == k {
        SetRangeBits(s[k], lo, hi, v, i % 16);
      }
    }
  }

  /** Bits below n set in the words are set in the value. */
  lemma SetBitsMeaning(s: seq<int>, t: seq<int>, n: nat, signed: bool, b: int, e: int, v: bool)
    requires IsDigits(s) && IsDigits(t) && |s| == WordCount(n) && (signed ==> n > 0)
    requires BitsSetBetween(s, t, b, e, v)
    ensures BitsAfterSet(Reduce(Mag(s), n, signed), Reduce(Mag(t), n, signed), n, b, e, v)
  {
    forall i | 0 <= i < n
      ensures TwosBit(Reduce(Mag(t), n, signed), i)
        <==> if b <= i < e then v else TwosBit(Reduce(Mag(s), n, signed), i)
    {
      LowBits(s, n, signed, i);
      LowBits(t, n, signed, i);
    }
  }

  // ---------------------------------------------------------------------
  // The bit-range constructor

  /** t keeps the bits of s in [b, e) and has every other bit clear. */
  ghost predicate BitsKept(s: seq<int>, t: seq<int>, b: int, e: int)
  {
    |t| == |s| &&
    forall i :: 0 <= i < 16 * |s| ==> (WordBit(t, i) <==> b <= i < e && WordBit(s, i))
  }

  /** w has the bits of v in [b, e) and no other bit below n. */
  ghost predicate KeptBits(v: int, w: int, n: nat, b: int, e: int)
  {
    forall i :: 0 <= i < n ==> (TwosBit(w, i) <==> b <= i < e && TwosBit(v, i))
  }

  /** Clearing the bits from the bottom of a kept range up to b2 leaves
      the range from b2. */
  lemma KeptClearedBelow(s: seq<int>, t1: seq<int>, t2: seq<int>, b1: int, b2: int, e: int)
    requires BitsKept(s, t1, b1, e) && BitsSetBetween(t1, t2, b1, b2, false) && b1 <= b2
    ensures BitsKept(s, t2, b2, e)
  {
  }

  /** Clearing the bits from e2 to the top of a kept range leaves the range
      up to e2. */
  lemma KeptClearedAbove(s: seq<int>, t1: seq<int>, t2: seq<int>, b: int, e1: int, e2: int)
    requires BitsKept(s, t1, b, e1) && BitsSetBetween(t1, t2, e2, e1, false) && e2 <= e1
    ensures BitsKept(s, t2, b, e2)
  {
  }

  /** Zero words keep no bit, so they keep the empty range. */
  lemma ZeroWordsKept(s: seq<int>, t: seq<int>, b: int)
    requires |t| == |s| && forall j :: 0 <= j < |t| ==> t[j] == 0
    ensures BitsKept(s, t, b, b)
  {
    forall i | 0 <= i < 16 * |s|
      ensures !WordBit(t, i)
    {
      assert t[i / 16] == 0;
    }
  }

  /** Words copied over the positions [from, to) of zero words keep the
      bits [16 from, 16 to). */
  lemma CopiedWordsKept(s: seq<int>, t: seq<int>, from: int, to: int)
    requires |t| == |s| && forall j :: 0 <= j < |t| ==> t[j] == if from <= j < to then s[j] else 0
    ensures BitsKept(s, t, 16 * from, 16 * to)
  {
    forall i | 0 <= i < 16 * |s|
      ensures WordBit(t, i) <==> 16 * from <= i < 16 * to && WordBit(s, i)
    {
      var k := i / 16;
      assert 16 * k <= i < 16 * k + 16;
      assert from <= k < to <==> 16 * from <= i < 16 * to;
      assert t[k] == if from <= k < to then s[k] else 0;
    }
  }

  /** Bits below n kept in the words are kept in the value. */
  lemma KeptMeaning(s: seq<int>, t: seq<int>, n: nat, signed: bool, b: int, e: int)
    requires IsDigits(s) && IsDigits(t) && |s| == WordCount(n) && (signed ==> n > 0)
    requires BitsKept(s, t, b, e)
    ensures KeptBits(Reduce(Mag(s), n, signed), Reduce(Mag(t), n, signed), n, b, e)
  {
    forall i | 0 <= i < n
      ensures TwosBit(Reduce(Mag(t), n, signed), i)
        <==> b <= i < e && TwosBit(Reduce(Mag(s), n, signed), i)
    {
      LowBits(s, n, signed, i);
      LowBits(t, n, signed, i);
    }
  }

  // ---------------------------------------------------------------------
  // flipBits()

  /** Bitwise not: every bit of -1 - x is the opposite of x's. */
  lemma ComplementBits(x: int, j: nat)
    ensures TwosBit(-1 - x, j) <==> !TwosBit(x, j)
  {
    var p := Pow2(j);
    var q, r := x / p, x % p;
    DivUnique(-1 - x, p, -1 - q, p - 1 - r);
    DivUnique(-1 - q, 2, -1 - q / 2, 1 - q % 2);
  }

  /** The words with every word complemented stand for 2^(16k) - 1 - x. */
  lemma {:induction false} ComplementMag(s: seq<int>, t: seq<int>)
    requires |t| == |s| && forall i :: 0 <= i < |s| ==> t[i] == 0xFFFF - s[i]
    ensures Mag(t) == PowB(|s|) - 1 - Mag(s)
  {
    if |s| > 0 {
      ComplementMag(s[1..], t[1..]);
    }
  }

  // ---------------------------------------------------------------------
  // Congruence modulo 2^N

  /** The difference of a number and its reduction is a multiple of 2^n,
      in either order. */
  lemma ReduceDifference(x: int, n: nat, signed: bool)
    requires signed ==> n > 0
    ensures (x - Reduce(x, n, signed)) % Pow2(n) == 0
    ensures (Reduce(x, n, signed) - x) % Pow2(n) == 0
  {
    var p := Pow2(n);
    var k := (x - Reduce(x, n, signed)) / p;
    assert Reduce(x, n, signed) - x == (-k) * p;
    MultipleMod(-k, p);
  }

  /** Reducing an operand of a sum first does not change the reduced sum. */
  lemma ReduceSum(x: int, c: int, n: nat, signed: bool)
    requires signed ==> n > 0
    ensures Reduce(Reduce(x, n, signed) + c, n, signed) == Reduce(x + c, n, signed)
  {
    ReduceDifference(x, n, signed);
    ReduceCongruent(Reduce(x, n, signed) + c, x + c, n, signed);
  }

  /** Reducing the subtrahend first does not change the reduced difference. */
  lemma ReduceSubtrahend(x: int, c: int, n: nat, signed: bool)
    requires signed ==> n > 0
    ensures Reduce(c - Reduce(x, n, signed), n, signed) == Reduce(c - x, n, signed)
  {
    ReduceDifference(x, n, signed);
    ReduceCongruent(c - Reduce(x, n, signed), c - x, n, signed);
  }

  /** Reducing a factor first does not change the reduced product. */
  lemma ReduceProduct(x: int, c: int, n: nat, signed: bool)
    requires signed ==> n > 0
    ensures Reduce(Reduce(x, n, signed) * c, n, signed) == Reduce(x * c, n, signed)
  {
    var p, v := Pow2(n), Reduce(x, n, signed);
    var k := (v - x) / p;
    ReduceDifference(x, n, signed);
    assert v * c - x * c == (k * c) * p by {
      assert v - x == k * p;
      MulAssociative(k, p, c);
      MulAssociative(k, c, p);
    }
    MultipleMod(k * c, p);
    ReduceCongruent(v * c, x * c, n, signed);
  }

  // ---------------------------------------------------------------------
  // The bits an operation sets

  /** y has the bits of x below n, except those in [b, e), which are v. */
  ghost predicate BitsAfterSet(x: int, y: int, n: nat, b: int, e: int, v: bool)
  {
    forall i :: 0 <= i < n ==> (TwosBit(y, i) <==> if b <= i < e then v else TwosBit(x, i))
  }

  /** The n-bit value whose bits are x's with [b, e) set to v is x with
      SetRange applied, reduced to n bits. */
  lemma SetBitsValue(x: int, y: int, n: nat, signed: bool, b: nat, e: nat, v: bool)
    requires InRange(y, n, signed) && b <= e
    requires BitsAfterSet(x, y, n, b, e, v)
    ensures y == Reduce(SetRange(x, b, e, v), n, signed)
  {
    var z := Reduce(SetRange(x, b, e, v), n, signed);
    forall i | 0 <= i < n
      ensures TwosBit(y, i) <==> TwosBit(z, i)
    {
      SetRangeBits(x, b, e, v, i);
      CongruentBits(SetRange(x, b, e, v), z, n, i);
    }
    ValueFromBits(y, z, n, signed);
  }
}
