// The arithmetic behind MultiInteger (pastel/sys/integer/multi_integer/
// multi_integer.h): an N-bit integer kept in 16-bit words, least
// significant first, read as two's complement when signed. These are the
// facts about word vectors and residues modulo 2^N that the class's
// operations rely on.
module MultiIntegerWords {
  import opened Bits
  import opened BigDigits
  import opened BigIntegerShifts

  /** The number of 16-bit words that hold n bits, rounded up. */
  function WordCount(n: nat): (k: nat)
    ensures n <= 16 * k < n + 16
  {
    (n + 15) / 16
  }

  /** The padding of the last word: the bits above n in whole words. */
  lemma PaddingWidth(n: nat)
    ensures 16 * WordCount(n) - n == if n % 16 == 0 then 0 else 16 - n % 16
  {
    var k, r := n / 16, n % 16;
    assert n == 16 * k + r && 0 <= r < 16;
    if r == 0 {
      DivUnique(n + 15, 16, k, 15);
    } else {
      DivUnique(n + 15, 16, k + 1, r - 1);
    }
  }

  /** Bit b lies in word b / 16 at position b % 16; the next word
      boundary at or above b is b itself or the end of that word. */
  lemma WordSplit(b: nat)
    ensures b == 16 * (b / 16) + b % 16 && 0 <= b % 16 < 16
    ensures 16 * ((b + 15) / 16) == if b % 16 == 0 then b else 16 * (b / 16) + 16
  {
    var k, r := b / 16, b % 16;
    if r == 0 {
      DivUnique(b + 15, 16, k, 15);
    } else {
      DivUnique(b + 15, 16, k + 1, r - 1);
    }
  }

  /** Whether v is a value of an n-bit integer: [-2^(n-1), 2^(n-1)) when
      signed, [0, 2^n) when not. */
  predicate InRange(v: int, n: nat, signed: bool)
  {
    if !signed then 0 <= v < Pow2(n)
    else n > 0 && -(Pow2(n - 1) as int) <= v < Pow2(n - 1)
  }

  /** The i-th bit of v in two's complement, for any integer v: the
      division rounds down, so a negative v has infinitely many 1-bits. */
  predicate TwosBit(v: int, i: nat)
  {
    (v / Pow2(i)) % 2 == 1
  }

  lemma MultipleMod(k: int, m: int)
    requires m > 0
    ensures (k * m) % m == 0
  {
    DivUnique(k * m, m, k, 0);
  }

  lemma ModShift(a: int, k: int, m: int)
    requires m > 0
    ensures (a + k * m) % m == a % m
  {
    DivUnique(a + k * m, m, a / m + k, a % m);
  }

  lemma SameResidue(x: int, y: int, m: int)
    requires m > 0 && (x - y) % m == 0
    ensures x % m == y % m
  {
    var k := (x - y) / m;
    assert x == y + k * m;
    ModShift(y, k, m);
  }

  /** A multiple of 2^k is a multiple of every smaller power of two. */
  lemma DividesPowers(x: int, n: nat, k: nat)
    requires n <= k && x % Pow2(k) == 0
    ensures x % Pow2(n) == 0
  {
    var a, b := Pow2(n), Pow2(k - n);
    Pow2Add(n, k - n);
    MultipleOfProduct(x, a, b);
  }

  /** A multiple of a * b is a multiple of a. */
  lemma MultipleOfProduct(x: int, a: int, b: int)
    requires a > 0 && b > 0 && x % (a * b) == 0
    ensures x % a == 0
  {
    var c := x / (a * b);
    assert x == c * (a * b);
    MulAssociative(c, b, a);
    MultipleMod(c * b, a);
  }

  /** The n-bit integer whose bits are the low n bits of x: the residue
      of x modulo 2^n, moved below 2^(n-1) when signed. */
  function Reduce(x: int, n: nat, signed: bool): (v: int)
    requires signed ==> n > 0
    ensures InRange(v, n, signed)
    ensures (x - v) % Pow2(n) == 0
  {
    var m := Pow2(n);
    var u := x % m;
    assert (x - u) % m == 0 by {
      assert x - u == (x / m) * m;
      MultipleMod(x / m, m);
    }
    if signed && u >= Pow2(n - 1) then
      assert (x - (u - m)) % m == 0 by {
        assert x - (u - m) == (x / m + 1) * m;
        MultipleMod(x / m + 1, m);
      }
      u - m
    else
      u
  }

  lemma ReduceCongruent(x: int, y: int, n: nat, signed: bool)
    requires signed ==> n > 0
    requires (x - y) % Pow2(n) == 0
    ensures Reduce(x, n, signed) == Reduce(y, n, signed)
  {
    SameResidue(x, y, Pow2(n));
  }

  /** The number whose two's-complement digits the word loop of the
      unsigned native constructor stores for a `width`-bit unsigned value:
      arithmeticShiftRight shifts in copies of the native top bit, so a
      value with that bit set is read as that - 2^width. */
  function SignFilled(that: nat, width: nat): (r: int)
    requires width > 0 && that < Pow2(width)
    ensures r == that || r == that - Pow2(width)
    ensures r < 0 <==> that >= Pow2(width - 1)
  {
    if that >= Pow2(width - 1) then that - Pow2(width) else that
  }

  /** An unsigned native value with its top bit set, stored into a wider
      unsigned integer by the constructor as written, becomes
      that + 2^n - 2^width instead of that itself: the documented value
      mod(that, 2^N) is lost. */
  lemma UnsignedTopBitSignFilled(that: nat, width: nat, n: nat)
    requires 0 < width < n && Pow2(width - 1) <= that < Pow2(width)
    ensures Reduce(that, n, false) == that
    ensures Reduce(SignFilled(that, width), n, false) == that + Pow2(n) - Pow2(width)
    ensures Reduce(SignFilled(that, width), n, false) != Reduce(that, n, false)
  {
    Pow2Monotone(width, n);
    Pow2Monotone(width + 1, n);
    ReduceInRange(that, n, false);
    var wrapped := that + Pow2(n) - Pow2(width);
    assert (SignFilled(that, width) - wrapped) % Pow2(n) == 0 by {
      assert SignFilled(that, width) - wrapped == -1 * Pow2(n);
      MultipleMod(-1, Pow2(n));
    }
    ReduceCongruent(SignFilled(that, width), wrapped, n, false);
    ReduceInRange(wrapped, n, false);
  }

  /** A value of the type reduces to itself. */
  lemma ReduceInRange(v: int, n: nat, signed: bool)
    requires InRange(v, n, signed)
    ensures Reduce(v, n, signed) == v
  {
    if v < 0 {
      DivUnique(v, Pow2(n), -1, v + Pow2(n));
    } else {
      DivUnique(v, Pow2(n), 0, v);
    }
  }

  /** The bit pattern that the words of an n-bit integer with value v hold:
      v modulo 2^(16 * WordCount(n)), that is, v extended to whole words
      with copies of the sign bit (signed) or with zeros (unsigned). */
  function Extension(v: int, n: nat): (m: nat)
    ensures m < PowB(WordCount(n))
  {
    v % PowB(WordCount(n))
  }

  /** Reducing a number modulo the word capacity keeps its low n bits. */
  lemma ReduceWords(x: int, n: nat, signed: bool)
    requires signed ==> n > 0
    ensures Reduce(x % PowB(WordCount(n)), n, signed) == Reduce(x, n, signed)
  {
    var k := WordCount(n);
    var p := PowB(k);
    var d := x - x % p;
    assert d % Pow2(16 * k) == 0 by {
      assert d == (x / p) * p;
      MultipleMod(x / p, p);
      PowBIsPow2(k);
    }
    DividesPowers(d, n, 16 * k);
    ReduceCongruent(x, x % p, n, signed);
  }

  lemma ExtensionReduce(x: int, n: nat, signed: bool)
    requires signed ==> n > 0
    ensures Reduce(Extension(x, n), n, signed) == Reduce(x, n, signed)
  {
    ReduceWords(x, n, signed);
  }

  /** Words equal as patterns iff their values are equal. */
  lemma ExtensionInjective(v: int, w: int, n: nat, signed: bool)
    requires InRange(v, n, signed) && InRange(w, n, signed)
    ensures Extension(v, n) == Extension(w, n) <==> v == w
  {
    if Extension(v, n) == Extension(w, n) {
      ExtensionReduce(v, n, signed);
      ExtensionReduce(w, n, signed);
      ReduceInRange(v, n, signed);
      ReduceInRange(w, n, signed);
    }
  }

  // ---------------------------------------------------------------------
  // signExtend(): the last word's bits above N

  /** signExtend() on the last word of an n-bit integer with n % 16 = r > 0:
      the bits from r up become copies of bit r - 1 (signed) or zeros
      (unsigned); `& LastWordMask` keeps the low r bits and `| ~LastWordMask`
      sets the others. */
  function ExtendedTopWord(w: int, n: nat, signed: bool): (w': int)
    requires 0 <= w < 0x10000 && n % 16 > 0
    ensures 0 <= w' < 0x10000
  {
    var r := n % 16;
    Pow2Monotone(r, 16);
    Pow2Sixteen();
    if signed && (w / Pow2(r - 1)) % 2 == 1 then w % Pow2(r) + (0x10000 - Pow2(r))
    else w % Pow2(r)
  }

  /** Bit r - 1 of w is set iff the low r bits of w are at least 2^(r-1). */
  lemma TopBitOfResidue(w: nat, r: nat)
    requires r > 0
    ensures (w / Pow2(r - 1)) % 2 == 1 <==> w % Pow2(r) >= Pow2(r - 1)
  {
    var h := Pow2(r - 1);
    assert Pow2(r) == 2 * h;
    var q, t := w / (2 * h), w % (2 * h);
    assert w == q * (2 * h) + t;
    if t >= h {
      DivUnique(w, h, 2 * q + 1, t - h);
      DivUnique(2 * q + 1, 2, q, 1);
    } else {
      DivUnique(w, h, 2 * q, t);
      DivUnique(2 * q, 2, q, 0);
    }
  }

  /** The residue of lo + w * b modulo b * m, for lo below b. */
  lemma TopResidue(lo: int, w: int, b: int, m: int)
    requires 0 <= lo < b && 0 <= w && m > 0
    ensures (lo + w * b) % (b * m) == lo + (w % m) * b
    ensures 0 <= lo + (w % m) * b < b * m
  {
    var wh, wl := w / m, w % m;
    assert w * b == wh * (b * m) + wl * b by {
      assert w == wh * m + wl;
      MulAssociative(wh, m, b);
    }
    assert wl * b <= (m - 1) * b by {
      MulMonotone(wl, m - 1, b);
    }
    MulNonNegative(wl, b);
    DivUnique(lo + w * b, b * m, wh, lo + wl * b);
  }

  /** With lo below b, lo + w * b reaches h * b iff w reaches h. */
  lemma Threshold(lo: int, w: int, b: int, h: int)
    requires 0 <= lo < b && 0 <= w && h > 0
    ensures lo + w * b >= h * b <==> w >= h
  {
    if w >= h {
      MulMonotone(h, w, b);
    } else {
      MulMonotone(w, h - 1, b);
    }
  }

  /** The extension of a negative n-bit value: 2^(16k) added. */
  lemma NegativeExtension(lo: int, wl: int, b: int, m: int)
    requires 0 <= lo < b && 0 <= wl < m <= 0x10000
    ensures (lo + wl * b - b * m) % (b * 0x10000) == lo + (wl + 0x10000 - m) * b
  {
    assert lo + (wl + 0x10000 - m) * b == lo + wl * b + (0x10000 - m) * b;
    MulNonNegative(wl, b);
    MulNonNegative(0x10000 - m, b);
    MulMonotone(wl, m - 1, b);
    DivUnique(lo + wl * b - b * m, b * 0x10000, -1, lo + (wl + 0x10000 - m) * b);
  }

  /** The extension of a non-negative n-bit value is the value. */
  lemma PositiveExtension(u: int, b: int, m: int)
    requires 0 <= u < b * m && 0 < m <= 0x10000 && b > 0
    ensures u % (b * 0x10000) == u
  {
    MulMonotone(m, 0x10000, b);
    DivUnique(u, b * 0x10000, 0, u);
  }

  /** The powers of two that the last word of an n-bit integer splits
      2^n into: b = 2^(16(k-1)) below it, m = 2^r in it. */
  lemma TopWordPowers(n: nat)
    requires n % 16 > 0
    ensures Pow2(n) == PowB(WordCount(n) - 1) * Pow2(n % 16)
    ensures Pow2(n - 1) == Pow2(n % 16 - 1) * PowB(WordCount(n) - 1)
    ensures PowB(WordCount(n)) == PowB(WordCount(n) - 1) * 0x10000
    ensures Pow2(n % 16) <= 0x10000 && Pow2(n % 16) == 2 * Pow2(n % 16 - 1)
  {
    var k, r := WordCount(n), n % 16;
    assert n == 16 * (k - 1) + r;
    WordPower(n, k - 1, r);
    ghost var h, b := Pow2(r - 1), PowB(k - 1);
    WordPower(n - 1, k - 1, r - 1);
    assert Pow2(n - 1) == h * b;
    assert Pow2(r) <= 0x10000 by {
      Pow2Monotone(r, 16);
      Pow2Sixteen();
    }
  }

  /** 2^(16k + r) is the k-th power of the base times 2^r. */
  lemma WordPower(m: nat, k: nat, r: nat)
    requires m == 16 * k + r
    ensures Pow2(m) == PowB(k) * Pow2(r)
  {
    PowBIsPow2(k);
    Pow2Add(16 * k, r);
  }

  /** signExtend() leaves the words holding the extension of the value
      that their low n bits stand for. */
  lemma ExtendTop(lo: int, w: int, n: nat, signed: bool)
    requires signed ==> n > 0
    requires n % 16 > 0 && 0 <= w < 0x10000
    requires 0 <= lo < PowB(WordCount(n) - 1)
    ensures lo + ExtendedTopWord(w, n, signed) * PowB(WordCount(n) - 1)
      == Extension(Reduce(lo + w * PowB(WordCount(n) - 1), n, signed), n)
  {
    var b := PowB(WordCount(n) - 1);
    var r := n % 16;
    var m, h := Pow2(r), Pow2(r - 1);
    TopWordPowers(n);
    var wl := w % m;
    var u := lo + wl * b;
    TopResidue(lo, w, b, m);
    Threshold(lo, wl, b, h);
    TopBitOfResidue(w, r);
    var v := Reduce(lo + w * b, n, signed);
    if signed && u >= Pow2(n - 1) {
      assert v == u - b * m;
      NegativeExtension(lo, wl, b, m);
    } else {
      assert v == u;
      PositiveExtension(u, b, m);
    }
  }

  // ---------------------------------------------------------------------
  // bit(i)

  /** Bit i of a word vector, read from its word as bit(i) does. */
  predicate WordBit(s: seq<int>, i: nat)
    requires i < 16 * |s|
  {
    (s[i / 16] / Pow2(i % 16)) % 2 == 1
  }

  lemma DigitBitAlgebra(d: int, r: int, p: int, q: int)
    requires 0 <= d && p > 0
    ensures ((d + (p * (2 * q)) * r) / p) % 2 == (d / p) % 2
  {
    var k := 2 * (q * r);
    assert (p * (2 * q)) * r == k * p;
    DivUnique(d + k * p, p, d / p + k, d % p);
    ModShift(d / p, q * r, 2);
  }

  lemma SixteenSplit(b: nat)
    requires b < 16
    ensures Pow2(b) * (2 * Pow2(15 - b)) == 0x10000
  {
    assert Pow2(16 - b) == 2 * Pow2(15 - b);
    Pow2Add(b, 16 - b);
    Pow2Sixteen();
  }

  /** Bit b of d + 0x10000 * r is bit b of the digit d. */
  lemma DigitBit(d: int, r: int, b: nat)
    requires 0 <= d < 0x10000 && b < 16
    ensures ((d + 0x10000 * r) / Pow2(b)) % 2 == (d / Pow2(b)) % 2
  {
    SixteenSplit(b);
    DigitBitAlgebra(d, r, Pow2(b), Pow2(15 - b));
  }

  /** The words from j up, as a number, are the number divided by 2^(16j). */
  lemma MagHighPart(s: seq<int>, j: nat)
    requires IsDigits(s) && j <= |s|
    ensures Mag(s) / PowB(j) == Mag(s[j..])
  {
    MagSplit(s, j);
    MagBounds(s[..j]);
    MagBounds(s[j..]);
    DivUnique(Mag(s), PowB(j), Mag(s[j..]), Mag(s[..j]));
  }

  /** The word-wise reading of bit i agrees with bit i of the number. */
  lemma WordBitIsBit(s: seq<int>, i: nat)
    requires IsDigits(s) && i < 16 * |s|
    ensures WordBit(s, i) <==> TwosBit(Mag(s), i)
  {
    var j, b := i / 16, i % 16;
    var high := Mag(s[j..]);
    assert Mag(s) / Pow2(i) == high / Pow2(b) by {
      MagHighPart(s, j);
      PowBIsPow2(j);
      Pow2Add(16 * j, b);
      MagBounds(s);
      DivDiv(Mag(s), PowB(j), Pow2(b));
    }
    assert high == s[j] + 0x10000 * Mag(s[j + 1..]) by {
      assert s[j..][1..] == s[j + 1..];
    }
    DigitBit(s[j], Mag(s[j + 1..]), b);
  }

  lemma CongruentAlgebra(x: int, y: int, p: int, q: int, c: int)
    requires p > 0 && x == y + c * (p * (2 * q))
    ensures (x / p) % 2 == (y / p) % 2
  {
    assert c * (p * (2 * q)) == (2 * (c * q)) * p;
    DivUnique(x, p, y / p + 2 * (c * q), y % p);
    ModShift(y / p, c * q, 2);
  }

  /** Numbers that agree modulo 2^n agree in their bits below n. */
  lemma CongruentBits(x: int, y: int, n: nat, i: nat)
    requires (x - y) % Pow2(n) == 0 && i < n
    ensures TwosBit(x, i) <==> TwosBit(y, i)
  {
    var p, q := Pow2(i), Pow2(n - i - 1);
    assert Pow2(n) == p * (2 * q) by {
      Pow2Add(i, n - i);
    }
    CongruentAlgebra(x, y, p, q, (x - y) / Pow2(n));
  }

  /** Above the top bit of a value in [-2^m, 2^m) every bit is the sign. */
  lemma SignBits(v: int, m: nat, i: nat)
    requires -(Pow2(m) as int) <= v < Pow2(m) && m <= i
    ensures v / Pow2(i) == if v < 0 then -1 else 0
  {
    Pow2Monotone(m, i);
    if v < 0 {
      DivUnique(v, Pow2(i), -1, v + Pow2(i));
    } else {
      DivUnique(v, Pow2(i), 0, v);
    }
  }

  /** bit(i) as multi_integer.h reads it: beyond N, the last bit for a signed
      integer and false for an unsigned one. */
  predicate SourceBit(s: seq<int>, n: nat, signed: bool, i: nat)
    requires |s| == WordCount(n) && (signed ==> n > 0)
  {
    if i >= n then signed && WordBit(s, n - 1) else WordBit(s, i)
  }

  /** Words that hold the extension of their value: bit(i) is bit i of the
      value's two's complement form, for every i. */
  lemma SourceBitMeaning(s: seq<int>, n: nat, signed: bool, i: nat)
    requires IsDigits(s) && |s| == WordCount(n) && (signed ==> n > 0)
    requires Mag(s) == Extension(Reduce(Mag(s), n, signed), n)
    ensures SourceBit(s, n, signed, i) <==> TwosBit(Reduce(Mag(s), n, signed), i)
  {
    var v := Reduce(Mag(s), n, signed);
    if i < n {
      WordBitIsBit(s, i);
      CongruentBits(Mag(s), v, n, i);
    } else if signed {
      WordBitIsBit(s, n - 1);
      CongruentBits(Mag(s), v, n, n - 1);
      SignBits(v, n - 1, n - 1);
      SignBits(v, n - 1, i);
    } else {
      SignBits(v, n, i);
    }
  }
}
