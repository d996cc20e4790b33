// Conversions out of MultiInteger (pastel/sys/integer/multi_integer/
// multi_integer.h): to a native integer (asNative), to the number of 1-bits
// (oneBits) and to text in a base from 2 to 36 (asString). The functions
// here are the reference meanings those members are proved against.
module MultiIntegerConversion {
  import opened Bits
  import opened BigDigits
  import opened BigIntegerShifts
  import opened MultiIntegerWords

  // ---------------------------------------------------------------------
  // asNative()

  /** bitMask(b, e) of a native type: the bits in [b, e) set; nothing when
      the range is empty. */
  function Mask(b: nat, e: nat): (r: nat)
    ensures b < e ==> r + Pow2(b) == Pow2(e)
    ensures b >= e ==> r == 0
  {
    if b < e then Pow2Monotone(b, e); Pow2(e) - Pow2(b) else 0
  }

  /** Two multiples of m add up to a multiple of m. */
  lemma MultipleSum(x: int, y: int, m: int)
    requires m > 0 && x % m == 0 && y % m == 0
    ensures (x + y) % m == 0
  {
    assert x + y == (x / m + y / m) * m;
    MultipleMod(x / m + y / m, m);
  }

  /** The words of an n-bit integer agree with its value modulo the
      capacity of the words. */
  lemma ExtensionCongruent(v: int, n: nat)
    ensures (Extension(v, n) - v) % Pow2(16 * WordCount(n)) == 0
  {
    var p := PowB(WordCount(n));
    PowBIsPow2(WordCount(n));
    assert Extension(v, n) - v == (-(v / p)) * p;
    MultipleMod(-(v / p), p);
  }

  /** The first k words agree with all of them modulo 2^(16k). */
  lemma PrefixCongruent(s: seq<int>, k: nat)
    requires k <= |s|
    ensures (Mag(s[..k]) - Mag(s)) % Pow2(16 * k) == 0
  {
    MagSplit(s, k);
    assert Mag(s[..k]) - Mag(s) == (-Mag(s[k..])) * PowB(k);
    MultipleMod(-Mag(s[k..]), PowB(k));
    PowBIsPow2(k);
  }

  /** Enough words for the native type: the low words are congruent to
      the value modulo 2^bits. */
  lemma NativeFromLowWords(low: int, all: int, v: int, bits: nat, ns: bool, a: nat, b: nat)
    requires (ns ==> bits > 0) && bits <= a <= b
    requires (low - all) % Pow2(a) == 0 && (all - v) % Pow2(b) == 0
    ensures Reduce(low, bits, ns) == Reduce(v, bits, ns)
  {
    DividesPowers(low - all, bits, a);
    DividesPowers(all - v, bits, b);
    MultipleSum(low - all, all - v, Pow2(bits));
    ReduceCongruent(low, v, bits, ns);
  }

  /** Too few words for the native type: the words hold the value modulo
      2^(16k), and for a negative value the mask of the native bits above
      them restores it. */
  lemma NativeFromAllWords(v: int, n: nat, signed: bool, bits: nat, ns: bool)
    requires InRange(v, n, signed) && (ns ==> bits > 0)
    requires 16 * WordCount(n) < bits
    ensures Reduce(Extension(v, n) + (if signed && v < 0 then Mask(16 * WordCount(n), bits) else 0), bits, ns)
      == Reduce(v, bits, ns)
  {
    var k := WordCount(n);
    var p := PowB(k);
    PowBIsPow2(k);
    Pow2Monotone(n, 16 * k);
    if v >= 0 {
      DivUnique(v, p, 0, v);
    } else {
      assert Pow2(n) == 2 * Pow2(n - 1);
      DivUnique(v, p, -1, v + p);
      MultipleMod(1, Pow2(bits));
      ReduceCongruent(v + Pow2(bits), v, bits, ns);
    }
  }

  /** What asNative() computes: the first wc words (as many as the native
      type has room for, and no more than the integer has), reduced to the
      native width, with the native bits above those words set when the
      integer is negative; this is the integer's value reduced to the
      native width. */
  lemma AsNativeValue(s: seq<int>, n: nat, signed: bool, bits: nat, ns: bool, wc: nat)
    requires IsDigits(s) && |s| == WordCount(n) && (signed ==> n > 0) && (ns ==> bits > 0)
    requires Mag(s) == Extension(Reduce(Mag(s), n, signed), n)
    requires wc == if WordCount(bits) < |s| then WordCount(bits) else |s|
    ensures var v := Reduce(Mag(s), n, signed);
      Reduce(Mag(s[..wc]) + (if signed && v < 0 then Mask(16 * wc, bits) else 0), bits, ns)
        == Reduce(v, bits, ns)
  {
    var v := Reduce(Mag(s), n, signed);
    if WordCount(bits) <= |s| {
      ExtensionCongruent(v, n);
      PrefixCongruent(s, wc);
      NativeFromLowWords(Mag(s[..wc]), Mag(s), v, bits, ns, 16 * wc, 16 * |s|);
    } else {
      assert s[..wc] == s;
      NativeFromAllWords(v, n, signed, bits, ns);
    }
  }

  // ---------------------------------------------------------------------
  // oneBits()

  /** The number of 1-bits of x in [lo, hi), in two's complement. */
  function Ones(x: int, lo: nat, hi: nat): (r: nat)
    ensures r <= if lo <= hi then hi - lo else 0
    decreases hi
  {
    if hi <= lo then 0 else Ones(x, lo, hi - 1) + (if TwosBit(x, hi - 1) then 1 else 0)
  }

  /** Counting over [lo, mid) and then [mid, hi) counts over [lo, hi). */
  lemma {:induction false} OnesSplit(x: int, lo: nat, mid: nat, hi: nat)
    requires lo <= mid <= hi
    ensures Ones(x, lo, hi) == Ones(x, lo, mid) + Ones(x, mid, hi)
    decreases hi
  {
    if hi > mid {
      OnesSplit(x, lo, mid, hi - 1);
    }
  }

  /** Bit ranges that agree, at offsets a and b, have the same count. */
  lemma {:induction false} OnesShifted(x: int, a: nat, y: int, b: nat, k: nat)
    requires forall j :: a <= j < a + k ==> (TwosBit(x, j) <==> TwosBit(y, j - a + b))
    ensures Ones(x, a, a + k) == Ones(y, b, b + k)
  {
    if k > 0 {
      OnesShifted(x, a, y, b, k - 1);
      assert TwosBit(x, a + k - 1) <==> TwosBit(y, b + k - 1);
    }
  }

  /** A range whose bits are all v counts its length or nothing. */
  lemma {:induction false} OnesConstant(x: int, lo: nat, hi: nat, v: bool)
    requires lo <= hi
    requires forall j :: lo <= j < hi ==> (TwosBit(x, j) <==> v)
    ensures Ones(x, lo, hi) == if v then hi - lo else 0
    decreases hi
  {
    if hi > lo {
      OnesConstant(x, lo, hi - 1, v);
    }
  }

  /** -1 has every bit set. */
  lemma AllOnesCount(k: nat)
    ensures Ones(-1, 0, k) == k
  {
    forall j | 0 <= j < k
      ensures TwosBit(-1, j) <==> true
    {
      SignBits(-1, 0, j);
    }
    OnesConstant(-1, 0, k, true);
  }

  /** The bits of word i of a vector are bits 16i to 16i + 15 of its value. */
  lemma WordOnes(s: seq<int>, i: nat)
    requires IsDigits(s) && i < |s|
    ensures Ones(Mag(s), 16 * i, 16 * i + 16) == Ones(s[i], 0, 16)
  {
    forall j | 16 * i <= j < 16 * i + 16
      ensures TwosBit(Mag(s), j) <==> TwosBit(s[i], j - 16 * i + 0)
    {
      DivUnique(j, 16, i, j - 16 * i);
      WordBitIsBit(s, j);
    }
    OnesShifted(Mag(s), 16 * i, s[i], 0, 16);
  }

  /** Numbers congruent modulo 2^m have the same 1-bits below n <= m. */
  lemma CongruentOnes(x: int, y: int, n: nat, m: nat)
    requires n <= m && (x - y) % Pow2(m) == 0
    ensures Ones(x, 0, n) == Ones(y, 0, n)
  {
    forall j | 0 <= j < 0 + n
      ensures TwosBit(x, j) <==> TwosBit(y, j - 0 + 0)
    {
      CongruentBits(x, y, m, j);
    }
    OnesShifted(x, 0, y, 0, n);
  }

  /** Above bit n - 1 (signed) or n (unsigned) of a value of the type,
      within 2^m of which it is congruent to x, x's bits are the sign. */
  lemma PaddingOnes(x: int, v: int, n: nat, signed: bool, m: nat)
    requires InRange(v, n, signed) && n <= m && (x - v) % Pow2(m) == 0
    ensures Ones(x, n, m) == if v < 0 then m - n else 0
  {
    forall j | n <= j < m
      ensures TwosBit(x, j) <==> v < 0
    {
      CongruentBits(x, v, m, j);
      if signed {
        SignBits(v, n - 1, j);
      } else {
        SignBits(v, n, j);
      }
    }
    OnesConstant(x, n, m, v < 0);
  }

  /** The words of an n-bit integer hold its n bits and above them copies
      of its sign, so they count its 1-bits plus, when it is negative, the
      padding up to whole words. */
  lemma PaddedOnes(s: seq<int>, n: nat, signed: bool)
    requires IsDigits(s) && |s| == WordCount(n) && (signed ==> n > 0)
    requires Mag(s) == Extension(Reduce(Mag(s), n, signed), n)
    ensures var v := Reduce(Mag(s), n, signed);
      Ones(Mag(s), 0, 16 * |s|) == Ones(v, 0, n) + (if v < 0 then 16 * |s| - n else 0)
  {
    var v := Reduce(Mag(s), n, signed);
    ExtensionCongruent(v, n);
    OnesSplit(Mag(s), 0, n, 16 * |s|);
    CongruentOnes(Mag(s), v, n, 16 * |s|);
    PaddingOnes(Mag(s), v, n, signed, 16 * |s|);
  }

  // ---------------------------------------------------------------------
  // asString()

  /** integerAsDigit(): 0-9 as '0'-'9', then 10-35 as 'a'-'z'. */
  function DigitChar(d: nat): (c: char)
    requires d < 36
    ensures DigitValue(c) == d && c != '-'
  {
    if d < 10 then ('0' as int + d) as char else ('a' as int + (d - 10)) as char
  }

  /** The digit a character stands for; -1 for anything else. */
  function DigitValue(c: char): int
  {
    if '0' <= c <= '9' then c as int - '0' as int
    else if 'a' <= c <= 'z' then c as int - 'a' as int + 10
    else -1
  }

  /** The digits of m in the base, most significant first, no leading
      zero; nothing for zero. */
  function Digits(m: nat, base: nat): (s: string)
    requires 2 <= base <= 36
    decreases m
  {
    if m == 0 then [] else Digits(m / base, base) + [DigitChar(m % base)]
  }

  /** What asString() promises: "0" for zero, otherwise the digits of the
      magnitude, after a minus sign when negative. */
  function Numeral(v: int, base: nat): (s: string)
    requires 2 <= base <= 36
  {
    if v == 0 then "0"
    else if v < 0 then "-" + Digits(-v, base)
    else Digits(v, base)
  }

  /** Reading digits back, most significant first. */
  function DigitsValue(s: string, base: nat): int
  {
    if |s| == 0 then 0 else DigitsValue(s[..|s| - 1], base) * base + DigitValue(s[|s| - 1])
  }

  /** Reading a numeral back: an optional minus sign and digits. */
  function NumeralValue(s: string, base: nat): int
  {
    if |s| > 0 && s[0] == '-' then -DigitsValue(s[1..], base) else DigitsValue(s, base)
  }

  /** Dividing by the base makes a positive number smaller. */
  lemma QuotientSmaller(m: nat, base: nat)
    requires base >= 2 && m > 0
    ensures 0 <= m / base < m && m == (m / base) * base + m % base
  {
    var q := m / base;
    if q < 0 {
      MulMonotone(q, -1, base);
    }
    if q >= m {
      MulMonotone(m, q, base);
      MulStrict(1, base, m);
    }
  }

  /** The digits read back give the number. */
  lemma {:induction false} DigitsRoundTrip(m: nat, base: nat)
    requires 2 <= base <= 36
    ensures DigitsValue(Digits(m, base), base) == m
    decreases m
  {
    if m > 0 {
      QuotientSmaller(m, base);
      var q, c := m / base, DigitChar(m % base);
      var s := Digits(q, base);
      assert Digits(m, base) == s + [c];
      assert (s + [c])[..|s|] == s;
      assert DigitsValue(s + [c], base) == DigitsValue(s, base) * base + DigitValue(c);
      DigitsRoundTrip(q, base);
      assert DigitsValue(s, base) * base == q * base;
    }
  }

  /** A positive number's digits start with a non-zero digit and are never
      a minus sign. */
  lemma {:induction false} DigitsShape(m: nat, base: nat)
    requires 2 <= base <= 36 && m > 0
    ensures |Digits(m, base)| > 0 && Digits(m, base)[0] != '0'
    ensures forall i :: 0 <= i < |Digits(m, base)| ==> Digits(m, base)[i] != '-'
    decreases m
  {
    QuotientSmaller(m, base);
    var q, c := m / base, DigitChar(m % base);
    assert Digits(m, base) == Digits(q, base) + [c];
    if q > 0 {
      DigitsShape(q, base);
    } else {
      assert Digits(q, base) == [];
      assert m % base == m;
    }
  }

  /** asString() in any base reads back as the number. */
  lemma NumeralRoundTrip(v: int, base: nat)
    requires 2 <= base <= 36
    ensures NumeralValue(Numeral(v, base), base) == v
  {
    if v == 0 {
      assert DigitsValue("0", base) == DigitsValue([], base) * base + 0;
    } else if v < 0 {
      assert ("-" + Digits(-v, base))[1..] == Digits(-v, base);
      DigitsRoundTrip(-v, base);
    } else {
      DigitsShape(v, base);
      DigitsRoundTrip(v, base);
    }
  }

  /** std::reverse, as a value. */
  function Reversed(s: string): (r: string)
    ensures |r| == |s|
  {
    if |s| == 0 then [] else Reversed(s[1..]) + [s[0]]
  }

  /** Reversing a string with one more character at its end puts that
      character first. */
  lemma {:induction false} ReversedAppend(s: string, c: char)
    ensures Reversed(s + [c]) == [c] + Reversed(s)
  {
    if |s| > 0 {
      assert (s + [c])[1..] == s[1..] + [c];
      ReversedAppend(s[1..], c);
    } else {
      assert Reversed([c]) == Reversed([]) + [c];
    }
  }

  /** The first digit of p taken in advance. */
  lemma DigitsInAdvance(p: nat, base: nat)
    requires 2 <= base <= 36 && p > 0
    ensures Digits(p, base) == Digits(p / base, base) + Reversed([DigitChar(p % base)])
  {
    assert Reversed([DigitChar(p % base)]) == [DigitChar(p % base)] by {
      assert [DigitChar(p % base)][1..] == [];
    }
  }

  /** One step of asString()'s loop: the low digit of t appended to the
      reversed digits, and t divided by the base, keep the digits of m. */
  lemma DigitStep(m: nat, t: nat, result: string, base: nat, t': nat, result': string)
    requires 2 <= base <= 36 && t > 0
    requires Digits(m, base) == Digits(t, base) + Reversed(result)
    requires t' == t / base && result' == result + [DigitChar(t % base)]
    ensures Digits(m, base) == Digits(t', base) + Reversed(result')
  {
    QuotientSmaller(t, base);
    ReversedAppend(result, DigitChar(t % base));
  }
}
