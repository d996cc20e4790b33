// The shifts of MultiInteger (pastel/sys/integer/multi_integer/multi_integer.h,
// operator<<= and operator>>=) on word vectors: each new word is made of the
// upper part of one old word and the lower part of its neighbour, and the
// bits of the result are the bits of the value shifted.
module MultiIntegerShifts {
  import opened Bits
  import opened BigDigits
  import opened BigIntegerShifts
  import opened MultiIntegerWords
  import opened MultiIntegerBits

  // ---------------------------------------------------------------------
  // Bits of shifted integers

  /** The bits of h * 2^t + c, where c < 2^t: below t those of c, from t
      up those of h. */
  lemma {:induction false} PlaceBits(h: int, c: int, t: nat, b: nat)
    requires 0 <= c < Pow2(t)
    ensures TwosBit(h * Pow2(t) + c, b) <==> if b >= t then TwosBit(h, b - t) else TwosBit(c, b)
  {
    var x := h * Pow2(t) + c;
    if b >= t {
      DivUnique(x, Pow2(t), h, c);
      DivDivInt(x, Pow2(t), Pow2(b - t));
      Pow2Add(t, b - t);
    } else {
      MultipleMod(h, Pow2(t));
      CongruentBits(x, c, t, b);
    }
  }

  /** v << a: bit i is bit i - a of v, and zero below a. */
  lemma {:induction false} ShiftedUpBit(v: int, a: nat, i: nat)
    ensures TwosBit(v * Pow2(a), i) <==> i >= a && TwosBit(v, i - a)
  {
    PlaceBits(v, 0, a, i);
  }

  /** v >> a, arithmetic: bit i is bit i + a of v. */
  lemma {:induction false} ShiftedDownBit(v: int, a: nat, i: nat)
    ensures TwosBit(v / Pow2(a), i) <==> TwosBit(v, i + a)
  {
    DivDivInt(v, Pow2(a), Pow2(i));
    Pow2Add(a, i);
  }

  /** Floor division by d >= 1 moves a value toward zero without
      crossing it. */
  lemma {:induction false} DivShrinks(v: int, d: int)
    requires d >= 1
    ensures v >= 0 ==> 0 <= v / d <= v
    ensures v < 0 ==> v <= v / d < 0
  {
    var q := v / d;
    assert v == q * d + v % d && 0 <= v % d < d;
    if v >= 0 {
      if q < 0 {
        MulMonotone(q, -1, d);
      }
      if q >= 1 {
        MulMonotone(1, d, q);
      }
    } else {
      if q >= 0 {
        MulNonNegative(q, d);
      }
      if q + 1 <= 0 {
        MulMonotone(1, d, -(q + 1));
      }
    }
  }

  /** Floor division by a power of two keeps a value of an n-bit type in
      range. */
  lemma {:induction false} ShiftedDownInRange(v: int, n: nat, signed: bool, a: nat)
    requires InRange(v, n, signed)
    ensures InRange(v / Pow2(a), n, signed)
  {
    DivShrinks(v, Pow2(a));
  }

  /** A word of all-zero or all-one bits. */
  predicate IsPadding(p: int)
  {
    p == 0 || p == 0xFFFF
  }

  // ---------------------------------------------------------------------
  // Funnel words

  /** (hi << u) + (lo >> (16 - u)) truncated to a 16-bit word: the top
      16 - u bits of the result are the low bits of hi and its low u bits
      are the top bits of lo. */
  function Funnel(hi: int, lo: int, u: nat): (w: int)
    requires u <= 16
    ensures 0 <= w < 0x10000
  {
    (hi * Pow2(u) + lo / Pow2(16 - u)) % 0x10000
  }

  lemma {:induction false} FunnelBits(hi: int, lo: int, u: nat, b: nat)
    requires 0 <= lo < 0x10000 && u <= 16 && b < 16
    ensures TwosBit(Funnel(hi, lo, u), b) <==>
      if b >= u then TwosBit(hi, b - u) else TwosBit(lo, b + 16 - u)
  {
    var c := lo / Pow2(16 - u);
    var x := hi * Pow2(u) + c;
    assert Funnel(hi, lo, u) == x % 0x10000;
    LowPartBound(lo, u);
    if b >= u {
      FunnelHigh(hi, c, x, u, b);
    } else {
      FunnelLow(hi, lo, c, x, u, b);
    }
  }

  /** A bit of the funnel at or above u comes from hi. */
  lemma FunnelHigh(hi: int, c: int, x: int, u: nat, b: nat)
    requires 0 <= c < Pow2(u) && x == hi * Pow2(u) + c && u <= b < 16
    ensures TwosBit(x % 0x10000, b) <==> TwosBit(hi, b - u)
  {
    WordTruncationBits(x, b);
    PlaceBits(hi, c, u, b);
  }

  /** A bit of the funnel below u comes from the top of lo. */
  lemma FunnelLow(hi: int, lo: int, c: int, x: int, u: nat, b: nat)
    requires b < u <= 16 && 0 <= c < Pow2(u) && c == lo / Pow2(16 - u) && x == hi * Pow2(u) + c
    ensures TwosBit(x % 0x10000, b) <==> TwosBit(lo, b + 16 - u)
  {
    FunnelKeep(hi, c, x, u, b);
    ShiftedDownBit(lo, 16 - u, b);
  }

  /** A bit of hi 2^u + c below u is a bit of c. */
  lemma FunnelKeep(hi: int, c: int, x: int, u: nat, b: nat)
    requires b < u <= 16 && 0 <= c < Pow2(u) && x == hi * Pow2(u) + c
    ensures TwosBit(x % 0x10000, b) <==> TwosBit(c, b)
  {
    WordTruncationBits(x, b);
    PlaceBits(hi, c, u, b);
  }

  /** lo >> (16 - u) of a word has at most u bits. */
  lemma {:induction false} LowPartBound(lo: int, u: nat)
    requires 0 <= lo < 0x10000 && u <= 16
    ensures 0 <= lo / Pow2(16 - u) < Pow2(u)
  {
    assert Pow2(16 - u) * Pow2(u) == 0x10000 by {
      Pow2Add(16 - u, u);
      Pow2Sixteen();
    }
    DivBelow(lo, Pow2(16 - u), Pow2(u));
  }

  /** Truncation to a word keeps the low 16 bits. */
  lemma {:induction false} WordTruncationBits(x: int, b: nat)
    requires b < 16
    ensures TwosBit(x % 0x10000, b) <==> TwosBit(x, b)
  {
    Pow2Sixteen();
    MultipleMod(-(x / 0x10000), 0x10000);
    assert x % 0x10000 - x == -(x / 0x10000) * 0x10000;
    CongruentBits(x % 0x10000, x, 16, b);
  }

  // ---------------------------------------------------------------------
  // operator<<=

  /** Word j after the word loop of operator<<= by 16 ws + t bits, once
      the words below ws are zero-filled. */
  function ShiftedLeftWord(s: seq<int>, ws: nat, t: nat, j: nat): (w: int)
    requires t < 16 && j < |s|
    ensures 0 <= w < 0x10000
  {
    if j < ws then 0
    else if j == ws then Funnel(s[0], 0, t)
    else Funnel(s[j - ws], s[j - ws - 1], t)
  }

  function ShiftedLeft(s: seq<int>, ws: nat, t: nat): (r: seq<int>)
    requires t < 16
    ensures |r| == |s| && IsDigits(r)
    ensures forall j :: 0 <= j < |s| ==> r[j] == ShiftedLeftWord(s, ws, t, j)
  {
    seq(|s|, j requires 0 <= j < |s| => ShiftedLeftWord(s, ws, t, j))
  }

  /** Bit i of the shifted words is bit i - a of the original words, and
      zero below a = 16 ws + t. */
  lemma {:induction false} ShiftedLeftBits(s: seq<int>, ws: nat, t: nat, i: nat)
    requires IsDigits(s) && t < 16 && i < 16 * |s|
    ensures WordBit(ShiftedLeft(s, ws, t), i) <==> i >= 16 * ws + t && WordBit(s, i - (16 * ws + t))
  {
    var k, b := i / 16, i % 16;
    var a := 16 * ws + t;
    var r := ShiftedLeft(s, ws, t);
    assert WordBit(r, i) <==> TwosBit(r[k], b);
    if k < ws {
      assert r[k] == 0;
    } else if k == ws {
      FunnelBits(s[0], 0, t, b);
      if b >= t {
        assert i - a == b - t;
      }
    } else {
      FunnelBits(s[k - ws], s[k - ws - 1], t, b);
      if b >= t {
        assert (i - a) / 16 == k - ws && (i - a) % 16 == b - t;
      } else {
        assert (i - a) / 16 == k - ws - 1 && (i - a) % 16 == b + 16 - t;
      }
    }
  }

  /** operator<<= by amount < N: the words, shifted and sign-extended,
      hold the value times 2^amount modulo 2^N. */
  lemma {:induction false} ShiftedUpValue(s: seq<int>, n: nat, signed: bool, amount: nat)
    requires IsDigits(s) && |s| == WordCount(n) && (signed ==> n > 0) && amount < n
    ensures var r := SignExtended(ShiftedLeft(s, amount / 16, amount % 16), n, signed);
      Mag(r) == Extension(Reduce(Mag(r), n, signed), n) &&
      Reduce(Mag(r), n, signed) == Reduce(Reduce(Mag(s), n, signed) * Pow2(amount), n, signed)
  {
    var t := ShiftedLeft(s, amount / 16, amount % 16);
    var w := Reduce(Reduce(Mag(s), n, signed) * Pow2(amount), n, signed);
    SignExtendedValue(t, n, signed);
    forall i | 0 <= i < n
      ensures TwosBit(Reduce(Mag(t), n, signed), i) <==> TwosBit(w, i)
    {
      ShiftLeftBit(s, n, signed, amount, i);
    }
    ValueFromBits(Reduce(Mag(t), n, signed), w, n, signed);
  }

  /** Bit i < N of the shifted words is bit i of the shifted value. */
  lemma {:induction false} ShiftLeftBit(s: seq<int>, n: nat, signed: bool, amount: nat, i: nat)
    requires IsDigits(s) && |s| == WordCount(n) && (signed ==> n > 0) && amount < n && i < n
    ensures var t := ShiftedLeft(s, amount / 16, amount % 16);
      TwosBit(Reduce(Mag(t), n, signed), i) <==>
      TwosBit(Reduce(Reduce(Mag(s), n, signed) * Pow2(amount), n, signed), i)
  {
    ShiftedWordsBit(s, n, signed, amount, i);
    ShiftedValueBit(Reduce(Mag(s), n, signed), n, signed, amount, i);
    if i >= amount {
      LowBits(s, n, signed, i - amount);
    }
  }

  /** Bit i < N of the value of the shifted words is bit i - amount of the
      words. */
  lemma {:induction false} ShiftedWordsBit(s: seq<int>, n: nat, signed: bool, amount: nat, i: nat)
    requires IsDigits(s) && |s| == WordCount(n) && (signed ==> n > 0) && amount < n && i < n
    ensures var t := ShiftedLeft(s, amount / 16, amount % 16);
      TwosBit(Reduce(Mag(t), n, signed), i) <==> i >= amount && WordBit(s, i - amount)
  {
    var t := ShiftedLeft(s, amount / 16, amount % 16);
    LowBits(t, n, signed, i);
    ShiftedLeftBits(s, amount / 16, amount % 16, i);
    assert 16 * (amount / 16) + amount % 16 == amount;
  }

  /** Bit i < N of v << amount, reduced, is bit i - amount of v. */
  lemma {:induction false} ShiftedValueBit(v: int, n: nat, signed: bool, amount: nat, i: nat)
    requires (signed ==> n > 0) && i < n
    ensures TwosBit(Reduce(v * Pow2(amount), n, signed), i) <==> i >= amount && TwosBit(v, i - amount)
  {
    ShiftedUpBit(v, amount, i);
    ReducedBit(v * Pow2(amount), n, signed, i);
  }

  /** Below N, reduction keeps the bits. */
  lemma {:induction false} ReducedBit(x: int, n: nat, signed: bool, i: nat)
    requires (signed ==> n > 0) && i < n
    ensures TwosBit(x, i) <==> TwosBit(Reduce(x, n, signed), i)
  {
    CongruentBits(x, Reduce(x, n, signed), n, i);
  }

  // ---------------------------------------------------------------------
  // operator>>=

  /** Word j after operator>>= by 16 ws + t bits when the bits above the
      words are the padding word p: the top word shifts in the padding and
      the words above it are padding. */
  function ShiftedRightWord(s: seq<int>, ws: nat, t: nat, p: int, j: nat): (w: int)
    requires t < 16 && j < |s| && IsPadding(p)
    ensures 0 <= w < 0x10000
  {
    if j + ws + 1 < |s| then Funnel(s[j + ws + 1], s[j + ws], 16 - t)
    else if j + ws + 1 == |s| then Funnel(p, s[|s| - 1], 16 - t)
    else p
  }

  function ShiftedRight(s: seq<int>, ws: nat, t: nat, p: int): (r: seq<int>)
    requires t < 16 && IsPadding(p)
    ensures |r| == |s| && IsDigits(r)
    ensures forall j :: 0 <= j < |s| ==> r[j] == ShiftedRightWord(s, ws, t, p, j)
  {
    seq(|s|, j requires 0 <= j < |s| => ShiftedRightWord(s, ws, t, p, j))
  }

  /** Bit m of the words followed by endless copies of the padding word. */
  predicate PaddedBit(s: seq<int>, p: int, m: nat)
  {
    if m < 16 * |s| then WordBit(s, m) else p == 0xFFFF
  }

  /** Bit i of the shifted words is bit i + 16 ws + t of the padded
      words. */
  lemma {:induction false} ShiftedRightBits(s: seq<int>, ws: nat, t: nat, p: int, i: nat)
    requires IsDigits(s) && t < 16 && IsPadding(p) && i < 16 * |s|
    ensures WordBit(ShiftedRight(s, ws, t, p), i) <==> PaddedBit(s, p, i + 16 * ws + t)
  {
    var k, b := i / 16, i % 16;
    var m := i + 16 * ws + t;
    var r := ShiftedRight(s, ws, t, p);
    assert WordBit(r, i) <==> TwosBit(r[k], b);
    if k + ws + 1 < |s| {
      FunnelBits(s[k + ws + 1], s[k + ws], 16 - t, b);
      if b + t >= 16 {
        assert m / 16 == k + ws + 1 && m % 16 == b + t - 16;
      } else {
        assert m / 16 == k + ws && m % 16 == b + t;
      }
    } else if k + ws + 1 == |s| {
      FunnelBits(p, s[|s| - 1], 16 - t, b);
      if b + t >= 16 {
        FullWordBits(p == 0xFFFF, b + t - 16);
      } else {
        assert m / 16 == k + ws && m % 16 == b + t;
      }
    } else {
      FullWordBits(p == 0xFFFF, b);
    }
  }

  /** The words of a valid integer, padded with its sign, hold every bit
      of its value. */
  lemma {:induction false} PaddedBitIsBit(s: seq<int>, n: nat, signed: bool, v: int, m: nat)
    requires IsDigits(s) && |s| == WordCount(n) && InRange(v, n, signed)
    requires Mag(s) == Extension(v, n)
    ensures PaddedBit(s, if v < 0 then 0xFFFF else 0, m) <==> TwosBit(v, m)
  {
    if m < 16 * |s| {
      WordBitIsBit(s, m);
      ExtensionBits(v, n, m);
    } else {
      if signed {
        Pow2Monotone(n - 1, n);
      }
      SignBits(v, n, m);
    }
  }

  /** The extension of v to whole words has v's bits below 16 Words. */
  lemma {:induction false} ExtensionBits(v: int, n: nat, m: nat)
    requires m < 16 * WordCount(n)
    ensures TwosBit(Extension(v, n), m) <==> TwosBit(v, m)
  {
    var p := PowB(WordCount(n));
    PowBIsPow2(WordCount(n));
    MultipleMod(-(v / p), p);
    assert Extension(v, n) - v == -(v / p) * p;
    CongruentBits(Extension(v, n), v, 16 * WordCount(n), m);
  }

  /** Words whose bits are those of a value in range hold its extension
      and denote it. */
  lemma {:induction false} WordsFromBits(s: seq<int>, w: int, n: nat, signed: bool)
    requires IsDigits(s) && |s| == WordCount(n) && InRange(w, n, signed)
    requires forall i :: 0 <= i < 16 * |s| ==> (WordBit(s, i) <==> TwosBit(w, i))
    ensures Mag(s) == Extension(w, n) && Reduce(Mag(s), n, signed) == w
  {
    var k := |s|;
    forall i | 0 <= i < 16 * k
      ensures TwosBit(Mag(s), i) <==> TwosBit(Extension(w, n), i)
    {
      WordBitIsBit(s, i);
      ExtensionBits(w, n, i);
    }
    BitsDetermine(Mag(s), Extension(w, n), 16 * k);
    MagBounds(s);
    EqualBelowPower(Mag(s), Extension(w, n), k);
    ExtensionReduce(w, n, signed);
    ReduceInRange(w, n, signed);
  }

  /** Two numbers in [0, 2^(16k)) congruent modulo 2^(16k) are equal. */
  lemma {:induction false} EqualBelowPower(x: int, y: int, k: nat)
    requires 0 <= x < PowB(k) && 0 <= y < PowB(k) && (x - y) % Pow2(16 * k) == 0
    ensures x == y
  {
    PowBIsPow2(k);
    SameResidue(x, y, PowB(k));
    DivUnique(x, PowB(k), 0, x);
    DivUnique(y, PowB(k), 0, y);
  }

  /** operator>>= by amount < N, with the padding word taken from the
      sign before the shift: the words hold the value divided by
      2^amount, rounded down, which is the arithmetic shift. */
  lemma {:induction false} ShiftedDownValue(s: seq<int>, n: nat, signed: bool, v: int, amount: nat)
    requires IsDigits(s) && |s| == WordCount(n) && (signed ==> n > 0) && amount < n
    requires v == Reduce(Mag(s), n, signed) && Mag(s) == Extension(v, n)
    ensures var r := ShiftedRight(s, amount / 16, amount % 16, if v < 0 then 0xFFFF else 0);
      Mag(r) == Extension(v / Pow2(amount), n) && Reduce(Mag(r), n, signed) == v / Pow2(amount)
  {
    var p := if v < 0 then 0xFFFF else 0;
    var r := ShiftedRight(s, amount / 16, amount % 16, p);
    var w := v / Pow2(amount);
    ShiftedDownInRange(v, n, signed, amount);
    forall i | 0 <= i < 16 * |r|
      ensures WordBit(r, i) <==> TwosBit(w, i)
    {
      ShiftedRightBits(s, amount / 16, amount % 16, p, i);
      PaddedBitIsBit(s, n, signed, v, i + amount);
      ShiftedDownBit(v, amount, i);
    }
    WordsFromBits(r, w, n, signed);
  }

  /** operator>>= as multi_integer.h runs it: the top word shifts in zeros,
      and only then is the padding word read from bit N - 1 of the
      shifted words. */
  function ShiftRightAsWritten(s: seq<int>, n: nat, signed: bool, amount: nat): (r: seq<int>)
    requires |s| == WordCount(n) && (signed ==> n > 0)
    ensures |r| == |s|
  {
    if amount >= n then Zeros(|s|)
    else
      var ws := amount / 16;
      var shifted := ShiftedRight(s, ws, amount % 16, 0);
      var padding := if signed && WordBit(shifted, n - 1) then 0xFFFF else 0;
      seq(|s|, j requires 0 <= j < |s| => if j < |s| - ws then shifted[j] else padding)
  }

  /** -2 >> 1 in 16-bit signed arithmetic: the words of multi_integer.h's operator>>= become
      0x7FFF, which is 32767, where the arithmetic shift gives -1. */
  lemma {:induction false} ShiftRightLosesSign(s: seq<int>)
    requires s == [0xFFFE]
    ensures Reduce(Mag(s), 16, true) == -2
    ensures ShiftRightAsWritten(s, 16, true, 1) == [0x7FFF]
    ensures Reduce(Mag([0x7FFF]), 16, true) == 32767
    ensures -2 / Pow2(1) == -1
  {
    Pow2Sixteen();
    assert Reduce(Mag(s), 16, true) == -2 by {
      assert Mag(s) == 0xFFFE by {
        assert s[1..] == [];
      }
      assert InRange(-2, 16, true);
      ReduceCongruent(0xFFFE, -2, 16, true);
      ReduceInRange(-2, 16, true);
    }
    assert Reduce(Mag([0x7FFF]), 16, true) == 32767 by {
      assert Mag([0x7FFF]) == 0x7FFF by {
        assert [0x7FFF][1..] == [];
      }
      assert InRange(32767, 16, true);
      ReduceInRange(32767, 16, true);
    }
    assert ShiftRightAsWritten(s, 16, true, 1) == [0x7FFF] by {
      var shifted := ShiftedRight(s, 0, 1, 0);
      assert shifted[0] == Funnel(0, 0xFFFE, 15) == 0x7FFF by {
        assert Pow2(15) == 0x8000 && Pow2(1) == 2;
      }
      assert !WordBit(shifted, 15) by {
        assert 0x7FFF / Pow2(15) == 0;
      }
    }
    assert Pow2(1) == 2;
  }

}
