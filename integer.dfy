// Integer (pastel/sys/integer.h): the older fixed-size N-bit integer with
// the same representation as MultiInteger: 16-bit words, least significant
// first, the padding bits of the last word kept as a sign- or
// zero-extension by signExtend(). Its constructors, bit operations, shifts,
// operator<, operator-- and oneBits() have MultiInteger's code; what
// differs is modelled here: operator+= and operator-= keep their own carry
// and borrow tests, and toString() writes the bits as characters.
module Integers {
  import opened Bits
  import opened BigDigits
  import opened BigIntegerShifts
  import opened MultiIntegerWords
  import opened MultiIntegerBits
  import opened MultiIntegers

  // ---------------------------------------------------------------------
  // operator+= and operator-= as written

  /** The carry into word i in operator+= as written: 1 exactly when the
      word below came out smaller than it was. */
  function CarryAsWritten(L: seq<int>, R: seq<int>, i: nat): (c: int)
    requires i <= |L| == |R|
    ensures c == 0 || c == 1
  {
    if i == 0 then 0
    else if (L[i - 1] + R[i - 1] + CarryAsWritten(L, R, i - 1)) % 0x10000 < L[i - 1] then 1
    else 0
  }

  /** Word i of operator+= as written: the sum with the carry, modulo
      2^16. */
  function SumWordAsWritten(L: seq<int>, R: seq<int>, i: nat): (w: int)
    requires i < |L| == |R|
    ensures 0 <= w < 0x10000
  {
    (L[i] + R[i] + CarryAsWritten(L, R, i)) % 0x10000
  }

  /** The words of operator+= as written. */
  function SumAsWritten(L: seq<int>, R: seq<int>): (t: seq<int>)
    requires |L| == |R|
    ensures |t| == |L| && IsDigits(t)
  {
    seq(|L|, j requires 0 <= j < |L| => SumWordAsWritten(L, R, j))
  }

  /** The borrow from word i in operator-= as written: 1 exactly when the
      word below came out larger than it was. */
  function BorrowAsWritten(L: seq<int>, R: seq<int>, i: nat): (c: int)
    requires i <= |L| == |R|
    ensures c == 0 || c == 1
  {
    if i == 0 then 0
    else if (L[i - 1] - R[i - 1] - BorrowAsWritten(L, R, i - 1)) % 0x10000 > L[i - 1] then 1
    else 0
  }

  /** Word i of operator-= as written: the difference with the borrow,
      modulo 2^16. */
  function DifferenceWordAsWritten(L: seq<int>, R: seq<int>, i: nat): (w: int)
    requires i < |L| == |R|
    ensures 0 <= w < 0x10000
  {
    (L[i] - R[i] - BorrowAsWritten(L, R, i)) % 0x10000
  }

  /** The words of operator-= as written. */
  function DifferenceAsWritten(L: seq<int>, R: seq<int>): (t: seq<int>)
    requires |L| == |R|
    ensures |t| == |L| && IsDigits(t)
  {
    seq(|L|, j requires 0 <= j < |L| => DifferenceWordAsWritten(L, R, j))
  }

  /** The carry test of operator+= misses the carry when that's word is
      0xFFFF and a carry comes in: the word sum wraps all the way round to
      the old word. For N = 48, 0xFFFF + 0xFFFF0001 = 2^32 comes out as 0. */
  lemma CarryLost(L: seq<int>, R: seq<int>)
    requires L == [0xFFFF, 0, 0] && R == [1, 0xFFFF, 0]
    ensures SumAsWritten(L, R) == [0, 0, 0] && Mag(SumAsWritten(L, R)) == 0
    ensures Mag(L) + Mag(R) == PowB(2) == Reduce(Mag(L) + Mag(R), 48, false)
  {
    assert CarryAsWritten(L, R, 1) == 1;
    assert CarryAsWritten(L, R, 2) == 0;
    assert SumAsWritten(L, R) == [0, 0, 0];
    assert Mag([0, 0, 0]) == 0 by {
      assert [0, 0, 0] == Zeros(3);
      MagZeros(3);
    }
    assert Mag(L) == 0xFFFF by {
      assert L[1..] == Zeros(2);
      MagZeros(2);
    }
    assert Mag(R) == 0xFFFF0001 by {
      assert R[1..][1..] == Zeros(1);
      MagZeros(1);
    }
    assert PowB(2) == 0x1_0000_0000;
    assert Pow2(48) > 0x1_0000_0000 by {
      PowBIsPow2(3);
    }
    ReduceInRange(PowB(2), 48, false);
  }

  /** The borrow test of operator-= misses the borrow in the same way: for
      N = 48, 2^32 - 0xFFFF0001 = 0xFFFF comes out as 2^32 + 0xFFFF. */
  lemma BorrowLost(L: seq<int>, R: seq<int>)
    requires L == [0, 0, 1] && R == [1, 0xFFFF, 0]
    ensures DifferenceAsWritten(L, R) == [0xFFFF, 0, 1]
    ensures Mag(DifferenceAsWritten(L, R)) == PowB(2) + 0xFFFF
    ensures Mag(L) - Mag(R) == 0xFFFF
  {
    assert BorrowAsWritten(L, R, 1) == 1;
    assert BorrowAsWritten(L, R, 2) == 0;
    assert DifferenceAsWritten(L, R) == [0xFFFF, 0, 1];
    assert Mag([1]) == 1 by {
      assert [1][1..] == Zeros(0);
      MagZeros(0);
    }
    assert Mag([0, 1]) == 0x10000 by {
      assert [0, 1][1..] == [1];
    }
    assert Mag([0xFFFF, 0, 1]) == PowB(2) + 0xFFFF by {
      assert [0xFFFF, 0, 1][1..] == [0, 1];
    }
    assert Mag(L) == PowB(2) by {
      assert L[1..] == [0, 1];
    }
    assert Mag(R) == 0xFFFF0001 by {
      assert R[1..][1..] == Zeros(1);
      MagZeros(1);
    }
  }

  // ---------------------------------------------------------------------
  // operator+= and operator-= with the carry and borrow they need

  /** A borrow is taken when something was subtracted and the word did not
      shrink. */
  lemma BorrowOut(a: int, b: int, c: int, w: int, c': int)
    requires 0 <= a < 0x10000 && 0 <= b < 0x10000 && (c == 0 || c == 1)
    requires w == (a - b - c) % 0x10000
    requires c' == if (b > 0 || c > 0) && w >= a then 1 else 0
    ensures w - c' * 0x10000 == a - b - c && 0 <= w < 0x10000
  {
  }

  /** One word of operator-=: the word and the borrow out of it extend
      the difference of the prefixes by one word. */
  lemma BorrowStep(done: seq<int>, L: seq<int>, R: seq<int>, i: nat, borrow: int, x: int, borrow': int)
    requires i < |L| == |R| && |done| == i
    requires Mag(done) - borrow * PowB(i) == Mag(L[..i]) - Mag(R[..i])
    requires x - borrow' * 0x10000 == L[i] - R[i] - borrow
    ensures Mag(done + [x]) - borrow' * PowB(i + 1) == Mag(L[..i + 1]) - Mag(R[..i + 1])
  {
    AddStep(done, L, -Mag(R[..i]), i, -borrow, -R[i], x, -borrow');
    PrefixAppend(R, i);
  }

  /** The words of a difference, with the borrow out of the top word
      dropped, denote the difference of the values modulo 2^N. */
  lemma {:induction false} DifferenceValue(L: seq<int>, R: seq<int>, t: seq<int>, borrow: int, n: nat, signed: bool)
    requires |L| == |t| == WordCount(n) && (signed ==> n > 0)
    requires Mag(t) - borrow * PowB(|t|) == Mag(L) - Mag(R)
    ensures Reduce(Mag(t), n, signed)
      == Reduce(Reduce(Mag(L), n, signed) - Reduce(Mag(R), n, signed), n, signed)
  {
    var a, b := Mag(L), Mag(R);
    var ra := Reduce(a, n, signed);
    assert Reduce(Mag(t), n, signed) == Reduce(a - b, n, signed) by {
      WordsCongruent(Mag(t), a - b, borrow, n, signed);
    }
    assert Reduce(a - b, n, signed) == Reduce(ra - b, n, signed) by {
      ReduceSum(a, -b, n, signed);
    }
    ReduceSubtrahend(b, ra, n, signed);
  }

  // ---------------------------------------------------------------------
  // toString()

  /** The character toString() writes for a bit. */
  function BitChar(b: bool): (c: char)
    ensures c == '0' || c == '1'
  {
    if b then '1' else '0'
  }

  /** Whether text spells the bits n - 1 down to 0 of v, one character per
      bit, the most significant first. */
  ghost predicate SpellsBits(text: string, v: int, n: nat)
  {
    |text| == n && forall k :: 0 <= k < n ==> text[k] == BitChar(TwosBit(v, n - 1 - k))
  }

  /** The number a string of '0' and '1' spells in base 2, most significant
      character first. */
  function BinaryValue(text: string): (v: nat)
  {
    if |text| == 0 then 0
    else 2 * BinaryValue(text[..|text| - 1]) + (if text[|text| - 1] == '1' then 1 else 0)
  }

  lemma HalfResidue(v: int, n: nat)
    requires n > 0
    ensures 2 * ((v / 2) % Pow2(n - 1)) + v % 2 == v % Pow2(n)
  {
    var q, r := (v / 2) / Pow2(n - 1), (v / 2) % Pow2(n - 1);
    assert v == q * Pow2(n) + (2 * r + v % 2);
    DivUnique(v, Pow2(n), q, 2 * r + v % 2);
  }

  /** Reading the text back: the characters that spell the low n bits of
      v denote v modulo 2^n. */
  lemma {:induction false} SpelledValue(text: string, v: int, n: nat)
    requires SpellsBits(text, v, n)
    ensures BinaryValue(text) == v % Pow2(n)
    decreases n
  {
    if n > 0 {
      var head := text[..n - 1];
      forall k | 0 <= k < n - 1
        ensures head[k] == BitChar(TwosBit(v / 2, n - 2 - k))
      {
        HalfBits(v, n - 2 - k);
      }
      SpelledValue(head, v / 2, n - 1);
      assert text[n - 1] == BitChar(v % 2 == 1);
      HalfResidue(v, n);
    }
  }

  /** When N fills whole words, the physical bits toString() reads from the
      top are the value's bits. */
  lemma WholeWordsText(s: seq<int>, n: nat, signed: bool, k: nat)
    requires IsDigits(s) && |s| == WordCount(n) && (signed ==> n > 0)
    requires n % 16 == 0 && k < n
    ensures 16 * |s| - 1 - k == n - 1 - k
    ensures WordBit(s, n - 1 - k) <==> TwosBit(Reduce(Mag(s), n, signed), n - 1 - k)
  {
    PaddingWidth(n);
    LowBits(s, n, signed, n - 1 - k);
  }

  /** Bits 12 to 31 of the words [1, 0] are clear. */
  lemma HighBitsClear(s: seq<int>, i: nat)
    requires s == [1, 0] && 12 <= i < 32
    ensures !WordBit(s, i)
  {
    if i >= 16 {
      DivUnique(i, 16, 1, i - 16);
    } else {
      DivUnique(i, 16, 0, i);
      Pow2Monotone(1, i);
      DivUnique(1, Pow2(i), 0, 1);
    }
  }

  /** toString() as written starts at the top of the last word, so when N
      does not fill it the text holds padding bits and loses the low bits:
      the 20-bit unsigned 1, whose bit 0 is set, is written as twenty '0's
      read from bits 31 down to 12. */
  lemma PaddingPrinted(s: seq<int>)
    requires s == [1, 0]
    ensures IsDigits(s) && Mag(s) == Extension(1, 20) && Reduce(Mag(s), 20, false) == 1
    ensures TwosBit(1, 0)
    ensures forall i :: 12 <= i < 32 ==> !WordBit(s, i)
  {
    assert Mag(s) == 1 by {
      assert s[1..] == Zeros(1);
      MagZeros(1);
    }
    Pow2Sixteen();
    assert Pow2(20) >= 0x10000 by {
      Pow2Monotone(16, 20);
    }
    assert PowB(2) == 0x1_0000_0000;
    ReduceInRange(1, 20, false);
    forall i | 12 <= i < 32
      ensures !WordBit(s, i)
    {
      HighBitsClear(s, i);
    }
  }

  // ---------------------------------------------------------------------
  // negative()

  /** Bit 15 of the last word is the top physical bit of the words. */
  lemma TopWordBit(s: seq<int>)
    requires IsDigits(s) && |s| > 0
    ensures WordBit(s, 16 * |s| - 1) <==> s[|s| - 1] >= 0x8000
  {
    DivUnique(16 * |s| - 1, 16, |s| - 1, 15);
    Pow2Sixteen();
  }

  /** A value and its extension to whole words agree modulo 2^(16 k). */
  lemma ExtensionCongruent(v: int, n: nat)
    ensures (Extension(v, n) - v) % Pow2(16 * WordCount(n)) == 0
  {
    var p := PowB(WordCount(n));
    var q, r := v / p, v % p;
    PowBIsPow2(WordCount(n));
    assert v == q * p + r;
    assert r - v == (-q) * p;
    MultipleMod(-q, p);
  }

  /** The top bit of a signed value extended to whole words is its sign. */
  lemma ExtensionTopBit(v: int, n: nat)
    requires InRange(v, n, true)
    ensures TwosBit(Extension(v, n), 16 * WordCount(n) - 1) <==> v < 0
  {
    var k := WordCount(n);
    var top := 16 * k - 1;
    assert TwosBit(Extension(v, n), top) <==> TwosBit(v, top) by {
      ExtensionCongruent(v, n);
      CongruentBits(Extension(v, n), v, 16 * k, top);
    }
    assert v / Pow2(top) == if v < 0 then -1 else 0 by {
      SignBits(v, n - 1, top);
    }
  }

  /** The top bit of the last word of a valid signed integer is its sign. */
  lemma TopWordSign(s: seq<int>, n: nat)
    requires IsDigits(s) && |s| == WordCount(n) && n > 0
    requires Mag(s) == Extension(Reduce(Mag(s), n, true), n)
    ensures s[|s| - 1] >= 0x8000 <==> Reduce(Mag(s), n, true) < 0
  {
    TopWordBit(s);
    WordBitIsBit(s, 16 * |s| - 1);
    ExtensionTopBit(Reduce(Mag(s), n, true), n);
  }

  /** abs(x) of a negative value that is not the smallest is -x. */
  lemma AbsOfNegative(v: int, n: nat)
    requires n > 0 && -(Pow2(n - 1) as int) < v < 0
    ensures Reduce(-v, n, true) == -v
  {
    ReduceInRange(-v, n, true);
  }

  /** abs(x) of the smallest signed value is itself: its negation wraps. */
  lemma AbsOfSmallest(n: nat)
    requires n > 0
    ensures Reduce(Pow2(n - 1), n, true) == -(Pow2(n - 1) as int)
  {
    ReduceCongruent(Pow2(n - 1), -(Pow2(n - 1) as int), n, true) by {
      assert Pow2(n - 1) - -(Pow2(n - 1) as int) == 1 * Pow2(n);
      MultipleMod(1, Pow2(n));
    }
    ReduceInRange(-(Pow2(n - 1) as int), n, true);
  }

  class Integer {
    /** N, the number of bits. */
    const n: nat
    /** Whether the bits are read in two's complement. */
    const signed: bool
    /** wordSet_: the 16-bit words, least significant first. */
    const words: array<int>

    ghost predicate WellFormed()
      reads words
    {
      (signed ==> n > 0) && words.Length == WordCount(n) && IsDigits(words[..])
    }

    /** The integer the low N bits of the words denote. */
    ghost function Value(): int
      reads words
      requires WellFormed()
    {
      Reduce(Mag(words[..]), n, signed)
    }

    /** The class invariant: the padding bits of the last word extend the
        low N bits. */
    ghost predicate Valid()
      reads words
    {
      WellFormed() && Mag(words[..]) == Extension(Value(), n)
    }

    predicate SameType(that: Integer)
    {
      that.n == n && that.signed == signed
    }

    /** signExtend(): the padding of the last word follows bit N - 1. */
    method SignExtend()
      requires WellFormed()
      modifies words
      ensures Valid() && Value() == old(Value())
      ensures words[..] == SignExtended(old(words[..]), n, signed)
    {
      ghost var s := words[..];
      if n % 16 > 0 {
        var last := words.Length - 1;
        words[last] := ExtendedTopWord(words[last], n, signed);
      }
      assert words[..] == SignExtended(s, n, signed);
      SignExtendedValue(s, n, signed);
    }

    /** Integer(): zero. */
    constructor Zero(n: nat, signed: bool)
      requires signed ==> n > 0
      ensures this.n == n && this.signed == signed && fresh(words)
      ensures Valid() && Value() == 0
    {
      this.n := n;
      this.signed := signed;
      words := new int[WordCount(n)](_ => 0);
      new;
      ZeroWordsValue(words[..], n, signed);
    }

    /** The copy constructor. */
    constructor Copy(that: Integer)
      requires that.Valid()
      ensures n == that.n && signed == that.signed && fresh(words)
      ensures words[..] == that.words[..]
      ensures Valid() && Value() == that.Value()
    {
      n := that.n;
      signed := that.signed;
      words := new int[that.words.Length];
      new;
      forall i | 0 <= i < words.Length {
        words[i] := that.words[i];
      }
      CopyValid(that);
    }

    /** Words equal to a valid integer's words of the same type are valid
        and denote its value. */
    lemma CopyValid(that: Integer)
      requires that.Valid() && SameType(that) && words[..] == that.words[..]
      ensures Valid() && Value() == that.Value()
    {
      assert Mag(words[..]) == Mag(that.words[..]);
    }

    /** operator+= as written: the loop of SumAsWritten, then signExtend(). */
    method AddAsWritten(that: Integer)
      requires Valid() && that.Valid() && SameType(that)
      modifies words
      ensures WellFormed()
      ensures words[..] == SignExtended(SumAsWritten(old(words[..]), old(that.words[..])), n, signed)
    {
      ghost var L := words[..];
      ghost var R := that.words[..];
      var carry := 0;
      var i := 0;
      while i < words.Length
        invariant 0 <= i <= words.Length && carry == CarryAsWritten(L, R, i)
        invariant forall j :: i <= j < words.Length ==> words[j] == L[j] && that.words[j] == R[j]
        invariant forall j :: 0 <= j < i ==> words[j] == SumWordAsWritten(L, R, j)
      {
        var before := words[i];
        var other := that.words[i];
        words[i] := (before + other + carry) % 0x10000;
        carry := if words[i] < before then 1 else 0;
        i := i + 1;
      }
      assert words[..] == SumAsWritten(L, R);
      SignExtend();
    }

    /** operator-= as written: the loop of DifferenceAsWritten, then
        signExtend(). */
    method SubtractAsWritten(that: Integer)
      requires Valid() && that.Valid() && SameType(that)
      modifies words
      ensures WellFormed()
      ensures words[..] == SignExtended(DifferenceAsWritten(old(words[..]), old(that.words[..])), n, signed)
    {
      ghost var L := words[..];
      ghost var R := that.words[..];
      var borrow := 0;
      var i := 0;
      while i < words.Length
        invariant 0 <= i <= words.Length && borrow == BorrowAsWritten(L, R, i)
        invariant forall j :: i <= j < words.Length ==> words[j] == L[j] && that.words[j] == R[j]
        invariant forall j :: 0 <= j < i ==> words[j] == DifferenceWordAsWritten(L, R, j)
      {
        var before := words[i];
        var other := that.words[i];
        words[i] := (before - other - borrow) % 0x10000;
        borrow := if words[i] > before then 1 else 0;
        i := i + 1;
      }
      assert words[..] == DifferenceAsWritten(L, R);
      SignExtend();
    }

    /** operator+= with the carry it needs: a carry comes out of a word
        when something was added and the word did not grow. The sum is
        taken modulo 2^N. */
    method Add(that: Integer)
      requires Valid() && that.Valid() && SameType(that)
      modifies words
      ensures Valid() && Value() == Reduce(old(Value()) + old(that.Value()), n, signed)
    {
      ghost var L := words[..];
      ghost var R := that.words[..];
      var carry := AddWords(that, L, R);
      SumValue(L, R, words[..], carry, n, signed);
      SignExtend();
    }

    method AddWords(that: Integer, ghost L: seq<int>, ghost R: seq<int>) returns (carry: int)
      requires Valid() && that.Valid() && SameType(that)
      requires L == words[..] && R == that.words[..]
      modifies words
      ensures WellFormed() && (carry == 0 || carry == 1)
      ensures Mag(words[..]) + carry * PowB(|L|) == Mag(L) + Mag(R)
    {
      carry := 0;
      var i := 0;
      while i < words.Length
        invariant 0 <= i <= words.Length
        invariant carry == 0 || carry == 1
        invariant IsDigits(words[..i])
        invariant forall j :: i <= j < words.Length ==> words[j] == L[j] && that.words[j] == R[j]
        invariant Mag(words[..i]) + carry * PowB(i) == Mag(L[..i]) + Mag(R[..i])
      {
        ghost var done := words[..i];
        var before := words[i];
        var nonZero := that.words[i] > 0;
        words[i] := (words[i] + that.words[i] + carry) % 0x10000;
        var carry' := if (nonZero || carry > 0) && words[i] <= before then 1 else 0;
        CarryOut(before, R[i], carry, words[i], carry');
        AddStep(done, L, Mag(R[..i]), i, carry, R[i], words[i], carry');
        PrefixAppend(R, i);
        assert words[..i + 1] == done + [words[i]];
        carry := carry';
        i := i + 1;
      }
      assert words[..] == words[..i];
      assert L == L[..i] && R == R[..i];
    }

    /** operator-= with the borrow it needs: a borrow is taken when
        something was subtracted and the word did not shrink. The
        difference is taken modulo 2^N. */
    method Subtract(that: Integer)
      requires Valid() && that.Valid() && SameType(that)
      modifies words
      ensures Valid() && Value() == Reduce(old(Value()) - old(that.Value()), n, signed)
    {
      ghost var L := words[..];
      ghost var R := that.words[..];
      var borrow := SubtractWords(that, L, R);
      DifferenceValue(L, R, words[..], borrow, n, signed);
      SignExtend();
    }

    method SubtractWords(that: Integer, ghost L: seq<int>, ghost R: seq<int>) returns (borrow: int)
      requires Valid() && that.Valid() && SameType(that)
      requires L == words[..] && R == that.words[..]
      modifies words
      ensures WellFormed() && (borrow == 0 || borrow == 1)
      ensures Mag(words[..]) - borrow * PowB(|L|) == Mag(L) - Mag(R)
    {
      borrow := 0;
      var i := 0;
      while i < words.Length
        invariant 0 <= i <= words.Length
        invariant borrow == 0 || borrow == 1
        invariant IsDigits(words[..i])
        invariant forall j :: i <= j < words.Length ==> words[j] == L[j] && that.words[j] == R[j]
        invariant Mag(words[..i]) - borrow * PowB(i) == Mag(L[..i]) - Mag(R[..i])
      {
        ghost var done := words[..i];
        var before := words[i];
        var nonZero := that.words[i] > 0;
        words[i] := (words[i] - that.words[i] - borrow) % 0x10000;
        var borrow' := if (nonZero || borrow > 0) && words[i] >= before then 1 else 0;
        BorrowOut(before, R[i], borrow, words[i], borrow');
        BorrowStep(done, L, R, i, borrow, words[i], borrow');
        assert words[..i + 1] == done + [words[i]];
        borrow := borrow';
        i := i + 1;
      }
      assert words[..] == words[..i];
      assert L == L[..i] && R == R[..i];
    }

    /** flipBits(): every word complemented, -1 - x modulo 2^N. */
    method FlipBits()
      requires Valid()
      modifies words
      ensures Valid() && Value() == Reduce(-1 - old(Value()), n, signed)
    {
      ghost var s0 := words[..];
      var i := 0;
      while i < words.Length
        invariant 0 <= i <= words.Length
        invariant forall j :: 0 <= j < i ==> words[j] == 0xFFFF - s0[j]
        invariant forall j :: i <= j < words.Length ==> words[j] == s0[j]
      {
        words[i] := 0xFFFF - words[i];
        i := i + 1;
      }
      FlippedValue(s0, words[..], n, signed);
      SignExtend();
    }

    /** operator++: x + 1 modulo 2^N. */
    method Increment()
      requires Valid()
      modifies words
      ensures Valid() && Value() == Reduce(old(Value()) + 1, n, signed)
    {
      ghost var s0 := words[..];
      ghost var wrapped := IncrementWords(s0);
      StepsValue(s0, words[..], 1, wrapped, n, signed);
      SignExtend();
    }

    /** The loop of operator++: the words from the least significant up
        gain one until one does not wrap to zero. */
    method IncrementWords(ghost s0: seq<int>) returns (ghost wrapped: bool)
      requires WellFormed() && s0 == words[..]
      modifies words
      ensures WellFormed()
      ensures Mag(words[..]) + (if wrapped then PowB(|s0|) else 0) == Mag(s0) + 1
    {
      wrapped := true;
      var i := 0;
      while i < words.Length
        invariant 0 <= i <= words.Length && wrapped
        invariant IsDigits(words[..])
        invariant Mag(words[..]) + PowB(i) == Mag(s0) + 1
      {
        ghost var before := words[..];
        words[i] := (words[i] + 1) % 0x10000;
        assert words[..] == before[i := words[i]];
        IncrementStep(before, i, Mag(s0) + 1);
        if words[i] != 0 {
          wrapped := false;
          return;
        }
        i := i + 1;
      }
    }

    /** negate(): ~x + 1, which is -x modulo 2^N. */
    method Negate()
      requires Valid()
      modifies words
      ensures Valid() && Value() == Reduce(-old(Value()), n, signed)
    {
      FlipBits();
      Increment();
      ReduceSum(-1 - old(Value()), 1, n, signed);
    }

    /** toString() as written: from the last word down, each word's bits
        from the top, until N characters are written. The characters are
        the top N physical bits of the words. */
    method ToStringAsWritten() returns (s: string)
      requires Valid()
      ensures |s| == n
      ensures forall k :: 0 <= k < n ==> s[k] == BitChar(WordBit(words[..], 16 * words.Length - 1 - k))
    {
      s := "";
      var i := words.Length;
      while i > 0
        invariant 0 <= i <= words.Length
        invariant |s| == if n < 16 * (words.Length - i) then n else 16 * (words.Length - i)
        invariant forall k :: 0 <= k < |s| ==> s[k] == BitChar(WordBit(words[..], 16 * words.Length - 1 - k))
      {
        i := i - 1;
        s := AppendWordBits(s, i);
      }
    }

    /** The inner loop of toString(): the bits of word i from the top, as
        long as fewer than N characters have been written. */
    method AppendWordBits(s0: string, i: nat) returns (s: string)
      requires Valid() && i < words.Length
      requires |s0| == if n < 16 * (words.Length - 1 - i) then n else 16 * (words.Length - 1 - i)
      requires forall k :: 0 <= k < |s0| ==> s0[k] == BitChar(WordBit(words[..], 16 * words.Length - 1 - k))
      ensures |s| == if n < 16 * (words.Length - i) then n else 16 * (words.Length - i)
      ensures forall k :: 0 <= k < |s| ==> s[k] == BitChar(WordBit(words[..], 16 * words.Length - 1 - k))
    {
      s := s0;
      var word := words[i];
      var j := 15;
      while j >= 0 && |s| < n
        invariant -1 <= j <= 15
        invariant |s| == if n < 16 * (words.Length - 1 - i) + 15 - j
                         then n else 16 * (words.Length - 1 - i) + 15 - j
        invariant forall k :: 0 <= k < |s| ==> s[k] == BitChar(WordBit(words[..], 16 * words.Length - 1 - k))
      {
        assert 16 * words.Length - 1 - |s| == 16 * i + j;
        assert WordBit(words[..], 16 * i + j) <==> (word / Pow2(j)) % 2 == 1 by {
          DivUnique(16 * i + j, 16, i, j);
        }
        s := s + [BitChar((word / Pow2(j)) % 2 == 1)];
        j := j - 1;
      }
    }

    /** toString() for every N: the bits N - 1 down to 0, one character
        each, the most significant first. */
    method ToString() returns (s: string)
      requires Valid()
      ensures SpellsBits(s, Value(), n)
    {
      s := "";
      var k := n;
      while k > 0
        invariant 0 <= k <= n && |s| == n - k
        invariant forall j :: 0 <= j < |s| ==> s[j] == BitChar(WordBit(words[..], n - 1 - j))
      {
        k := k - 1;
        s := s + [BitChar((words[k / 16] / Pow2(k % 16)) % 2 == 1)];
      }
      forall j | 0 <= j < n
        ensures s[j] == BitChar(TwosBit(Value(), n - 1 - j))
      {
        LowBits(words[..], n, signed, n - 1 - j);
      }
    }
  }

  // ---------------------------------------------------------------------
  // The free functions

  /** zero(x): every word is zero. */
  method IsZero(x: Integer) returns (r: bool)
    requires x.Valid()
    ensures r <==> x.Value() == 0
  {
    var i := 0;
    while i < x.words.Length
      invariant 0 <= i <= x.words.Length
      invariant forall j :: 0 <= j < i ==> x.words[j] == 0
    {
      if x.words[i] != 0 {
        assert x.Value() != 0 by {
          NonZeroMag(x.words[..], i);
          ZeroExtension(x.n);
        }
        return false;
      }
      i := i + 1;
    }
    assert x.Value() == 0 by {
      ZeroWordsValue(x.words[..], x.n, x.signed);
    }
    return true;
  }

  /** negative(x): a signed integer whose last word has its top bit set. */
  method IsNegative(x: Integer) returns (r: bool)
    requires x.Valid()
    ensures r <==> x.Value() < 0
  {
    if x.signed {
      r := x.words[x.words.Length - 1] >= 0x8000;
      TopWordSign(x.words[..], x.n);
    } else {
      r := false;
    }
  }

  /** positive(x): neither negative nor zero. */
  method IsPositive(x: Integer) returns (r: bool)
    requires x.Valid()
    ensures r <==> x.Value() > 0
  {
    var negative := IsNegative(x);
    var zero := IsZero(x);
    r := !negative && !zero;
  }

  /** odd(x): bit 0 of x. */
  method IsOdd(x: Integer) returns (r: bool)
    requires x.Valid()
    ensures r <==> x.Value() % 2 == 1
  {
    if x.n == 0 {
      r := false;
    } else {
      r := x.words[0] % 2 == 1;
      LowBits(x.words[..], x.n, x.signed, 0);
    }
  }

  /** abs(x): x itself when unsigned or positive, otherwise -x modulo 2^N,
      so the smallest signed value stays negative. */
  method Abs(x: Integer) returns (r: Integer)
    requires x.Valid()
    ensures fresh(r.words) && r.SameType(x) && r.Valid()
    ensures r.Value() == Reduce(if x.Value() < 0 then -x.Value() else x.Value(), x.n, x.signed)
  {
    var positive := IsPositive(x);
    r := new Integer.Copy(x);
    if !x.signed || positive {
      ReduceInRange(x.Value(), x.n, x.signed);
    } else {
      r.Negate();
    }
  }
}
