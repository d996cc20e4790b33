// The digit vectors of BigInteger (pastel/math/biginteger.cpp): base-65536
// digits, least significant first, and the loops that work on them: trim,
// add, subtract, the digit shifts and the magnitude comparisons.
module BigDigits {
  import opened Bits
  import opened Wrappers

  function PowB(k: nat): (r: int)
    ensures r >= 1
  {
    if k == 0 then 1 else 0x10000 * PowB(k - 1)
  }

  predicate IsDigits(s: seq<int>)
  {
    forall i :: 0 <= i < |s| ==> 0 <= s[i] < 0x10000
  }

  /** No zero most-significant digit. */
  predicate Trimmed(s: seq<int>)
  {
    |s| == 0 || s[|s| - 1] != 0
  }

  /** The number a digit vector stands for (Horner's rule from the least
      significant digit). */
  function Mag(s: seq<int>): int
  {
    if |s| == 0 then 0 else s[0] + 0x10000 * Mag(s[1..])
  }

  function Zeros(n: nat): (z: seq<int>)
    ensures |z| == n && forall i :: 0 <= i < n ==> z[i] == 0
  {
    seq(n, _ => 0)
  }

  // ---------------------------------------------------------------------
  // Facts about Mag

  lemma MulStrict(a: int, b: int, c: int)
    requires a < b && c > 0
    ensures a * c < b * c
  {
  }

  lemma MulNonNegative(a: int, b: int)
    requires a >= 0 && b >= 0
    ensures a * b >= 0
  {
  }

  lemma MulAssociative(a: int, b: int, c: int)
    ensures a * (b * c) == (a * b) * c
  {
  }

  lemma PowBAdd(j: nat, k: nat)
    ensures PowB(j + k) == PowB(j) * PowB(k)
  {
    if k != 0 {
      PowBAdd(j, k - 1);
      assert PowB(j + k) == 0x10000 * PowB(j + k - 1);
      assert 0x10000 * (PowB(j) * PowB(k - 1)) == PowB(j) * (0x10000 * PowB(k - 1));
    }
  }

  lemma PowBMonotone(j: nat, k: nat)
    requires j <= k
    ensures PowB(j) <= PowB(k)
  {
    if j < k {
      PowBMonotone(j, k - 1);
    }
  }

  /** Appending a vector adds its value, scaled past the first. */
  lemma {:induction false} MagConcat(a: seq<int>, b: seq<int>)
    ensures Mag(a + b) == Mag(a) + Mag(b) * PowB(|a|)
  {
    if |a| == 0 {
      assert a + b == b;
    } else {
      var p := PowB(|a| - 1);
      assert (a + b)[1..] == a[1..] + b;
      MagConcat(a[1..], b);
      MulAssociative(0x10000, Mag(b), p);
      assert PowB(|a|) == 0x10000 * p;
      assert 0x10000 * Mag(b) * p == Mag(b) * (0x10000 * p) by {
        MulAssociative(Mag(b), 0x10000, p);
      }
    }
  }

  lemma MagAppend(s: seq<int>, d: int)
    ensures Mag(s + [d]) == Mag(s) + d * PowB(|s|)
  {
    MagConcat(s, [d]);
    assert [d][1..] == [];
    assert Mag([d]) == d;
  }

  /** The top digit's share of the value. */
  lemma MagLast(s: seq<int>)
    requires |s| > 0
    ensures Mag(s) == Mag(s[..|s| - 1]) + s[|s| - 1] * PowB(|s| - 1)
  {
    assert s == s[..|s| - 1] + [s[|s| - 1]];
    MagAppend(s[..|s| - 1], s[|s| - 1]);
  }

  lemma {:induction false} MagBounds(s: seq<int>)
    requires IsDigits(s)
    ensures 0 <= Mag(s) < PowB(|s|)
  {
    if |s| != 0 {
      MagBounds(s[1..]);
    }
  }

  /** A trimmed non-empty vector is at least 0x10000^(size-1). */
  lemma TrimmedLower(s: seq<int>)
    requires IsDigits(s) && Trimmed(s) && |s| > 0
    ensures Mag(s) >= PowB(|s| - 1)
  {
    MagLast(s);
    MagBounds(s[..|s| - 1]);
    MulMonotone(1, s[|s| - 1], PowB(|s| - 1));
  }

  /** Conversely, a value that large leaves the top digit non-zero. */
  lemma TrimmedByValue(s: seq<int>)
    requires IsDigits(s) && |s| > 0 && Mag(s) >= PowB(|s| - 1)
    ensures Trimmed(s)
  {
    MagLast(s);
    MagBounds(s[..|s| - 1]);
  }

  lemma {:induction false} MagUpdate(s: seq<int>, k: int, v: int)
    requires 0 <= k < |s|
    ensures Mag(s[k := v]) == Mag(s) + (v - s[k]) * PowB(k)
  {
    if k == 0 {
      assert s[k := v][1..] == s[1..];
    } else {
      var p := PowB(k - 1);
      MagUpdate(s[1..], k - 1, v);
      assert s[k := v][1..] == s[1..][k - 1 := v];
      assert PowB(k) == 0x10000 * p;
      MulAssociative(0x10000, v - s[k], p);
      MulAssociative(v - s[k], 0x10000, p);
    }
  }

  /** Splitting a vector at k splits its value. */
  lemma MagSplit(s: seq<int>, k: nat)
    requires k <= |s|
    ensures Mag(s) == Mag(s[..k]) + Mag(s[k..]) * PowB(k)
  {
    assert s == s[..k] + s[k..];
    MagConcat(s[..k], s[k..]);
  }

  lemma MagHead(s: seq<int>)
    requires |s| > 0
    ensures Mag(s) == s[0] + 0x10000 * Mag(s[1..])
  {
  }

  lemma {:induction false} MagZeros(n: nat)
    ensures Mag(Zeros(n)) == 0
  {
    if n != 0 {
      assert Zeros(n)[1..] == Zeros(n - 1);
      MagZeros(n - 1);
    }
  }

  /** Leading zeros do not change the value. */
  lemma MagTrailingZeros(s: seq<int>, n: nat)
    ensures Mag(s + Zeros(n)) == Mag(s)
  {
    MagSplit(s + Zeros(n), |s|);
    assert (s + Zeros(n))[..|s|] == s;
    assert (s + Zeros(n))[|s|..] == Zeros(n);
    MagZeros(n);
  }

  /** Shifting by whole digits multiplies by a power of the base. */
  lemma MagShifted(s: seq<int>, n: nat)
    ensures Mag(Zeros(n) + s) == Mag(s) * PowB(n)
  {
    MagSplit(Zeros(n) + s, n);
    assert (Zeros(n) + s)[..n] == Zeros(n);
    assert (Zeros(n) + s)[n..] == s;
    MagZeros(n);
  }

  lemma PrefixDigits(s: seq<int>, k: nat)
    requires IsDigits(s) && k <= |s|
    ensures IsDigits(s[..k]) && IsDigits(s[k..])
  {
  }

  // ---------------------------------------------------------------------
  // trim()

  /** The vector without its zero most-significant digits. */
  function TrimDigits(s: seq<int>): (t: seq<int>)
    ensures Trimmed(t) && |t| <= |s| && t == s[..|t|]
  {
    if |s| > 0 && s[|s| - 1] == 0 then TrimDigits(s[..|s| - 1]) else s
  }

  lemma {:induction false} TrimDigitsValue(s: seq<int>)
    ensures Mag(TrimDigits(s)) == Mag(s)
    ensures IsDigits(s) ==> IsDigits(TrimDigits(s))
  {
    if |s| > 0 && s[|s| - 1] == 0 {
      TrimDigitsValue(s[..|s| - 1]);
      MagLast(s);
    }
  }

  /** trim(): walks down from the top while the digit is zero. */
  method Trim(digits: seq<int>) returns (t: seq<int>)
    ensures t == TrimDigits(digits)
    ensures Trimmed(t) && Mag(t) == Mag(digits)
    ensures IsDigits(digits) ==> IsDigits(t)
  {
    t := digits;
    if |digits| > 0 {
      var lastNonZeroIndex := |digits| - 1;
      assert digits[..|digits|] == digits;
      while lastNonZeroIndex >= 0 && digits[lastNonZeroIndex] == 0
        invariant -1 <= lastNonZeroIndex < |digits|
        invariant TrimDigits(digits[..lastNonZeroIndex + 1]) == TrimDigits(digits)
      {
        assert digits[..lastNonZeroIndex + 1][..lastNonZeroIndex] == digits[..lastNonZeroIndex];
        lastNonZeroIndex := lastNonZeroIndex - 1;
      }
      assert digits[..|digits|] == digits;
      if lastNonZeroIndex + 1 != |digits| {
        t := digits[..lastNonZeroIndex + 1];
      }
    }
    TrimDigitsValue(digits);
  }

  // ---------------------------------------------------------------------
  // add()

  /** One digit of add(): y is the digit of right (0 past its end) and
      done the value of right's digits consumed so far. */
  lemma AddStep(result: seq<int>, left: seq<int>, done: int, i: nat,
                carry: int, y: int, x: int, carry': int)
    requires i < |left| && |result| == i
    requires Mag(result) + carry * PowB(i) == Mag(left[..i]) + done
    requires x + carry' * 0x10000 == left[i] + y + carry
    ensures Mag(result + [x]) + carry' * PowB(i + 1) == Mag(left[..i + 1]) + done + y * PowB(i)
  {
    var p := PowB(i);
    MagAppend(result, x);
    assert left[..i + 1] == left[..i] + [left[i]];
    MagAppend(left[..i], left[i]);
    MulAssociative(carry', 0x10000, p);
    assert (x + carry' * 0x10000) * p == x * p + carry' * 0x10000 * p;
  }

  lemma PrefixAppend(s: seq<int>, i: nat)
    requires i < |s|
    ensures Mag(s[..i + 1]) == Mag(s[..i]) + s[i] * PowB(i)
  {
    assert s[..i + 1] == s[..i] + [s[i]];
    MagAppend(s[..i], s[i]);
  }

  /** add(): left has at least as many digits as right; the digit sums
      propagate a carry of at most one. */
  method Add(left: seq<int>, right: seq<int>) returns (result: seq<int>)
    requires IsDigits(left) && IsDigits(right) && |left| >= |right|
    ensures IsDigits(result) && Mag(result) == Mag(left) + Mag(right)
    ensures |left| <= |result| <= |left| + 1
    ensures |result| == |left| + 1 ==> result[|left|] == 1
    ensures Trimmed(left) ==> Trimmed(result)
  {
    var carry;
    result, carry := AddCommon(left, right);
    result, carry := PropagateCarry(left, result, carry, Mag(right));
    assert left[..|left|] == left;
    if carry == 1 {
      MagAppend(result, carry);
      result := result + [carry];
    }
    if Trimmed(left) && |left| > 0 && |result| == |left| {
      TrimmedLower(left);
      MagBounds(right);
      TrimmedByValue(result);
    }
  }

  /** add()'s first loop: the digits both vectors have. */
  method AddCommon(left: seq<int>, right: seq<int>) returns (result: seq<int>, carry: int)
    requires IsDigits(left) && IsDigits(right) && |left| >= |right|
    ensures |result| == |right| && IsDigits(result) && 0 <= carry <= 1
    ensures Mag(result) + carry * PowB(|right|) == Mag(left[..|right|]) + Mag(right)
  {
    result := [];
    carry := 0;
    var i := 0;
    while i < |right|
      invariant 0 <= i <= |right| && |result| == i && IsDigits(result) && 0 <= carry <= 1
      invariant Mag(result) + carry * PowB(i) == Mag(left[..i]) + Mag(right[..i])
    {
      var digitAdd := left[i] + right[i] + carry;
      var x, carry' := digitAdd, 0;
      if digitAdd > 0xFFFF {
        x, carry' := digitAdd - (0xFFFF + 1), 1;
      }
      AddStep(result, left, Mag(right[..i]), i, carry, right[i], x, carry');
      PrefixAppend(right, i);
      result, carry := result + [x], carry';
      i := i + 1;
    }
    assert right[..i] == right;
  }

  /** add()'s second loop: the carry runs through the rest of left; extra
      is the value of right, already added in. */
  method PropagateCarry(left: seq<int>, result: seq<int>, carry: int, ghost extra: int)
      returns (result': seq<int>, carry': int)
    requires IsDigits(left) && IsDigits(result) && |result| <= |left| && 0 <= carry <= 1
    requires Mag(result) + carry * PowB(|result|) == Mag(left[..|result|]) + extra
    ensures |result'| == |left| && IsDigits(result') && 0 <= carry' <= 1
    ensures Mag(result') + carry' * PowB(|left|) == Mag(left) + extra
  {
    result', carry' := result, carry;
    var i := |result|;
    while i < |left|
      invariant |result| <= i <= |left| && |result'| == i && IsDigits(result') && 0 <= carry' <= 1
      invariant Mag(result') + carry' * PowB(i) == Mag(left[..i]) + extra
    {
      var digitAdd := left[i] + carry';
      var x, c := digitAdd, 0;
      if digitAdd > 0xFFFF {
        x, c := digitAdd - (0xFFFF + 1), 1;
      }
      AddStep(result', left, extra, i, carry', 0, x, c);
      result', carry' := result' + [x], c;
      i := i + 1;
    }
    assert left[..i] == left;
  }

  // ---------------------------------------------------------------------
  // subtract()

  /** The borrow of subtract(): finds the next non-zero digit above i,
      decrements it and sets the zeros in between to 0xFFFF. */
  method Borrow(result: seq<int>, i: nat) returns (result': seq<int>)
    requires IsDigits(result) && i < |result| && Mag(result[i + 1..]) > 0
    ensures IsDigits(result') && |result'| == |result| && result'[..i + 1] == result[..i + 1]
    ensures Mag(result') == Mag(result) - PowB(i + 1)
  {
    var nextNonZero := FindNonZero(result, i);
    var digit := result[nextNonZero] - 1;
    var decremented := result[nextNonZero := digit];
    assert decremented[..i + 1] == result[..i + 1];
    assert Mag(decremented) == Mag(result) - PowB(nextNonZero) by {
      MagUpdate(result, nextNonZero, digit);
    }
    result' := FillBorrowed(decremented, i, nextNonZero);
  }

  /** The borrow's search: the lowest non-zero digit above i. */
  method FindNonZero(result: seq<int>, i: nat) returns (nextNonZero: nat)
    requires IsDigits(result) && i < |result| && Mag(result[i + 1..]) > 0
    ensures i + 1 <= nextNonZero < |result| && result[nextNonZero] != 0
    ensures forall j :: i + 1 <= j < nextNonZero ==> result[j] == 0
  {
    nextNonZero := i + 1;
    while nextNonZero < |result| && result[nextNonZero] == 0
      invariant i + 1 <= nextNonZero <= |result|
      invariant forall j :: i + 1 <= j < nextNonZero ==> result[j] == 0
      invariant Mag(result[nextNonZero..]) > 0
    {
      MagHead(result[nextNonZero..]);
      assert result[nextNonZero..][1..] == result[nextNonZero + 1..];
      nextNonZero := nextNonZero + 1;
    }
  }

  /** The borrow's fill: the zero digits strictly between i and k become
      0xFFFF, which adds 0x10000^k - 0x10000^(i+1). */
  method FillBorrowed(s: seq<int>, i: nat, k: nat) returns (result': seq<int>)
    requires i < k < |s| && IsDigits(s)
    requires forall j :: i + 1 <= j < k ==> s[j] == 0
    ensures IsDigits(result') && |result'| == |s| && result'[..i + 1] == s[..i + 1]
    ensures Mag(result') == Mag(s) + PowB(k) - PowB(i + 1)
  {
    result' := s;
    var j := i + 1;
    while j < k
      invariant i + 1 <= j <= k && |result'| == |s| && IsDigits(result')
      invariant result'[..i + 1] == s[..i + 1]
      invariant forall m :: j <= m < k ==> result'[m] == 0
      invariant Mag(result') == Mag(s) + PowB(j) - PowB(i + 1)
    {
      MagUpdate(result', j, 0xFFFF);
      assert PowB(j + 1) == 0x10000 * PowB(j);
      result' := result'[j := 0xFFFF];
      j := j + 1;
    }
  }

  /** The digits up to i are below (s[i] + 1) * 0x10000^i. */
  lemma LowDigitsBelow(s: seq<int>, i: nat)
    requires IsDigits(s) && i < |s|
    ensures Mag(s[..i + 1]) < (s[i] + 1) * PowB(i)
  {
    var p := PowB(i);
    PrefixAppend(s, i);
    PrefixDigits(s, i);
    MagBounds(s[..i]);
    assert (s[i] + 1) * p == s[i] * p + p;
  }

  /** The digits from i on are at least s[i] * 0x10000^i. */
  lemma HighDigitsAbove(s: seq<int>, i: nat)
    requires IsDigits(s) && i < |s|
    ensures Mag(s[i..]) * PowB(i) >= s[i] * PowB(i)
  {
    MagHead(s[i..]);
    assert s[i..][1..] == s[i + 1..];
    MagBounds(s[i + 1..]);
    MulMonotone(s[i], Mag(s[i..]), PowB(i));
  }

  lemma PositiveFactor(a: int, c: int)
    requires c > 0 && a * c > 0
    ensures a > 0
  {
    if a <= 0 {
      MulMonotone(a, 0, c);
    }
  }

  /** The value still to subtract is at most what result holds, so a
      digit that needs a borrow has a non-zero digit above it. */
  lemma BorrowNeeded(result: seq<int>, right: seq<int>, i: nat)
    requires IsDigits(result) && IsDigits(right) && i < |right| <= |result|
    requires Mag(result) >= Mag(right[i..]) * PowB(i)
    requires result[i] < right[i]
    ensures Mag(result[i + 1..]) > 0
  {
    assert Mag(result[..i + 1]) < Mag(result) by {
      LowDigitsBelow(result, i);
      HighDigitsAbove(right, i);
      MulMonotone(result[i] + 1, right[i], PowB(i));
    }
    MagSplit(result, i + 1);
    PositiveFactor(Mag(result[i + 1..]), PowB(i + 1));
  }

  lemma SubtractStep(result: seq<int>, result': seq<int>, left: seq<int>, right: seq<int>, i: nat)
    requires i < |right| <= |left| == |result|
    requires Mag(result) == Mag(left) - Mag(right[..i])
    requires Mag(result') == Mag(result) - right[i] * PowB(i)
    ensures Mag(result') == Mag(left) - Mag(right[..i + 1])
  {
    assert right[..i + 1] == right[..i] + [right[i]];
    MagAppend(right[..i], right[i]);
  }

  /** What is left to subtract is covered by result. */
  lemma RemainingCovered(result: seq<int>, left: seq<int>, right: seq<int>, i: nat)
    requires i <= |right| && Mag(left) >= Mag(right)
    requires Mag(result) == Mag(left) - Mag(right[..i])
    ensures Mag(result) >= Mag(right[i..]) * PowB(i)
  {
    MagSplit(right, i);
  }

  /** subtract(), with the borrow taken into account: the difference of
      two magnitudes, the first at least the second, trimmed. */
  method Subtract(left: seq<int>, right: seq<int>) returns (result: seq<int>)
    requires IsDigits(left) && IsDigits(right) && |left| >= |right|
    requires Mag(left) >= Mag(right)
    ensures IsDigits(result) && Mag(result) == Mag(left) - Mag(right)
    ensures |right| > 0 || Trimmed(left) ==> Trimmed(result)
    ensures |result| <= |left|
  {
    if |right| == 0 {
      return left;
    }
    result := left;
    var i := 0;
    while i < |right|
      invariant 0 <= i <= |right| && |result| == |left| && IsDigits(result)
      invariant Mag(result) == Mag(left) - Mag(right[..i])
    {
      result := SubtractDigit(result, left, right, i);
      i := i + 1;
    }
    assert right[..i] == right;
    result := Trim(result);
  }

  /** One pass of subtract()'s loop: digit i of right is taken off
      result, borrowing from above when the digit would go negative. */
  method SubtractDigit(result: seq<int>, left: seq<int>, right: seq<int>, i: nat)
      returns (result': seq<int>)
    requires IsDigits(left) && IsDigits(right) && IsDigits(result)
    requires i < |right| <= |left| == |result| && Mag(left) >= Mag(right)
    requires Mag(result) == Mag(left) - Mag(right[..i])
    ensures |result'| == |left| && IsDigits(result')
    ensures Mag(result') == Mag(left) - Mag(right[..i + 1])
  {
    var digit := result[i] - right[i];
    if digit < 0 {
      assert Mag(result[i + 1..]) > 0 by {
        RemainingCovered(result, left, right, i);
        BorrowNeeded(result, right, i);
      }
      var borrowed := Borrow(result, i);
      result' := borrowed[i := digit + (0xFFFF + 1)];
      assert Mag(result') == Mag(result) - right[i] * PowB(i) by {
        BorrowedDigit(result, borrowed, i, right[i]);
      }
    } else {
      result' := result[i := digit];
      DigitTakenOff(result, i, right[i]);
    }
    SubtractStep(result, result', left, right, i);
  }

  /** Digit i less d: the value less d * 0x10000^i. */
  lemma DigitTakenOff(s: seq<int>, i: nat, d: int)
    requires i < |s|
    ensures Mag(s[i := s[i] - d]) == Mag(s) - d * PowB(i)
  {
    var p := PowB(i);
    MagUpdate(s, i, s[i] - d);
    assert (s[i] - d - s[i]) * p == -(d * p);
  }

  /** Digit i after a borrow: 0x10000 more than result[i] - d, with
      0x10000^(i+1) taken from above. */
  lemma BorrowedDigit(result: seq<int>, borrowed: seq<int>, i: nat, d: int)
    requires i < |result| == |borrowed| && borrowed[..i + 1] == result[..i + 1]
    requires Mag(borrowed) == Mag(result) - PowB(i + 1)
    ensures Mag(borrowed[i := result[i] - d + (0xFFFF + 1)]) == Mag(result) - d * PowB(i)
  {
    var p, v := PowB(i), result[i] - d + (0xFFFF + 1);
    assert borrowed[i] == borrowed[..i + 1][i] == result[i];
    MagUpdate(borrowed, i, v);
    assert PowB(i + 1) == 0x10000 * p;
    assert (v - result[i]) * p == 0x10000 * p - d * p;
  }

  /** subtract() as written: the digit difference reads left[i], the
      input, instead of result[i], so a borrow that lands on a digit
      still to be subtracted is lost. None when the borrow search runs
      off the end (the ASSERT in subtract() of biginteger.cpp). */
  function SubtractAsWritten(left: seq<int>, right: seq<int>): (r: Option<seq<int>>)
    requires |left| >= |right|
    ensures r.Some? ==> |r.value| <= |left|
    ensures r.Some? && |right| > 0 ==> Trimmed(r.value)
  {
    if |right| == 0 then Some(left) else SubtractAsWrittenFrom(left, right, left, 0)
  }

  function NextNonZero(s: seq<int>, k: nat): (r: nat)
    ensures k <= r || k > |s|
    decreases |s| - k
  {
    if k < |s| && s[k] == 0 then NextNonZero(s, k + 1) else k
  }

  function FillFrom(s: seq<int>, j: nat, end: nat, v: int): (r: seq<int>)
    requires end <= |s|
    ensures |r| == |s|
    decreases end - j
  {
    if j < end then FillFrom(s[j := v], j + 1, end, v) else s
  }

  function SubtractAsWrittenFrom(left: seq<int>, right: seq<int>, result: seq<int>, i: nat): (r: Option<seq<int>>)
    requires |result| == |left| >= |right| && i <= |right|
    ensures r.Some? ==> |r.value| <= |left| && Trimmed(r.value)
    decreases |right| - i
  {
    if i == |right| then Some(TrimDigits(result))
    else
      var digit := left[i] - right[i];
      if digit < 0 then
        var nextNonZero := NextNonZero(result, i + 1);
        if nextNonZero >= |result| then None
        else
          var borrowed := FillFrom(result[nextNonZero := result[nextNonZero] - 1], i + 1, nextNonZero, 0xFFFF);
          SubtractAsWrittenFrom(left, right, borrowed[i := digit + 0x10000], i + 1)
      else SubtractAsWrittenFrom(left, right, result[i := digit], i + 1)
  }

  /** A two-digit vector's value. */
  lemma MagTwoDigits(x: int, y: int)
    ensures Mag([x, y]) == x + y * 0x10000
  {
    assert [y][1..] == [];
    assert Mag([y]) == y;
    assert [x, y][1..] == [y];
  }

  /** The run of subtract() as written on [0, 2] - [1, 1]. */
  lemma SubtractAsWrittenRun()
    ensures SubtractAsWritten([0, 2], [1, 1]) == Some([0xFFFF, 1])
  {
    SubtractAsWrittenFirstDigit();
    SubtractAsWrittenSecondDigit();
  }

  /** Digit 0 borrows from digit 1, leaving [0xFFFF, 1]. */
  lemma SubtractAsWrittenFirstDigit()
    ensures SubtractAsWrittenFrom([0, 2], [1, 1], [0, 2], 0) ==
            SubtractAsWrittenFrom([0, 2], [1, 1], [0xFFFF, 1], 1)
  {
    FirstDigitBorrows([0, 2], [1, 1]);
  }

  lemma FirstDigitBorrows(left: seq<int>, right: seq<int>)
    requires left == [0, 2] && right == [1, 1]
    ensures SubtractAsWrittenFrom(left, right, left, 0) ==
            SubtractAsWrittenFrom(left, right, [0xFFFF, 1], 1)
  {
    assert NextNonZero(left, 1) == 1;
    var decremented := left[1 := left[1] - 1];
    assert decremented == [0, 1];
    assert FillFrom(decremented, 1, 1, 0xFFFF) == decremented;
    assert decremented[0 := left[0] - right[0] + 0x10000] == [0xFFFF, 1];
  }

  /** Digit 1 is overwritten with left[1] - right[1] = 1. */
  lemma SubtractAsWrittenSecondDigit()
    ensures SubtractAsWrittenFrom([0, 2], [1, 1], [0xFFFF, 1], 1) == Some([0xFFFF, 1])
  {
    assert [0xFFFF, 1][1 := 2 - 1] == [0xFFFF, 1];
    assert TrimDigits([0xFFFF, 1]) == [0xFFFF, 1];
  }

  /** 131072 - 65537 is 65535, but subtract() as written returns 131071:
      the borrow taken from digit 1 is overwritten by left[1] - right[1]. */
  lemma SubtractLosesBorrow()
    ensures Mag([0, 2]) - Mag([1, 1]) == 65535
    ensures SubtractAsWritten([0, 2], [1, 1]) == Some([0xFFFF, 1])
    ensures Mag([0xFFFF, 1]) == 131071
  {
    SubtractAsWrittenRun();
    MagTwoDigits(0, 2);
    MagTwoDigits(1, 1);
    MagTwoDigits(0xFFFF, 1);
  }

  // ---------------------------------------------------------------------
  // Magnitude comparisons

  lemma ShorterIsLess(a: seq<int>, b: seq<int>)
    requires IsDigits(a) && IsDigits(b) && Trimmed(b) && |a| < |b|
    ensures Mag(a) < Mag(b)
  {
    MagBounds(a);
    TrimmedLower(b);
    PowBMonotone(|a|, |b| - 1);
  }

  /** Two vectors of one size that agree above i and differ at i compare
      as their digits at i. */
  lemma HighestDifference(a: seq<int>, b: seq<int>, i: nat)
    requires IsDigits(a) && IsDigits(b) && |a| == |b| && i < |a|
    requires a[i + 1..] == b[i + 1..] && a[i] < b[i]
    ensures Mag(a) < Mag(b)
  {
    MagSplit(a, i + 1);
    MagSplit(b, i + 1);
    LowDigitsLess(a, b, i);
  }

  /** The digits up to i compare as the digits at i. */
  lemma LowDigitsLess(a: seq<int>, b: seq<int>, i: nat)
    requires IsDigits(a) && IsDigits(b) && i < |a| && i < |b| && a[i] < b[i]
    ensures Mag(a[..i + 1]) < Mag(b[..i + 1])
  {
    var p := PowB(i);
    assert Mag(a[..i + 1]) < (a[i] + 1) * p by {
      LowDigitsBelow(a, i);
    }
    assert Mag(b[..i + 1]) >= b[i] * p by {
      PrefixAppend(b, i);
      PrefixDigits(b, i);
      MagBounds(b[..i]);
    }
    MulMonotone(a[i] + 1, b[i], p);
  }

  /** absoluteLessThan(): the digit count first, then the digits from the
      most significant down. On trimmed vectors that is the order of the
      magnitudes. */
  method AbsoluteLessThan(a: seq<int>, b: seq<int>) returns (r: bool)
    requires IsDigits(a) && IsDigits(b)
    ensures r <==> |a| < |b| || (|a| == |b| && Mag(a) < Mag(b))
    ensures Trimmed(a) && Trimmed(b) ==> (r <==> Mag(a) < Mag(b))
  {
    if |a| < |b| {
      if Trimmed(b) {
        ShorterIsLess(a, b);
      }
      return true;
    } else if |a| > |b| {
      if Trimmed(a) {
        ShorterIsLess(b, a);
      }
      return false;
    }
    r := CompareEqualLength(a, b);
  }

  /** Vectors of one length that agree above i and differ at i compare as
      their digits at i. */
  lemma DifferAt(a: seq<int>, b: seq<int>, i: nat)
    requires IsDigits(a) && IsDigits(b) && |a| == |b| && i < |a|
    requires a[i + 1..] == b[i + 1..] && a[i] != b[i]
    ensures Mag(a) < Mag(b) <==> a[i] < b[i]
  {
    if a[i] < b[i] {
      HighestDifference(a, b, i);
    } else {
      HighestDifference(b, a, i);
    }
  }

  /** The top-down scan of absoluteLessThan() on vectors of one length. */
  method CompareEqualLength(a: seq<int>, b: seq<int>) returns (r: bool)
    requires IsDigits(a) && IsDigits(b) && |a| == |b|
    ensures r <==> Mag(a) < Mag(b)
  {
    var i := HighestDifferingDigit(a, b);
    if i < 0 {
      r := false;
    } else {
      DifferAt(a, b, i);
      r := a[i] < b[i];
    }
  }

  /** The scan itself: the highest index where the digits differ, or -1
      when the vectors are equal. */
  method HighestDifferingDigit(a: seq<int>, b: seq<int>) returns (i: int)
    requires |a| == |b|
    ensures -1 <= i < |a| && a[i + 1..] == b[i + 1..]
    ensures i < 0 ==> a == b
    ensures i >= 0 ==> a[i] != b[i]
  {
    i := |a| - 1;
    while i >= 0 && a[i] == b[i]
      invariant -1 <= i < |a|
      invariant a[i + 1..] == b[i + 1..]
    {
      i := i - 1;
    }
    if i < 0 {
      assert a == a[0..] == b[0..] == b;
    }
  }

  /** absoluteEqual(): the same digits. */
  method AbsoluteEqual(a: seq<int>, b: seq<int>) returns (r: bool)
    ensures r <==> a == b
  {
    if |a| != |b| {
      return false;
    }
    var i := 0;
    while i < |a|
      invariant 0 <= i <= |a|
      invariant a[..i] == b[..i]
    {
      if a[i] != b[i] {
        return false;
      }
      assert a[..i + 1] == a[..i] + [a[i]];
      assert b[..i + 1] == b[..i] + [b[i]];
      i := i + 1;
    }
    assert a == a[..i] && b == b[..i];
    return true;
  }

  /** Trimmed vectors of equal value are equal. */
  lemma MagInjective(a: seq<int>, b: seq<int>)
    requires IsDigits(a) && IsDigits(b) && Trimmed(a) && Trimmed(b)
    requires Mag(a) == Mag(b)
    ensures a == b
  {
    if |a| < |b| {
      ShorterIsLess(a, b);
    } else if |a| > |b| {
      ShorterIsLess(b, a);
    } else if a != b {
      var i := HighestDiffIndex(a, b);
      if a[i] < b[i] {
        HighestDifference(a, b, i);
      } else {
        HighestDifference(b, a, i);
      }
    }
  }

  lemma HighestDiffIndex(a: seq<int>, b: seq<int>) returns (i: nat)
    requires |a| == |b| && a != b
    ensures i < |a| && a[i] != b[i] && a[i + 1..] == b[i + 1..]
  {
    i := |a| - 1;
    assert a[..i + 1] == a && b[..i + 1] == b;
    while a[i] == b[i]
      invariant 0 <= i < |a|
      invariant a[i + 1..] == b[i + 1..] && a[..i + 1] != b[..i + 1]
      decreases i
    {
      assert a[..i + 1] == a[..i] + [a[i]];
      assert b[..i + 1] == b[..i] + [b[i]];
      assert a[i..] == [a[i]] + a[i + 1..];
      assert b[i..] == [b[i]] + b[i + 1..];
      i := i - 1;
    }
  }

  // ---------------------------------------------------------------------
  // shiftDigitsLeft() / shiftDigitsRight()

  /** shiftDigitsLeft(): prepends byDigits zero digits (nothing for zero). */
  method ShiftDigitsLeft(digits: seq<int>, byDigits: nat) returns (r: seq<int>)
    ensures Mag(r) == Mag(digits) * PowB(byDigits)
    ensures |digits| > 0 ==> |r| == |digits| + byDigits
    ensures |digits| == 0 ==> r == digits
    ensures IsDigits(digits) ==> IsDigits(r)
    ensures Trimmed(digits) ==> Trimmed(r)
  {
    if byDigits == 0 || |digits| == 0 {
      return digits;
    }
    r := Zeros(byDigits);
    var i := 0;
    while i < |digits|
      invariant 0 <= i <= |digits|
      invariant r == Zeros(byDigits) + digits[..i]
    {
      assert digits[..i + 1] == digits[..i] + [digits[i]];
      r := r + [digits[i]];
      i := i + 1;
    }
    assert digits[..i] == digits;
    MagShifted(digits, byDigits);
  }

  /** shiftDigitsRight(): drops the byDigits lowest digits. */
  method ShiftDigitsRight(digits: seq<int>, byDigits: nat) returns (r: seq<int>)
    requires IsDigits(digits)
    ensures Mag(r) == Mag(digits) / PowB(byDigits)
    ensures IsDigits(r) && (Trimmed(digits) ==> Trimmed(r))
  {
    if byDigits == 0 || |digits| == 0 {
      return digits;
    }
    if |digits| <= byDigits {
      MagBounds(digits);
      PowBMonotone(|digits|, byDigits);
      DivUnique(Mag(digits), PowB(byDigits), 0, Mag(digits));
      return [];
    }
    r := [];
    var i := byDigits;
    while i < |digits|
      invariant byDigits <= i <= |digits|
      invariant r == digits[byDigits..i]
    {
      assert digits[byDigits..i + 1] == digits[byDigits..i] + [digits[i]];
      r := r + [digits[i]];
      i := i + 1;
    }
    assert r == digits[byDigits..];
    ShiftedRightValue(digits, byDigits);
  }

  /** The digits from k on are the value divided by 0x10000^k. */
  lemma ShiftedRightValue(digits: seq<int>, k: nat)
    requires IsDigits(digits) && k <= |digits|
    ensures Mag(digits[k..]) == Mag(digits) / PowB(k)
  {
    MagSplit(digits, k);
    MagBounds(digits[..k]);
    DivUnique(Mag(digits), PowB(k), Mag(digits[k..]), Mag(digits[..k]));
  }
}
