/** Powers of two and the bit arithmetic that several Pastel components share. */
module Bits {

  /** 2^n. */
  function Pow2(n: nat): (r: nat)
    ensures r >= 1
  {
    if n == 0 then 1 else 2 * Pow2(n - 1)
  }

  lemma {:induction false} Pow2Add(a: nat, b: nat)
    ensures Pow2(a + b) == Pow2(a) * Pow2(b)
  {
    if a > 0 {
      Pow2Add(a - 1, b);
    }
  }

  lemma {:induction false} Pow2Monotone(a: nat, b: nat)
    requires a <= b
    ensures Pow2(a) <= Pow2(b)
  {
    if a < b {
      Pow2Monotone(a, b - 1);
    }
  }

  /** The i-th bit of a non-negative number. */
  function BitOf(x: nat, i: nat): (b: bool)
  {
    (x / Pow2(i)) % 2 == 1
  }

  /** Euclidean division is determined by its quotient and remainder. */
  lemma DivUnique(a: int, d: int, q: int, r: int)
    requires d > 0 && 0 <= r < d && a == q * d + r
    ensures a / d == q && a % d == r
  {
    var q0, r0 := a / d, a % d;
    assert (q - q0) * d == r0 - r;
    if q > q0 {
      MulAtLeast(q - q0, d);
    } else if q < q0 {
      MulAtLeast(q0 - q, d);
    }
  }

  lemma MulMonotone(a: int, b: int, c: int)
    requires a <= b && c >= 0
    ensures a * c <= b * c
  {
  }

  lemma MulAtLeast(k: int, d: int)
    requires k >= 1 && d > 0
    ensures k * d >= d
  {
  }

  /** Dividing by 2m is halving and then dividing by m. */
  lemma HalveDiv(x: nat, m: nat)
    requires m > 0
    ensures x / (2 * m) == (x / 2) / m
  {
    var q := (x / 2) / m;
    var r := 2 * ((x / 2) % m) + x % 2;
    assert x == q * (2 * m) + r;
    DivUnique(x, 2 * m, q, r);
  }

  /** Appending bit c below d: bit 0 is c, and bit j + 1 is bit j of d. */
  lemma BitOfDouble(d: nat, c: nat, j: nat)
    requires c < 2
    ensures BitOf(2 * d + c, 0) == (c == 1)
    ensures BitOf(2 * d + c, j + 1) == BitOf(d, j)
  {
    DivUnique(2 * d + c, 2, d, c);
    HalveDiv(2 * d + c, Pow2(j));
  }

  /** Multiplying by 2^s moves every bit s places up. */
  lemma {:induction false} BitOfShifted(d: nat, s: nat, j: nat)
    ensures BitOf(d * Pow2(s), j + s) == BitOf(d, j)
  {
    if s > 0 {
      var e := d * Pow2(s - 1);
      assert d * Pow2(s) == 2 * e + 0;
      BitOfDouble(e, 0, j + s - 1);
      BitOfShifted(d, s - 1, j);
    }
  }
}
