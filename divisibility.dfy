// Greatest common divisors, as Rational needs them to keep its fractions
// in lowest terms. The library's own gcd routine is not part of this
// model; Gcd below is Euclid's algorithm on magnitudes, which returns the
// non-negative divisor that Rational's normalisation relies on.
module Divisibility {
  import opened Bits

  function Abs(x: int): (r: nat)
    ensures r == x || r == -x
  {
    if x < 0 then -x else x
  }

  /** k divides a (k positive). */
  predicate Divides(k: int, a: int)
  {
    k > 0 && a % k == 0
  }

  /** Euclid's algorithm. */
  function Gcd(a: nat, b: nat): (g: nat)
    ensures a != 0 || b != 0 ==> g > 0
    decreases b
  {
    if b == 0 then a else Gcd(b, a % b)
  }

  lemma MultipleDivides(k: int, t: int)
    requires k > 0
    ensures Divides(k, k * t)
  {
    DivUnique(k * t, k, t, 0);
  }

  lemma DividesQuotient(k: int, a: int)
    requires Divides(k, a)
    ensures a == k * (a / k)
  {
  }

  /** A common divisor divides every integer combination. */
  lemma DividesCombination(k: int, x: int, y: int, m: int)
    requires Divides(k, x) && Divides(k, y)
    ensures Divides(k, x + m * y)
  {
    var x', y' := x / k, y / k;
    DividesQuotient(k, x);
    DividesQuotient(k, y);
    calc {
      x + m * y;
      k * x' + m * (k * y');
      { assert m * (k * y') == k * (m * y'); }
      k * x' + k * (m * y');
      k * (x' + m * y');
    }
    MultipleDivides(k, x' + m * y');
  }

  /** Gcd divides both of its arguments, unless both are zero. */
  lemma {:induction false} GcdDivides(a: nat, b: nat)
    requires a != 0 || b != 0
    ensures Gcd(a, b) > 0 && Divides(Gcd(a, b), a) && Divides(Gcd(a, b), b)
    decreases b
  {
    if b == 0 {
      MultipleDivides(a, 1);
      MultipleDivides(a, 0);
    } else {
      GcdDivides(b, a % b);
      var g := Gcd(b, a % b);
      assert a == a % b + (a / b) * b;
      DividesCombination(g, a % b, b, a / b);
    }
  }

  /** Every common divisor divides the Gcd. */
  lemma {:induction false} GcdGreatest(a: nat, b: nat, k: int)
    requires Divides(k, a) && Divides(k, b)
    ensures Divides(k, Gcd(a, b))
    decreases b
  {
    if b != 0 {
      assert a % b == a + (-(a / b)) * b;
      DividesCombination(k, a, b, -(a / b));
      GcdGreatest(b, a % b, k);
    }
  }

  lemma ModScale(a: nat, b: nat, k: nat)
    requires b > 0 && k > 0
    ensures (k * a) % (k * b) == k * (a % b)
  {
    var q, r := a / b, a % b;
    assert a == q * b + r;
    assert k * a == q * (k * b) + k * r by {
      assert k * (q * b) == q * (k * b);
    }
    assert k * r < k * b;
    DivUnique(k * a, k * b, q, k * r);
  }

  /** Scaling both arguments scales the Gcd. */
  lemma {:induction false} GcdScale(a: nat, b: nat, k: nat)
    requires k > 0
    ensures Gcd(k * a, k * b) == k * Gcd(a, b)
    decreases b
  {
    if b != 0 {
      ModScale(a, b, k);
      GcdScale(b, a % b, k);
    }
  }

  /** Dividing a non-negative number by a positive one gives a
      non-negative quotient. */
  lemma QuotientNonNegative(a: int, k: int)
    requires a >= 0 && k > 0
    ensures a / k >= 0
  {
  }

  /** Dividing by the Gcd leaves coprime numbers. */
  lemma CoprimeQuotients(a: nat, b: nat, a': nat, b': nat)
    requires a != 0 || b != 0
    requires a == Gcd(a, b) * a' && b == Gcd(a, b) * b'
    ensures Gcd(a', b') == 1
  {
    GcdDivides(a, b);
    var g := Gcd(a, b);
    GcdScale(a', b', g);
    MulCancel(g, Gcd(a', b'), 1);
  }

  lemma MulCancel(k: int, x: int, y: int)
    requires k > 0 && k * x == k * y
    ensures x == y
  {
    DivUnique(k * x, k, x, 0);
    DivUnique(k * y, k, y, 0);
  }

  /** Euclid's lemma: b divides a * c and is coprime to a, so it divides c. */
  lemma Coprime(a: nat, b: nat, c: nat)
    requires Gcd(a, b) == 1 && Divides(b, a * c)
    ensures Divides(b, c)
  {
    if c == 0 {
      MultipleDivides(b, 0);
    } else {
      var ca: nat := c * a;
      var cb: nat := c * b;
      assert ca == a * c;
      MultipleDivides(b, c);
      assert cb == b * c;
      GcdGreatest(ca, cb, b);
      GcdScale(a, b, c);
      assert Gcd(ca, cb) == c * 1;
    }
  }

  /** Two divisors of each other are equal. */
  lemma MutualDivisors(a: nat, b: nat)
    requires Divides(a, b) && Divides(b, a)
    ensures a == b
  {
    var p, q := b / a, a / b;
    DividesQuotient(a, b);
    DividesQuotient(b, a);
    assert p >= 1 && q >= 1;
    MulAtLeast(q, b);
    assert a >= b by {
      assert a == q * b;
    }
    MulAtLeast(p, a);
    assert b >= a by {
      assert b == p * a;
    }
  }

  lemma GcdSymmetric(a: nat, b: nat)
    ensures Gcd(a, b) == Gcd(b, a)
  {
    if a != 0 || b != 0 {
      GcdDivides(a, b);
      GcdDivides(b, a);
      GcdGreatest(a, b, Gcd(b, a));
      GcdGreatest(b, a, Gcd(a, b));
      MutualDivisors(Gcd(a, b), Gcd(b, a));
    }
  }
}
