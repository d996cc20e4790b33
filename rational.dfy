// Rational<Integer> (pastel/sys/rational.hpp): a numerator/denominator pair
// kept in lowest terms with a non-negative denominator, where a zero
// denominator encodes NaN (0/0), +infinity (1/0) and -infinity (-1/0).
// Integer is modelled as an unbounded int.
module Rationals {
  import opened Bits
  import opened Wrappers
  import opened Divisibility

  /** The numerator_/denominator_ pair of a Rational. */
  datatype Ratio = Ratio(n: int, d: int)

  /** NumberType of rational.h. */
  datatype NumberType = Normal | Zero | Nan | Infinity | MinusInfinity

  /** The value a Ratio stands for: an extended real. */
  datatype Extended = NaN | PosInf | NegInf | Finite(q: real)

  /** Lowest terms with a non-negative denominator, or NaN: what every
      Rational satisfies once constructed. */
  predicate Canonical(r: Ratio)
  {
    (r.n == 0 && r.d == 0) || (r.d >= 0 && Gcd(Abs(r.n), r.d) == 1)
  }

  function Denote(r: Ratio): (x: Extended)
    ensures x.Finite? <==> r.d != 0
  {
    if r.d != 0 then Finite(r.n as real / r.d as real)
    else if r.n == 0 then NaN
    else if r.n > 0 then PosInf
    else NegInf
  }

  // ---------------------------------------------------------------------
  // Arithmetic on extended reals: the reference the operations are
  // proved against. Zero times an infinity is zero, as rational.hpp
  // documents in its multiplication table.

  predicate IsPositive(x: Extended)
  {
    x.PosInf? || (x.Finite? && x.q > 0.0)
  }

  function XAdd(x: Extended, y: Extended): Extended
  {
    if x.NaN? || y.NaN? then NaN
    else if x.Finite? && y.Finite? then Finite(x.q + y.q)
    else if x.Finite? then y
    else if y.Finite? then x
    else if x == y then x
    else NaN
  }

  function XNeg(x: Extended): Extended
  {
    match x
    case NaN => NaN
    case PosInf => NegInf
    case NegInf => PosInf
    case Finite(q) => Finite(-q)
  }

  function XMul(x: Extended, y: Extended): Extended
  {
    if x.NaN? || y.NaN? then NaN
    else if x.Finite? && y.Finite? then Finite(x.q * y.q)
    else if x == Finite(0.0) || y == Finite(0.0) then Finite(0.0)
    else if IsPositive(x) == IsPositive(y) then PosInf
    else NegInf
  }

  /** 1/x, where 1/0 is +infinity and 1/infinity is 0. */
  function XInverse(x: Extended): Extended
  {
    match x
    case NaN => NaN
    case PosInf => Finite(0.0)
    case NegInf => Finite(0.0)
    case Finite(q) => if q == 0.0 then PosInf else Finite(1.0 / q)
  }

  /** The order of the extended reals; NaN is unordered. */
  predicate XLess(x: Extended, y: Extended)
  {
    match (x, y)
    case (NegInf, PosInf) => true
    case (NegInf, Finite(_)) => true
    case (Finite(_), PosInf) => true
    case (Finite(p), Finite(q)) => p < q
    case _ => false
  }

  function XAbs(x: Extended): Extended
  {
    match x
    case NaN => NaN
    case PosInf => PosInf
    case NegInf => PosInf
    case Finite(q) => Finite(if q < 0.0 then -q else q)
  }

  // ---------------------------------------------------------------------
  // The operations of rational.hpp on values

  /** simplify(): divide by the gcd and make the denominator non-negative,
      unless the pair is 0/0. */
  function Normalize(n: int, d: int): Ratio
  {
    if n == 0 && d == 0 then Ratio(0, 0)
    else
      var g := Gcd(Abs(n), Abs(d));
      var n', d' := n / g, d / g;
      if d' < 0 then Ratio(-n', -d') else Ratio(n', d')
  }

  function Classify(r: Ratio): NumberType
  {
    if r.d != 0 then
      if r.n == 0 then Zero else Normal
    else if r.n == 0 then Nan
    else if r.n > 0 then Infinity
    else MinusInfinity
  }

  /** operator+= */
  function Add(a: Ratio, b: Ratio): Ratio
  {
    var s, t := Classify(a), Classify(b);
    if s == Nan || t == Nan || (s == Infinity && t == MinusInfinity) || (s == MinusInfinity && t == Infinity) then
      Ratio(0, 0)
    else if s == Infinity || t == Infinity then Ratio(1, 0)
    else if s == MinusInfinity || t == MinusInfinity then Ratio(-1, 0)
    else Normalize(a.n * b.d + b.n * a.d, a.d * b.d)
  }

  /** Unary operator-: Rational(-numerator, denominator). */
  function Neg(a: Ratio): Ratio
  {
    Normalize(-a.n, a.d)
  }

  /** operator-=: adds the negated numerator over the same denominator. */
  function Sub(a: Ratio, b: Ratio): Ratio
  {
    Add(a, Normalize(-b.n, b.d))
  }

  /** operator*= */
  function Mul(a: Ratio, b: Ratio): Ratio
  {
    var s, t := Classify(a), Classify(b);
    if s == Nan || t == Nan then Ratio(0, 0)
    else if (s == Infinity && t == Infinity) || (s == MinusInfinity && t == MinusInfinity) then Ratio(1, 0)
    else if (s == Infinity && t == MinusInfinity) || (s == MinusInfinity && t == Infinity) then Ratio(-1, 0)
    else if s == Zero || t == Zero then Ratio(0, 1)
    else Normalize(a.n * b.n, a.d * b.d)
  }

  /** inverse(): Rational(denominator, numerator). */
  function Inverse(a: Ratio): Ratio
  {
    Normalize(a.d, a.n)
  }

  /** operator/=: multiplies by the swapped pair. */
  function Div(a: Ratio, b: Ratio): Ratio
  {
    Mul(a, Normalize(b.d, b.n))
  }

  /** equal(): componentwise, so NaN equals NaN. */
  predicate Equal(a: Ratio, b: Ratio)
  {
    a.n == b.n && a.d == b.d
  }

  /** lessThan(): for a/b and c/d with b, d >= 0. */
  predicate LessThan(x: Ratio, y: Ratio)
  {
    var a, b, c, d := x.n, x.d, y.n, y.d;
    if b == 0 then
      if d == 0 then c > 0 && a < 0 else a < 0
    else if d == 0 then c > 0
    else a * d - b * c < 0
  }

  predicate Negative(a: Ratio)
  {
    a.n < 0
  }

  predicate Positive(a: Ratio)
  {
    a.n > 0
  }

  /** zero() as written: tests the numerator only, so NaN counts as zero. */
  predicate IsZeroAsWritten(a: Ratio)
  {
    a.n == 0
  }

  /** zero(), corrected: a zero numerator over a non-zero denominator. */
  predicate IsZero(a: Ratio)
  {
    a.n == 0 && a.d != 0
  }

  /** mabs() */
  function Mabs(a: Ratio): Ratio
  {
    if Negative(a) then Neg(a) else a
  }

  /** multiplyByPowerOfTwo() */
  function MultiplyByPowerOfTwo(a: Ratio, power: nat): Ratio
  {
    if power == 0 then a else Normalize(a.n * Pow2(power), a.d)
  }

  /** divideByPowerOfTwo() */
  function DivideByPowerOfTwo(a: Ratio, power: nat): Ratio
  {
    if power == 0 then a else Normalize(a.n, a.d * Pow2(power))
  }

  /** Integer division of the Integer type: truncates toward zero;
      None for a zero divisor. */
  function TruncatingDiv(a: int, b: int): Option<int>
  {
    if b == 0 then None
    else
      var q := Abs(a) / Abs(b);
      Some(if (a < 0) != (b < 0) then -q else q)
  }

  /** floor() as written: numerator / denominator with the Integer
      type's division. */
  function FloorAsWritten(a: Ratio): Option<Ratio>
  {
    if a.d == 1 then Some(Ratio(a.n, 1))
    else match TruncatingDiv(a.n, a.d)
      case None => None
      case Some(k) => Some(Ratio(k, 1))
  }

  /** ceil() as written, on top of floor() as written. */
  function CeilAsWritten(a: Ratio): Option<Ratio>
  {
    if a.d == 1 then Some(Ratio(a.n, 1))
    else match FloorAsWritten(a)
      case None => None
      case Some(f) => Some(if f.n * a.d != a.n then Ratio(f.n + 1, 1) else f)
  }

  /** floor(), corrected: rounds toward minus infinity, and leaves the
      infinities (and NaN) as they are. */
  function Floor(a: Ratio): Ratio
    requires a.d >= 0
  {
    if a.d == 1 || a.d == 0 then a else Ratio(a.n / a.d, 1)
  }

  /** ceil(), corrected. */
  function Ceil(a: Ratio): Ratio
    requires a.d >= 0
  {
    if a.d == 1 || a.d == 0 then a
    else
      var k := Floor(a).n;
      if k * a.d != a.n then Ratio(k + 1, 1) else Ratio(k, 1)
  }

  // ---------------------------------------------------------------------
  // Arithmetic facts

  lemma QuotientFacts(x: int, g: int)
    requires Divides(g, Abs(x))
    ensures x == g * (x / g) && Abs(x) == g * Abs(x / g)
  {
    DividesQuotient(g, Abs(x));
    var m := Abs(x) / g;
    if x < 0 {
      DivUnique(x, g, -m, 0);
    } else {
      DivUnique(x, g, m, 0);
    }
  }

  lemma ProductNonZero(a: int, b: int)
    requires a != 0 && b != 0
    ensures a * b != 0 && (a * b > 0 <==> (a > 0) == (b > 0))
  {
  }

  lemma RealOfProduct(a: int, b: int)
    ensures (a * b) as real == a as real * b as real
  {
  }

  /** Two fractions are equal exactly when their cross products are. */
  lemma CrossEqual(a: int, b: int, c: int, e: int)
    requires b != 0 && e != 0
    ensures (a as real / b as real == c as real / e as real) <==> a * e == c * b
  {
    var x, y := a as real / b as real, c as real / e as real;
    assert x * b as real == a as real;
    assert y * e as real == c as real;
    RealOfProduct(a, e);
    RealOfProduct(c, b);
    assert (a * e) as real == x * (b as real * e as real);
    assert (c * b) as real == y * (b as real * e as real);
    ProductNonZero(b, e);
    RealOfProduct(b, e);
  }

  /** The same, for the order, with positive denominators. */
  lemma CrossLess(a: int, b: int, c: int, e: int)
    requires b > 0 && e > 0
    ensures (a as real / b as real < c as real / e as real) <==> a * e < c * b
  {
    var x, y := a as real / b as real, c as real / e as real;
    assert x * b as real == a as real;
    assert y * e as real == c as real;
    RealOfProduct(a, e);
    RealOfProduct(c, b);
    RealOfProduct(b, e);
    var be := b as real * e as real;
    assert (a * e) as real == x * be;
    assert (c * b) as real == y * be;
    assert be > 0.0;
  }

  lemma NegFraction(a: int, b: int)
    requires b != 0
    ensures (-a) as real / b as real == -(a as real / b as real)
  {
  }

  lemma RecipFraction(a: int, b: int)
    requires a != 0 && b != 0
    ensures a as real / b as real != 0.0
    ensures b as real / a as real == 1.0 / (a as real / b as real)
  {
    var x := a as real / b as real;
    assert x * b as real == a as real;
  }

  /** (a * c) / b == (a / b) * c */
  lemma ScaleFraction(a: int, b: int, c: int)
    requires b != 0
    ensures (a * c) as real / b as real == (a as real / b as real) * c as real
  {
    var x := a as real / b as real;
    assert x * b as real == a as real;
    RealOfProduct(a, c);
  }

  /** a / (b * c) == (a / b) * (1 / c) */
  lemma ShrinkFraction(a: int, b: int, c: int)
    requires b != 0 && c != 0
    ensures (a as real / (b * c) as real) == (a as real / b as real) * (1.0 / c as real)
  {
    var x := a as real / b as real;
    assert x * b as real == a as real;
    RealOfProduct(b, c);
    ProductNonZero(b, c);
  }

  lemma UnitInterval(y: real, e: real, m: real)
    requires e > 0.0 && y * e == m && 0.0 <= m < e
    ensures 0.0 <= y < 1.0
  {
  }

  /** The integer part of n / d for d > 0. */
  lemma FloorBound(n: int, d: int)
    requires d > 0
    ensures (n / d) as real <= n as real / d as real < (n / d) as real + 1.0
  {
    var k, m := n / d, n % d;
    var e := d as real;
    var x := n as real / e;
    assert x * e == n as real;
    RealOfProduct(k, d);
    assert n as real == k as real * e + m as real;
    assert (x - k as real) * e == m as real;
    UnitInterval(x - k as real, e, m as real);
  }

  /** The least integer not below n / d for d > 0, as ceil() computes it. */
  lemma CeilBound(n: int, d: int)
    requires d > 0
    ensures var k := if (n / d) * d != n then n / d + 1 else n / d;
      k as real - 1.0 < n as real / d as real <= k as real
  {
    var k, m := n / d, n % d;
    FloorBound(n, d);
    if k * d == n {
      CrossEqual(n, d, k, 1);
    } else {
      var e := d as real;
      var x := n as real / e;
      assert x * e == n as real;
      RealOfProduct(k, d);
      assert (x - k as real) * e == m as real;
      assert x != k as real;
    }
  }

  lemma FractionSum(a: int, b: int, c: int, e: int)
    requires b != 0 && e != 0
    ensures (a * e + c * b) as real / (b * e) as real == a as real / b as real + c as real / e as real
  {
    var x, y := a as real / b as real, c as real / e as real;
    assert x * b as real == a as real;
    assert y * e as real == c as real;
    RealOfProduct(a, e);
    RealOfProduct(c, b);
    RealOfProduct(b, e);
    ProductNonZero(b, e);
    var be := b as real * e as real;
    assert (a * e + c * b) as real == (x + y) * be;
  }

  lemma FractionProduct(a: int, b: int, c: int, e: int)
    requires b != 0 && e != 0
    ensures (a * c) as real / (b * e) as real == (a as real / b as real) * (c as real / e as real)
  {
    var x, y := a as real / b as real, c as real / e as real;
    assert x * b as real == a as real;
    assert y * e as real == c as real;
    RealOfProduct(a, c);
    RealOfProduct(b, e);
    ProductNonZero(b, e);
    assert (a * c) as real == (x * y) * (b as real * e as real);
  }

  // ---------------------------------------------------------------------
  // simplify: canonical form and value

  /** The quotients by the gcd, before the sign of the denominator is
      fixed. */
  lemma NormalizeQuotients(n: int, d: int)
    requires n != 0 || d != 0
    ensures Gcd(Abs(n), Abs(d)) > 0
    ensures n == Gcd(Abs(n), Abs(d)) * (n / Gcd(Abs(n), Abs(d)))
    ensures d == Gcd(Abs(n), Abs(d)) * (d / Gcd(Abs(n), Abs(d)))
    ensures Gcd(Abs(n / Gcd(Abs(n), Abs(d))), Abs(d / Gcd(Abs(n), Abs(d)))) == 1
  {
    var g := Gcd(Abs(n), Abs(d));
    GcdDivides(Abs(n), Abs(d));
    QuotientFacts(n, g);
    QuotientFacts(d, g);
    CoprimeQuotients(Abs(n), Abs(d), Abs(n / g), Abs(d / g));
  }

  /** simplify() leaves a canonical pair. */
  lemma NormalizeCanonical(n: int, d: int)
    ensures Canonical(Normalize(n, d))
  {
    if n != 0 || d != 0 {
      NormalizeQuotients(n, d);
      var g := Gcd(Abs(n), Abs(d));
      assert Abs(-(n / g)) == Abs(n / g);
    }
  }

  /** simplify() of an infinity keeps its sign. */
  lemma NormalizeInfinite(n: int)
    requires n != 0
    ensures Normalize(n, 0) == Ratio(if n > 0 then 1 else -1, 0)
  {
    assert Gcd(Abs(n), 0) == Abs(n);
    if n > 0 {
      DivUnique(n, n, 1, 0);
    } else {
      DivUnique(n, -n, -1, 0);
    }
  }

  /** simplify() of a finite pair keeps a non-zero denominator and the
      cross product. */
  lemma NormalizeFinite(n: int, d: int)
    requires d != 0
    ensures Normalize(n, d).d != 0 && Normalize(n, d).n * d == n * Normalize(n, d).d
  {
    NormalizeQuotients(n, d);
    var g := Gcd(Abs(n), Abs(d));
    var n', d' := n / g, d / g;
    CrossOfQuotients(n, d, g, n', d');
  }

  lemma CrossOfQuotients(n: int, d: int, g: int, n': int, d': int)
    requires n == g * n' && d == g * d'
    ensures n' * d == n * d' && (-n') * d == n * (-d')
  {
    assert n' * (g * d') == g * (n' * d');
    assert (g * n') * d' == g * (n' * d');
  }

  /** simplify() keeps the value, including the sign of an infinity. */
  lemma NormalizeValue(n: int, d: int)
    ensures Denote(Normalize(n, d)) == Denote(Ratio(n, d))
  {
    if d == 0 {
      if n != 0 {
        NormalizeInfinite(n);
      }
    } else {
      NormalizeFinite(n, d);
      var r := Normalize(n, d);
      CrossEqual(r.n, r.d, n, d);
    }
  }

  /** Equal cross products over positive denominators: the numerators
      share their sign, so the magnitudes have equal cross products too. */
  lemma AbsCross(n: int, d: int, n': int, d': int)
    requires d > 0 && d' > 0 && n * d' == n' * d
    ensures Abs(n) * d' == Abs(n') * d
  {
    if n < 0 {
      assert n' < 0 by {
        assert n * d' < 0;
      }
      assert (-n) * d' == (-n') * d;
    } else {
      assert n' >= 0 by {
        assert n * d' >= 0;
      }
    }
  }

  /** b divides a * c when a * c == b * k. */
  lemma DividesProduct(a: nat, b: nat, c: nat, k: nat)
    requires b > 0 && a * c == b * k
    ensures Divides(b, a * c)
  {
    MultipleDivides(b, k);
  }

  /** Two fractions in lowest terms with positive denominators and equal
      cross products are the same fraction. */
  lemma LowestTermsUnique(n: int, d: int, n': int, d': int)
    requires d > 0 && d' > 0 && Gcd(Abs(n), d) == 1 && Gcd(Abs(n'), d') == 1
    requires n * d' == n' * d
    ensures n == n' && d == d'
  {
    var m, m' := Abs(n), Abs(n');
    assert Divides(d, m * d') && Divides(d', m' * d) by {
      AbsCross(n, d, n', d');
      DividesProduct(m, d, d', m');
      DividesProduct(m', d', d, m);
    }
    assert d == d' by {
      Coprime(m, d, d');
      Coprime(m', d', d);
      MutualDivisors(d, d');
    }
    MulCancel(d, n, n');
  }

  /** A canonical pair is the only canonical pair for its value: this is
      why equal() may compare components. */
  lemma CanonicalUnique(a: Ratio, b: Ratio)
    requires Canonical(a) && Canonical(b) && Denote(a) == Denote(b)
    ensures a == b
  {
    if a.d == 0 {
      assert Gcd(Abs(a.n), 0) == Abs(a.n);
      assert Gcd(Abs(b.n), 0) == Abs(b.n);
    } else {
      CrossEqual(a.n, a.d, b.n, b.d);
      LowestTermsUnique(a.n, a.d, b.n, b.d);
    }
  }

  /** simplify() does not change a canonical pair. */
  lemma NormalizeCanonicalFixed(r: Ratio)
    requires Canonical(r)
    ensures Normalize(r.n, r.d) == r
  {
    NormalizeCanonical(r.n, r.d);
    NormalizeValue(r.n, r.d);
    CanonicalUnique(Normalize(r.n, r.d), r);
  }

  // ---------------------------------------------------------------------
  // The operations against the extended reals

  /** classify() names the kind of value the pair stands for. */
  lemma ClassifyValue(r: Ratio)
    ensures Classify(r) == Nan <==> Denote(r) == NaN
    ensures Classify(r) == Infinity <==> Denote(r) == PosInf
    ensures Classify(r) == MinusInfinity <==> Denote(r) == NegInf
    ensures Classify(r) == Zero <==> Denote(r) == Finite(0.0)
    ensures Classify(r) == Normal <==> Denote(r).Finite? && Denote(r).q != 0.0
  {
    if r.d != 0 && r.n != 0 {
      assert r.n as real / r.d as real != 0.0 by {
        assert (r.n as real / r.d as real) * r.d as real == r.n as real;
      }
    }
  }

  /** operator+= on two finite values adds them. */
  lemma AddFinite(a: Ratio, b: Ratio)
    requires a.d != 0 && b.d != 0
    ensures Denote(Add(a, b)) == XAdd(Denote(a), Denote(b))
    ensures Canonical(Add(a, b))
  {
    var n, d := a.n * b.d + b.n * a.d, a.d * b.d;
    assert Add(a, b) == Normalize(n, d);
    ProductNonZero(a.d, b.d);
    NormalizeValue(n, d);
    NormalizeCanonical(n, d);
    FractionSum(a.n, a.d, b.n, b.d);
  }

  /** operator+= with an infinity or NaN on either side. */
  lemma AddInfinite(a: Ratio, b: Ratio)
    requires a.d == 0 || b.d == 0
    ensures Denote(Add(a, b)) == XAdd(Denote(a), Denote(b))
    ensures Canonical(Add(a, b))
  {
    assert Gcd(1, 0) == 1;
  }

  /** operator+= is addition of extended reals: NaN is absorbing,
      +infinity + -infinity is NaN, and an infinity absorbs a finite
      value. */
  lemma AddValue(a: Ratio, b: Ratio)
    ensures Denote(Add(a, b)) == XAdd(Denote(a), Denote(b))
    ensures Canonical(Add(a, b))
  {
    if a.d != 0 && b.d != 0 {
      AddFinite(a, b);
    } else {
      AddInfinite(a, b);
    }
  }

  /** Unary minus negates the value. */
  lemma NegValue(a: Ratio)
    ensures Denote(Neg(a)) == XNeg(Denote(a)) && Canonical(Neg(a))
  {
    NormalizeValue(-a.n, a.d);
    NormalizeCanonical(-a.n, a.d);
    if a.d != 0 {
      NegFraction(a.n, a.d);
    }
  }

  /** operator-= subtracts. */
  lemma SubValue(a: Ratio, b: Ratio)
    ensures Denote(Sub(a, b)) == XAdd(Denote(a), XNeg(Denote(b))) && Canonical(Sub(a, b))
  {
    NegValue(b);
    AddValue(a, Normalize(-b.n, b.d));
  }

  /** operator*= when a side is NaN or zero, or both are infinities. */
  lemma MulSpecial(a: Ratio, b: Ratio)
    requires Canonical(a) && Canonical(b)
    requires a.n == 0 || b.n == 0 || (a.d == 0 && b.d == 0)
    ensures Denote(Mul(a, b)) == XMul(Denote(a), Denote(b)) && Canonical(Mul(a, b))
  {
    ClassifyValue(a);
    ClassifyValue(b);
    assert Gcd(0, 1) == 1;
    assert Gcd(1, 0) == 1;
  }

  /** operator*= on two non-zero finite values multiplies them. */
  lemma MulFinite(a: Ratio, b: Ratio)
    requires a.d != 0 && b.d != 0 && a.n != 0 && b.n != 0
    ensures Denote(Mul(a, b)) == XMul(Denote(a), Denote(b)) && Canonical(Mul(a, b))
  {
    var n, d := a.n * b.n, a.d * b.d;
    assert Mul(a, b) == Normalize(n, d);
    ProductNonZero(a.d, b.d);
    NormalizeValue(n, d);
    NormalizeCanonical(n, d);
    FractionProduct(a.n, a.d, b.n, b.d);
  }

  /** operator*= on an infinity and a non-zero finite value. */
  lemma MulMixed(a: Ratio, b: Ratio)
    requires Canonical(a) && Canonical(b) && a.n != 0 && b.n != 0
    requires (a.d == 0) != (b.d == 0)
    ensures Denote(Mul(a, b)) == XMul(Denote(a), Denote(b)) && Canonical(Mul(a, b))
  {
    var n, d := a.n * b.n, a.d * b.d;
    assert d == 0;
    assert Classify(a) != Zero && Classify(b) != Zero;
    assert Mul(a, b) == Normalize(n, d);
    NormalizeValue(n, d);
    NormalizeCanonical(n, d);
    MulInfinite(a, b);
  }

  /** operator*= is multiplication of extended reals, with zero times an
      infinity giving zero. */
  lemma MulValue(a: Ratio, b: Ratio)
    requires Canonical(a) && Canonical(b)
    ensures Denote(Mul(a, b)) == XMul(Denote(a), Denote(b)) && Canonical(Mul(a, b))
  {
    if a.n == 0 || b.n == 0 || (a.d == 0 && b.d == 0) {
      MulSpecial(a, b);
    } else if a.d != 0 && b.d != 0 {
      MulFinite(a, b);
    } else {
      MulMixed(a, b);
    }
  }

  /** An infinity times a non-zero finite value (in either order). */
  lemma MulInfinite(a: Ratio, b: Ratio)
    requires Canonical(a) && Canonical(b) && a.n != 0 && b.n != 0
    requires (a.d == 0) != (b.d == 0)
    ensures Denote(Ratio(a.n * b.n, a.d * b.d)) == XMul(Denote(a), Denote(b))
  {
    ProductNonZero(a.n, b.n);
    var f := if a.d == 0 then b else a;
    assert f.d > 0;
    assert IsPositive(Denote(f)) <==> f.n > 0 by {
      CrossLess(0, 1, f.n, f.d);
    }
  }

  /** inverse() gives the reciprocal; 1/0 is +infinity. */
  lemma InverseValue(a: Ratio)
    requires Canonical(a)
    ensures Denote(Inverse(a)) == XInverse(Denote(a)) && Canonical(Inverse(a))
  {
    NormalizeValue(a.d, a.n);
    NormalizeCanonical(a.d, a.n);
    var r := Ratio(a.d, a.n);
    if a.n == 0 && a.d == 0 {
    } else if a.d == 0 {
      assert Denote(r) == Finite(0.0);
      assert XInverse(Denote(a)) == Finite(0.0);
    } else if a.n == 0 {
      assert Denote(a) == Finite(0.0);
      assert Denote(r) == PosInf;
    } else {
      RecipFraction(a.n, a.d);
      assert Denote(r) == Finite(1.0 / Denote(a).q);
    }
  }

  /** operator/= multiplies by the reciprocal. */
  lemma DivValue(a: Ratio, b: Ratio)
    requires Canonical(a) && Canonical(b)
    ensures Denote(Div(a, b)) == XMul(Denote(a), XInverse(Denote(b))) && Canonical(Div(a, b))
  {
    InverseValue(b);
    MulValue(a, Inverse(b));
  }

  /** Dividing a non-zero finite value by zero gives an infinity of its
      sign; NaN stays NaN. */
  lemma DivByZero(a: Ratio)
    requires Canonical(a) && a.d != 0 && a.n != 0
    ensures Div(a, Ratio(0, 1)) == if a.n > 0 then Ratio(1, 0) else Ratio(-1, 0)
  {
    assert Gcd(1, 0) == 1;
    assert Normalize(1, 0) == Ratio(1, 0);
    DivValue(a, Ratio(0, 1));
    CrossLess(0, 1, a.n, a.d);
    CanonicalUnique(Div(a, Ratio(0, 1)), if a.n > 0 then Ratio(1, 0) else Ratio(-1, 0));
  }

  /** equal() holds exactly for pairs of the same value, NaN included. */
  lemma EqualValue(a: Ratio, b: Ratio)
    requires Canonical(a) && Canonical(b)
    ensures Equal(a, b) <==> Denote(a) == Denote(b)
  {
    if Denote(a) == Denote(b) {
      CanonicalUnique(a, b);
    }
  }

  /** lessThan() is the order of the extended reals, false whenever NaN is
      involved. */
  lemma LessThanValue(a: Ratio, b: Ratio)
    requires a.d >= 0 && b.d >= 0
    ensures LessThan(a, b) <==> XLess(Denote(a), Denote(b))
  {
    if a.d != 0 && b.d != 0 {
      CrossLess(a.n, a.d, b.n, b.d);
    }
  }

  /** negative() and positive() read the sign of the value; the
      corrected zero() is the value zero. */
  lemma SignValue(a: Ratio)
    requires a.d >= 0
    ensures Negative(a) <==> XLess(Denote(a), Finite(0.0)) || Denote(a) == NegInf
    ensures Positive(a) <==> IsPositive(Denote(a))
    ensures IsZero(a) <==> Denote(a) == Finite(0.0)
  {
    if a.d != 0 {
      CrossLess(a.n, a.d, 0, 1);
      CrossLess(0, 1, a.n, a.d);
    }
  }

  /** mabs() is the absolute value. */
  lemma MabsValue(a: Ratio)
    requires Canonical(a)
    ensures Denote(Mabs(a)) == XAbs(Denote(a)) && Canonical(Mabs(a))
  {
    NegValue(a);
    SignValue(a);
    if a.d != 0 {
      CrossLess(a.n, a.d, 0, 1);
    }
  }

  /** Multiplying by a positive constant keeps NaN and the infinities. */
  lemma XMulPositive(x: Extended, c: real)
    requires c > 0.0
    ensures XMul(x, Finite(c)) == if x.Finite? then Finite(x.q * c) else x
  {
  }

  lemma ScaledFinite(a: Ratio, p: int)
    requires a.d != 0 && p > 0
    ensures Denote(Ratio(a.n * p, a.d)) == Finite(Denote(a).q * p as real)
  {
    ScaleFraction(a.n, a.d, p);
  }

  lemma ScaledInfinite(a: Ratio, p: int)
    requires a.d == 0 && p > 0
    ensures Denote(Ratio(a.n * p, a.d)) == Denote(a)
  {
    if a.n != 0 {
      ProductNonZero(a.n, p);
    }
  }

  /** Scaling the numerator by a positive integer scales the value. */
  lemma ScaledValue(a: Ratio, p: int)
    requires p > 0
    ensures Denote(Normalize(a.n * p, a.d)) == XMul(Denote(a), Finite(p as real))
  {
    NormalizeValue(a.n * p, a.d);
    XMulPositive(Denote(a), p as real);
    if a.d != 0 {
      ScaledFinite(a, p);
    } else {
      ScaledInfinite(a, p);
    }
  }

  lemma ShrunkFinite(a: Ratio, p: int)
    requires a.d != 0 && p > 0
    ensures Denote(Ratio(a.n, a.d * p)) == Finite(Denote(a).q * (1.0 / p as real))
  {
    ProductNonZero(a.d, p);
    ShrinkFraction(a.n, a.d, p);
  }

  /** Scaling the denominator by a positive integer divides the value. */
  lemma ShrunkValue(a: Ratio, p: int)
    requires p > 0
    ensures Denote(Normalize(a.n, a.d * p)) == XMul(Denote(a), Finite(1.0 / p as real))
  {
    NormalizeValue(a.n, a.d * p);
    XMulPositive(Denote(a), 1.0 / p as real);
    if a.d != 0 {
      ShrunkFinite(a, p);
    } else {
      assert a.d * p == 0;
    }
  }

  /** multiplyByPowerOfTwo() multiplies the value by 2^power. */
  lemma MultiplyByPowerOfTwoValue(a: Ratio, power: nat)
    requires Canonical(a)
    ensures Denote(MultiplyByPowerOfTwo(a, power)) ==
            XMul(Denote(a), Finite(Pow2(power) as real))
  {
    if power == 0 {
      XMulPositive(Denote(a), 1.0);
    } else {
      ScaledValue(a, Pow2(power));
    }
  }

  /** divideByPowerOfTwo() divides the value by 2^power. */
  lemma DivideByPowerOfTwoValue(a: Ratio, power: nat)
    requires Canonical(a)
    ensures Denote(DivideByPowerOfTwo(a, power)) ==
            XMul(Denote(a), Finite(1.0 / Pow2(power) as real))
  {
    if power == 0 {
      XMulPositive(Denote(a), 1.0);
    } else {
      ShrunkValue(a, Pow2(power));
    }
  }

  /** The corrected floor() is the greatest integer not above the value,
      and leaves infinities alone. */
  lemma FloorValue(a: Ratio)
    requires Canonical(a)
    ensures Floor(a).d == 1 || Floor(a) == a
    ensures a.d != 0 ==> (Floor(a).d == 1 &&
      Floor(a).n as real <= Denote(a).q < Floor(a).n as real + 1.0)
    ensures a.d == 0 ==> Floor(a) == a
  {
    if a.d > 1 {
      FloorBound(a.n, a.d);
    } else if a.d == 1 {
      assert a.n as real / 1.0 == a.n as real;
    }
  }

  /** The corrected ceil() is the least integer not below the value. */
  lemma CeilValue(a: Ratio)
    requires Canonical(a)
    ensures a.d != 0 ==> (Ceil(a).d == 1 &&
      Ceil(a).n as real - 1.0 < Denote(a).q <= Ceil(a).n as real)
    ensures a.d == 0 ==> Ceil(a) == a
  {
    if a.d > 1 {
      CeilBound(a.n, a.d);
    } else if a.d == 1 {
      assert a.n as real / 1.0 == a.n as real;
    }
  }

  /** A canonical non-integer value has a denominator that does not divide
      its numerator. */
  lemma NotInteger(a: Ratio)
    requires Canonical(a) && a.d > 1
    ensures Abs(a.n) % a.d != 0
  {
    DivUnique(1, a.d, 0, 1);
    MultipleDivides(a.d, 1);
    if Abs(a.n) % a.d == 0 {
      GcdGreatest(Abs(a.n), a.d, a.d);
      assert false;
    }
  }

  /** floor() as written rounds a negative non-integer toward zero, one
      above the floor, and ceil() as written then lands one above the
      ceiling; both fail on the infinities. */
  lemma FloorAsWrittenOffByOne(a: Ratio)
    requires Canonical(a) && a.d > 1 && a.n < 0
    ensures FloorAsWritten(a) == Some(Ratio(Floor(a).n + 1, 1))
    ensures CeilAsWritten(a) == Some(Ratio(Ceil(a).n + 1, 1))
  {
    NotInteger(a);
    var m := Abs(a.n);
    var q := m / a.d;
    assert m == q * a.d + m % a.d;
    DivUnique(a.n, a.d, -q - 1, a.d - m % a.d);
    assert Floor(a).n == -q - 1;
    assert (-q) * a.d != a.n;
    assert (-q - 1) * a.d != a.n;
  }

  lemma FloorAsWrittenOnInfinity()
    ensures FloorAsWritten(Ratio(1, 0)) == None && Floor(Ratio(1, 0)) == Ratio(1, 0)
    ensures FloorAsWritten(Ratio(-1, 0)) == None && Floor(Ratio(-1, 0)) == Ratio(-1, 0)
    ensures FloorAsWritten(Ratio(-4, 3)) == Some(Ratio(-1, 1)) && Floor(Ratio(-4, 3)) == Ratio(-2, 1)
  {
  }

  /** zero() as written also holds for NaN, which is not zero. */
  lemma ZeroAsWrittenOnNaN()
    ensures IsZeroAsWritten(Ratio(0, 0)) && Denote(Ratio(0, 0)) == NaN
    ensures !IsZero(Ratio(0, 0))
  {
  }

  // ---------------------------------------------------------------------
  // The mutable Rational

  class Rational {
    var numerator: int
    var denominator: int

    function Value(): Ratio
      reads this
    {
      Ratio(numerator, denominator)
    }

    /** The default constructor: zero. */
    constructor ()
      ensures Value() == Ratio(0, 1) && Canonical(Value())
    {
      numerator, denominator := 0, 1;
      assert Gcd(0, 1) == 1;
    }

    /** Rational(wholes) */
    constructor FromInteger(wholes: int)
      ensures Value() == Ratio(wholes, 1) && Canonical(Value())
    {
      numerator, denominator := wholes, 1;
      assert Gcd(Abs(wholes), 1) == 1 by {
        assert Abs(wholes) % 1 == 0;
        assert Gcd(1, 0) == 1;
      }
    }

    /** Rational(numerator, denominator): simplified. */
    constructor FromPair(n: int, d: int)
      ensures Value() == Normalize(n, d) && Canonical(Value())
      ensures Denote(Value()) == Denote(Ratio(n, d))
    {
      numerator, denominator := n, d;
      new;
      Simplify();
      NormalizeCanonical(n, d);
      NormalizeValue(n, d);
    }

    /** Rational(numerator, denominator, SkipSimplify()) */
    constructor Raw(n: int, d: int)
      ensures Value() == Ratio(n, d)
    {
      numerator, denominator := n, d;
    }

    method Swap(that: Rational)
      modifies this, that
      ensures Value() == old(that.Value()) && that.Value() == old(Value())
    {
      numerator, that.numerator := that.numerator, numerator;
      denominator, that.denominator := that.denominator, denominator;
    }

    /** set(numerator, denominator): simplified. */
    method Set(n: int, d: int)
      modifies this
      ensures Value() == Normalize(n, d)
    {
      var copy := new Rational.FromPair(n, d);
      Swap(copy);
    }

    /** set(numerator, denominator, SkipSimplify()) */
    method SetRaw(n: int, d: int)
      modifies this
      ensures Value() == Ratio(n, d)
    {
      var copy := new Rational.Raw(n, d);
      Swap(copy);
    }

    method Simplify()
      modifies this
      ensures Value() == Normalize(old(numerator), old(denominator))
    {
      if !(numerator == 0 && denominator == 0) {
        var theGcd := Gcd(Abs(numerator), Abs(denominator));
        NormalizeQuotients(numerator, denominator);
        numerator := numerator / theGcd;
        denominator := denominator / theGcd;
        if denominator < 0 {
          numerator := -numerator;
          denominator := -denominator;
        }
      }
    }

    method AddAssign(that: Ratio)
      modifies this
      ensures Value() == Add(old(Value()), that)
    {
      var thisType := Classify(Value());
      var thatType := Classify(that);
      var result := new Rational();
      if thisType == Nan || thatType == Nan ||
         (thisType == Infinity && thatType == MinusInfinity) ||
         (thisType == MinusInfinity && thatType == Infinity) {
        result.SetRaw(0, 0);
      } else if thisType == Infinity || thatType == Infinity {
        result.SetRaw(1, 0);
      } else if thisType == MinusInfinity || thatType == MinusInfinity {
        result.SetRaw(-1, 0);
      } else {
        result.Set(numerator * that.d + that.n * denominator, denominator * that.d);
      }
      Swap(result);
    }

    method SubAssign(that: Ratio)
      modifies this
      ensures Value() == Sub(old(Value()), that)
    {
      var negated := new Rational.FromPair(-that.n, that.d);
      AddAssign(negated.Value());
    }

    method MulAssign(that: Ratio)
      modifies this
      ensures Value() == Mul(old(Value()), that)
    {
      var thisType := Classify(Value());
      var thatType := Classify(that);
      var result := new Rational();
      if thisType == Nan || thatType == Nan {
        result.SetRaw(0, 0);
      } else if (thisType == Infinity && thatType == Infinity) ||
                (thisType == MinusInfinity && thatType == MinusInfinity) {
        result.SetRaw(1, 0);
      } else if (thisType == Infinity && thatType == MinusInfinity) ||
                (thisType == MinusInfinity && thatType == Infinity) {
        result.SetRaw(-1, 0);
      } else if thisType == Zero || thatType == Zero {
        result.SetRaw(0, 1);
      } else {
        result.Set(numerator * that.n, denominator * that.d);
      }
      Swap(result);
    }

    method DivAssign(that: Ratio)
      modifies this
      ensures Value() == Div(old(Value()), that)
    {
      var swapped := new Rational.FromPair(that.d, that.n);
      MulAssign(swapped.Value());
    }
  }
}
