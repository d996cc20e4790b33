/**
 * The index arithmetic behind Pastel's N-dimensional Array: extents,
 * storage orders, strides, and the correspondence between positions and
 * linear indices into the element buffer.
 */
module ArrayIndexing {
  import opened Bits

  /** The two storage orders: RowMajor makes axis 0 the fastest. */
  datatype StorageOrder = RowMajor | ColumnMajor

  /** The order_ vector of a storage order on `n` axes. */
  function OrderOf(o: StorageOrder, n: nat): (order: seq<int>)
    ensures |order| == n
    ensures forall i :: 0 <= i < n ==> 0 <= order[i] < n
  {
    if o == RowMajor then seq(n, i => i) else seq(n, i => n - 1 - i)
  }

  /** storageOrder(): decided by whether axis 0 comes first. */
  function OrderName(order: seq<int>): StorageOrder
    requires |order| > 0
  {
    if order[0] == 0 then RowMajor else ColumnMajor
  }

  /**
   * Reading back the storage order gives the one that was set, except
   * that on a single axis both orders are the same vector [0].
   */
  lemma OrderNameOf(o: StorageOrder, n: nat)
    requires n > 0
    ensures OrderName(OrderOf(o, n)) == o <==> o == RowMajor || n >= 2
  {
  }

  /** Both order vectors are permutations of the axes that undo themselves. */
  lemma OrderInvolution(o: StorageOrder, n: nat)
    ensures forall i :: 0 <= i < n ==> 0 <= OrderOf(o, n)[i] < n && OrderOf(o, n)[OrderOf(o, n)[i]] == i
  {
  }

  /** The axes in storage order: `v` itself or `v` reversed. */
  function Arrange(v: seq<int>, o: StorageOrder): (r: seq<int>)
    ensures |r| == |v|
    ensures forall j :: 0 <= j < |v| ==> r[j] == v[OrderOf(o, |v|)[j]]
  {
    if o == RowMajor then v else seq(|v|, j requires 0 <= j < |v| => v[|v| - 1 - j])
  }

  /** Arranging twice restores the original axis order. */
  lemma ArrangeTwice(v: seq<int>, o: StorageOrder)
    ensures Arrange(Arrange(v, o), o) == v
  {
  }

  function Prod(s: seq<int>): int {
    if |s| == 0 then 1 else s[0] * Prod(s[1..])
  }

  /** An extent: no axis is negative. */
  predicate NonNegative(e: seq<int>) {
    forall i :: 0 <= i < |e| ==> e[i] >= 0
  }

  /** `p` lies inside the box [0, e). */
  predicate InExtent(p: seq<int>, e: seq<int>) {
    |p| == |e| && forall i :: 0 <= i < |e| ==> 0 <= p[i] < e[i]
  }

  /** Mixed-radix value with digit d[0] least significant: Horner form. */
  function Horner(d: seq<int>, r: seq<int>): int
    requires |d| == |r|
  {
    if |d| == 0 then 0 else d[0] + r[0] * Horner(d[1..], r[1..])
  }

  /** The mixed-radix digits of k. */
  function Digits(k: int, r: seq<int>): (d: seq<int>)
    requires forall i :: 0 <= i < |r| ==> r[i] > 0
    ensures |d| == |r|
    decreases |r|
  {
    if |r| == 0 then [] else [k % r[0]] + Digits(k / r[0], r[1..])
  }

  /** The prefix products 1, r[0], r[0]*r[1], ... */
  function PrefixProducts(r: seq<int>): (s: seq<int>)
    ensures |s| == |r|
  {
    seq(|r|, j requires 0 <= j < |r| => Prod(r[..j]))
  }

  function Dot(a: seq<int>, b: seq<int>): int
    requires |a| == |b|
  {
    if |a| == 0 then 0 else a[0] * b[0] + Dot(a[1..], b[1..])
  }

  /** The stride vector computeStride produces for an extent and an order. */
  function StrideFor(e: seq<int>, o: StorageOrder): (stride: seq<int>)
    ensures |stride| == |e|
  {
    Arrange(PrefixProducts(Arrange(e, o)), o)
  }

  /** The linear index of a position: its dot product with the strides. */
  function Index(p: seq<int>, stride: seq<int>): int
    requires |p| == |stride|
  {
    Dot(p, stride)
  }

  /** The position of a linear index: the inverse of Index. */
  function Position(k: int, e: seq<int>, o: StorageOrder): (p: seq<int>)
    requires forall i :: 0 <= i < |e| ==> e[i] > 0
    ensures |p| == |e|
  {
    Arrange(Digits(k, Arrange(e, o)), o)
  }

  // ---------------------------------------------------------------------
  // Products

  lemma {:induction false} ProdSnoc(s: seq<int>, x: int)
    ensures Prod(s + [x]) == Prod(s) * x
  {
    if |s| > 0 {
      assert (s + [x])[1..] == s[1..] + [x];
      ProdSnoc(s[1..], x);
    }
  }

  /** The product of a longer prefix takes one more factor. */
  lemma ProdPrefixStep(s: seq<int>, i: nat)
    requires 1 <= i <= |s|
    ensures Prod(s[..i]) == Prod(s[..i - 1]) * s[i - 1]
  {
    assert s[..i] == s[..i - 1] + [s[i - 1]];
    ProdSnoc(s[..i - 1], s[i - 1]);
  }

  lemma {:induction false} ProdNonNegative(s: seq<int>)
    requires NonNegative(s)
    ensures Prod(s) >= 0
    ensures Prod(s) > 0 <==> forall i :: 0 <= i < |s| ==> s[i] > 0
  {
    if |s| > 0 {
      ProdNonNegative(s[1..]);
      if Prod(s) > 0 {
        forall i | 0 <= i < |s| ensures s[i] > 0 {
          if i > 0 { assert s[i] == s[1..][i - 1]; }
        }
      }
    }
  }

  lemma {:induction false} ProdReverse(s: seq<int>)
    ensures Prod(Arrange(s, ColumnMajor)) == Prod(s)
  {
    if |s| > 0 {
      var rest := Arrange(s[1..], ColumnMajor);
      assert Arrange(s, ColumnMajor) == rest + [s[0]];
      ProdSnoc(rest, s[0]);
      ProdReverse(s[1..]);
    }
  }

  /** The number of elements does not depend on the storage order. */
  lemma ProdArrange(s: seq<int>, o: StorageOrder)
    ensures Prod(Arrange(s, o)) == Prod(s)
  {
    if o == ColumnMajor {
      ProdReverse(s);
    }
  }

  // ---------------------------------------------------------------------
  // Positions and indices

  lemma ArrangeInExtent(p: seq<int>, e: seq<int>, o: StorageOrder)
    requires |p| == |e|
    ensures InExtent(Arrange(p, o), Arrange(e, o)) <==> InExtent(p, e)
  {
    if o == ColumnMajor && InExtent(Arrange(p, o), Arrange(e, o)) {
      forall i | 0 <= i < |e| ensures 0 <= p[i] < e[i] {
        var j := |e| - 1 - i;
        assert Arrange(p, o)[j] == p[i] && Arrange(e, o)[j] == e[i];
      }
    }
  }

  lemma {:induction false} HornerBound(d: seq<int>, r: seq<int>)
    requires InExtent(d, r)
    ensures 0 <= Horner(d, r) < Prod(r)
  {
    if |d| > 0 {
      HornerBound(d[1..], r[1..]);
      var h := Horner(d[1..], r[1..]);
      MulMonotone(h, Prod(r[1..]) - 1, r[0]);
      assert r[0] * h <= r[0] * Prod(r[1..]) - r[0];
    }
  }

  lemma {:induction false} DigitsHorner(k: int, r: seq<int>)
    requires forall i :: 0 <= i < |r| ==> r[i] > 0
    requires 0 <= k < Prod(r)
    ensures InExtent(Digits(k, r), r)
    ensures Horner(Digits(k, r), r) == k
    decreases |r|
  {
    if |r| > 0 {
      var q := k / r[0];
      assert k == r[0] * q + k % r[0];
      assert q < Prod(r[1..]) by {
        if q >= Prod(r[1..]) {
          MulMonotone(Prod(r[1..]), q, r[0]);
        }
      }
      assert Digits(k, r)[1..] == Digits(q, r[1..]);
      DigitsHorner(q, r[1..]);
      forall i | 0 <= i < |r| ensures 0 <= Digits(k, r)[i] < r[i] {
        if i > 0 { assert Digits(k, r)[i] == Digits(q, r[1..])[i - 1]; }
      }
    }
  }

  lemma {:induction false} HornerDigits(d: seq<int>, r: seq<int>)
    requires InExtent(d, r)
    ensures Digits(Horner(d, r), r) == d
  {
    if |d| > 0 {
      var h := Horner(d[1..], r[1..]);
      DivUnique(Horner(d, r), r[0], h, d[0]);
      HornerDigits(d[1..], r[1..]);
      assert d == [d[0]] + d[1..];
    }
  }

  lemma {:induction false} DotScale(a: seq<int>, b: seq<int>, c: int)
    requires |a| == |b|
    ensures Dot(a, seq(|b|, j requires 0 <= j < |b| => c * b[j])) == c * Dot(a, b)
  {
    if |a| > 0 {
      var cb := seq(|b|, j requires 0 <= j < |b| => c * b[j]);
      assert cb[1..] == seq(|b| - 1, j requires 0 <= j < |b| - 1 => c * b[1..][j]);
      DotScale(a[1..], b[1..], c);
    }
  }

  lemma {:induction false} DotPrefixProducts(d: seq<int>, r: seq<int>)
    requires |d| == |r|
    ensures Dot(d, PrefixProducts(r)) == Horner(d, r)
  {
    if |d| > 0 {
      var rest := PrefixProducts(r[1..]);
      var scaled := seq(|rest|, j requires 0 <= j < |rest| => r[0] * rest[j]);
      forall j | 0 <= j < |rest| ensures PrefixProducts(r)[1..][j] == scaled[j] {
        assert r[..j + 1][1..] == r[1..][..j];
      }
      assert PrefixProducts(r)[1..] == scaled;
      DotScale(d[1..], rest, r[0]);
      DotPrefixProducts(d[1..], r[1..]);
    }
  }

  lemma {:induction false} DotSnoc(a: seq<int>, b: seq<int>, x: int, y: int)
    requires |a| == |b|
    ensures Dot(a + [x], b + [y]) == Dot(a, b) + x * y
  {
    if |a| > 0 {
      assert (a + [x])[1..] == a[1..] + [x];
      assert (b + [y])[1..] == b[1..] + [y];
      DotSnoc(a[1..], b[1..], x, y);
    }
  }

  lemma {:induction false} DotReverse(a: seq<int>, b: seq<int>)
    requires |a| == |b|
    ensures Dot(Arrange(a, ColumnMajor), Arrange(b, ColumnMajor)) == Dot(a, b)
  {
    if |a| > 0 {
      assert Arrange(a, ColumnMajor) == Arrange(a[1..], ColumnMajor) + [a[0]];
      assert Arrange(b, ColumnMajor) == Arrange(b[1..], ColumnMajor) + [b[0]];
      DotSnoc(Arrange(a[1..], ColumnMajor), Arrange(b[1..], ColumnMajor), a[0], b[0]);
      DotReverse(a[1..], b[1..]);
    }
  }

  lemma DotArrange(a: seq<int>, b: seq<int>, o: StorageOrder)
    requires |a| == |b|
    ensures Dot(Arrange(a, o), Arrange(b, o)) == Dot(a, b)
  {
    if o == ColumnMajor {
      DotReverse(a, b);
    }
  }

  /** The index of a position is its mixed-radix value in storage order. */
  lemma IndexHorner(p: seq<int>, e: seq<int>, o: StorageOrder)
    requires |p| == |e|
    ensures Index(p, StrideFor(e, o)) == Horner(Arrange(p, o), Arrange(e, o))
  {
    var pe := PrefixProducts(Arrange(e, o));
    ArrangeTwice(pe, o);
    DotArrange(Arrange(p, o), pe, o);
    ArrangeTwice(p, o);
    DotPrefixProducts(Arrange(p, o), Arrange(e, o));
  }

  /** Every position inside the extent has an index inside the buffer. */
  lemma IndexInBuffer(p: seq<int>, e: seq<int>, o: StorageOrder)
    requires InExtent(p, e)
    ensures 0 <= Index(p, StrideFor(e, o)) < Prod(e)
  {
    IndexHorner(p, e, o);
    ArrangeInExtent(p, e, o);
    HornerBound(Arrange(p, o), Arrange(e, o));
    ProdArrange(e, o);
  }

  /**
   * A vector whose entry for the j-th axis in storage order is the product
   * of the extents of the axes before it is the stride vector.
   */
  lemma StrideByOrder(s: seq<int>, e: seq<int>, o: StorageOrder)
    requires |s| == |e|
    requires forall j :: 0 <= j < |e| ==> s[OrderOf(o, |e|)[j]] == Prod(Arrange(e, o)[..j])
    ensures s == StrideFor(e, o)
  {
    var order := OrderOf(o, |e|);
    OrderInvolution(o, |e|);
    forall k | 0 <= k < |e| ensures s[k] == StrideFor(e, o)[k] {
      assert order[order[k]] == k;
    }
  }

  /**
   * Every position inside the extent has an index inside the buffer, and
   * Position recovers it: no two positions share an element.
   */
  lemma PositionOfIndex(p: seq<int>, e: seq<int>, o: StorageOrder)
    requires InExtent(p, e)
    ensures forall i :: 0 <= i < |e| ==> e[i] > 0
    ensures 0 <= Index(p, StrideFor(e, o)) < Prod(e)
    ensures Position(Index(p, StrideFor(e, o)), e, o) == p
  {
    IndexHorner(p, e, o);
    ArrangeInExtent(p, e, o);
    HornerBound(Arrange(p, o), Arrange(e, o));
    ProdArrange(e, o);
    HornerDigits(Arrange(p, o), Arrange(e, o));
    ArrangeTwice(p, o);
  }

  /** Every index inside the buffer is the index of a position in the extent. */
  lemma IndexOfPosition(k: int, e: seq<int>, o: StorageOrder)
    requires NonNegative(e) && 0 <= k < Prod(e)
    ensures forall i :: 0 <= i < |e| ==> e[i] > 0
    ensures InExtent(Position(k, e, o), e)
    ensures Index(Position(k, e, o), StrideFor(e, o)) == k
  {
    ProdNonNegative(e);
    ProdArrange(e, o);
    var d := Digits(k, Arrange(e, o));
    DigitsHorner(k, Arrange(e, o));
    ArrangeTwice(d, o);
    ArrangeTwice(e, o);
    ArrangeInExtent(Arrange(d, o), e, o);
    IndexHorner(Arrange(d, o), e, o);
  }
}
