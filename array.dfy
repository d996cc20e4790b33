/**
 * Pastel's Array<Type, N>: an N-dimensional array whose elements live in
 * one buffer, addressed through a stride vector that the storage order
 * and the extent determine.
 */
module Arrays {
  import opened ArrayIndexing
  import Tuples

  /**
   * The element at position `p` of a buffer laid out with extent `e` in
   * storage order `o`.
   */
  function Element<T>(a: array<T>, e: seq<int>, o: StorageOrder, p: seq<int>): T
    reads a
    requires a.Length == Prod(e) && InExtent(p, e)
  {
    IndexInBuffer(p, e, o);
    a[Index(p, StrideFor(e, o))]
  }

  /** What a copy into a new extent holds at `p`: the old element or the filler. */
  function Source<T>(src: array<T>, se: seq<int>, so: StorageOrder, x: T, p: seq<int>): T
    reads src
    requires src.Length == Prod(se)
  {
    if InExtent(p, se) then Element(src, se, so, p) else x
  }

  /**
   * The point-by-point copy of copyInitialize and copyConstructLarger:
   * every position of the new extent `e` receives the element of `src` at
   * the same position, or `x` where `src` has no such position.
   */
  method CopyByPosition<T>(dst: array<T>, e: seq<int>, o: StorageOrder,
                           src: array<T>, se: seq<int>, so: StorageOrder, x: T)
    requires NonNegative(e) && dst.Length == Prod(e) && src.Length == Prod(se)
    requires dst != src
    modifies dst
    ensures forall p :: InExtent(p, e) ==> Element(dst, e, o, p) == Source(src, se, so, x, p)
  {
    if dst.Length == 0 {
      NoPositions(e);
      return;
    }
    ProdNonNegative(e);
    GatherByIndex(dst, e, o, src, se, so, x);
    forall p | InExtent(p, e)
      ensures Element(dst, e, o, p) == Source(src, se, so, x, p)
    {
      PositionOfIndex(p, e, o);
    }
  }

  /** The loop of CopyByPosition: visits the new buffer in index order. */
  method GatherByIndex<T>(dst: array<T>, e: seq<int>, o: StorageOrder,
                          src: array<T>, se: seq<int>, so: StorageOrder, x: T)
    requires forall i :: 0 <= i < |e| ==> e[i] > 0
    requires src.Length == Prod(se) && dst != src
    modifies dst
    ensures forall j :: 0 <= j < dst.Length ==> dst[j] == Source(src, se, so, x, Position(j, e, o))
  {
    var k := 0;
    while k < dst.Length
      invariant 0 <= k <= dst.Length
      invariant forall j :: 0 <= j < k ==> dst[j] == Source(src, se, so, x, Position(j, e, o))
    {
      dst[k] := Source(src, se, so, x, Position(k, e, o));
      k := k + 1;
    }
  }

  /** On a single axis both storage orders give the stride [1]. */
  lemma SingleAxisStride(e: seq<int>)
    requires |e| == 1
    ensures StrideFor(e, RowMajor) == StrideFor(e, ColumnMajor) == [1]
  {
    assert Arrange(e, ColumnMajor) == e;
    assert PrefixProducts(e)[0] == Prod(e[..0]) == 1;
  }

  class Array<T(0)> {
    var extent: seq<int>
    var stride: seq<int>
    var order: seq<int>
    var size: int
    var data: array<T>

    /** storageOrder() */
    function Storage(): StorageOrder
      reads this
      requires |order| > 0
    {
      OrderName(order)
    }

    /**
     * The class invariant: the order vector is one of the two storage
     * orders, the buffer holds product(extent) elements, and whenever
     * there is an element the strides are those computeStride derives.
     */
    ghost predicate Valid()
      reads this
    {
      |extent| >= 1 && |order| == |extent| && |stride| == |extent|
      && NonNegative(extent)
      && order == OrderOf(Storage(), |extent|)
      && size == Prod(extent) && data.Length == size
      && (size > 0 ==> stride == StrideFor(extent, Storage()))
    }

    /** The element at position `p`. */
    ghost function At(p: seq<int>): T
      reads this, data
      requires Valid() && InExtent(p, extent)
    {
      Element(data, extent, Storage(), p)
    }

    /** Array(): no elements on `n` axes, in row-major order. */
    constructor Init(n: nat)
      requires n >= 1
      ensures Valid() && fresh(data)
      ensures extent == seq(n, _ => 0) && size == 0 && order == OrderOf(RowMajor, n)
    {
      extent := seq(n, _ => 0);
      stride := seq(n, _ => 0);
      order := seq(n, _ => 0);
      size := 0;
      data := new T[0];
      new;
      ProdZero(extent);
      SetStorageOrder(RowMajor);
    }

    /** Array(extent, defaultData, order): every element is `x`. */
    constructor Filled(e: seq<int>, x: T, o: StorageOrder)
      requires |e| >= 1 && NonNegative(e)
      ensures Valid() && fresh(data)
      ensures extent == e && order == OrderOf(o, |e|)
      ensures data[..] == seq(size, _ => x)
    {
      ProdNonNegative(e);
      extent := e;
      stride := seq(|e|, _ => 0);
      order := seq(|e|, _ => 0);
      size := Prod(e);
      data := new T[Prod(e)](_ => x);
      new;
      SetStorageOrder(o);
    }

    /**
     * Array(that, order) through copyConstruct: the same extent and the
     * same element at every position, laid out in `o`.
     */
    constructor Copy(that: Array<T>, o: StorageOrder)
      requires that.Valid()
      ensures Valid() && fresh(data)
      ensures extent == that.extent && order == OrderOf(o, |extent|)
      ensures forall p :: InExtent(p, extent) ==> At(p) == that.At(p)
    {
      extent := that.extent;
      stride := seq(|that.extent|, _ => 0);
      order := seq(|that.extent|, _ => 0);
      size := that.size;
      data := new T[that.size];
      new;
      SetStorageOrder(o);
      var thatOrder := that.Storage();
      if o == thatOrder {
        assert order == that.order;
        Tuples.CopyFrom(that.data[..], data, size);
        SameLayout(this, that);
      } else {
        var filler: T := *;
        CopyByPosition(data, extent, Storage(), that.data, that.extent, that.Storage(), filler);
      }
    }

    /**
     * Array(that, extent, defaultData, order) through copyConstructLarger:
     * positions inside both extents keep their element, the others are `x`.
     */
    constructor Larger(that: Array<T>, e: seq<int>, x: T, o: StorageOrder)
      requires that.Valid() && |e| == |that.extent| && NonNegative(e)
      ensures Valid() && fresh(data)
      ensures extent == e && order == OrderOf(o, |e|)
      ensures forall p :: InExtent(p, e) ==>
        At(p) == if InExtent(p, that.extent) then that.At(p) else x
    {
      ProdNonNegative(e);
      extent := e;
      stride := seq(|e|, _ => 0);
      order := seq(|e|, _ => 0);
      size := Prod(e);
      data := new T[Prod(e)];
      new;
      SetStorageOrder(o);
      if size == 0 {
        NoPositions(e);
        return;
      }
      if that.size == 0 {
        Tuples.Fill(data, 0, x);
        NoPositions(that.extent);
        FilledElements(this, x);
        return;
      }
      if extent == that.extent && order == that.order {
        Tuples.CopyFrom(that.data[..], data, size);
        SameLayout(this, that);
        return;
      }
      CopyByPosition(data, extent, Storage(), that.data, that.extent, that.Storage(), x);
    }

    /** computeStride: each axis in storage order steps over the previous ones. */
    method ComputeStride()
      requires |extent| >= 1 && |order| == |extent|
      requires order == OrderOf(Storage(), |extent|)
      modifies this
      ensures extent == old(extent) && order == old(order) && size == old(size) && data == old(data)
      ensures stride == StrideFor(extent, Storage())
    {
      var d := |extent|;
      ghost var o := Storage();
      OrderInvolution(o, d);
      ghost var a := Arrange(extent, o);
      var s := seq(d, _ => 0);
      s := s[order[0] := 1];
      assert s[order[0]] == Prod(a[..0]);
      var i := 1;
      while i < d
        invariant 1 <= i <= d && |s| == d
        invariant extent == old(extent) && order == old(order) && size == old(size) && data == old(data)
        invariant order == OrderOf(o, d)
        invariant forall j :: 0 <= j < i ==> s[order[j]] == Prod(a[..j])
      {
        var j := order[i - 1];
        var k := order[i];
        ProdPrefixStep(a, i);
        s := s[k := s[j] * extent[j]];
        i := i + 1;
      }
      StrideByOrder(s, extent, o);
      stride := s;
    }

    /** setStorageOrder: fills the order vector and recomputes the strides. */
    method SetStorageOrder(o: StorageOrder)
      requires |extent| >= 1 && |order| == |extent|
      modifies this
      ensures extent == old(extent) && size == old(size) && data == old(data)
      ensures order == OrderOf(o, |extent|)
      ensures stride == StrideFor(extent, o)
      ensures order == OrderOf(Storage(), |extent|)
      ensures stride == StrideFor(extent, Storage())
    {
      var n := |order|;
      var i := 0;
      while i < n
        invariant 0 <= i <= n && |order| == n
        invariant extent == old(extent) && size == old(size) && data == old(data)
        invariant forall j :: 0 <= j < i ==> order[j] == OrderOf(o, n)[j]
      {
        order := order[i := if o == RowMajor then i else n - i - 1];
        i := i + 1;
      }
      OrderNameOf(o, n);
      if n == 1 {
        SingleAxisStride(extent);
      }
      ComputeStride();
    }

    /** storageOrder(): the order the strides were computed for. */
    method StorageOrderOf() returns (o: StorageOrder)
      requires Valid()
      ensures order == OrderOf(o, |extent|)
      ensures size > 0 ==> stride == StrideFor(extent, o)
    {
      o := if order[0] == 0 then RowMajor else ColumnMajor;
    }

    /** clear(): no elements; the storage order is kept. */
    method Clear()
      requires Valid()
      modifies this
      ensures Valid() && fresh(data)
      ensures order == old(order) && size == 0
      ensures extent == seq(|old(extent)|, _ => 0) && stride == seq(|old(extent)|, _ => 0)
    {
      extent := seq(|extent|, _ => 0);
      stride := seq(|stride|, _ => 0);
      size := 0;
      data := new T[0];
      ProdZero(extent);
    }

    /** swap: exchanges the whole state of two arrays. */
    method Swap(that: Array<T>)
      modifies this, that
      ensures extent == old(that.extent) && that.extent == old(extent)
      ensures stride == old(that.stride) && that.stride == old(stride)
      ensures order == old(that.order) && that.order == old(order)
      ensures size == old(that.size) && that.size == old(size)
      ensures data == old(that.data) && that.data == old(data)
    {
      extent, that.extent := that.extent, extent;
      stride, that.stride := that.stride, stride;
      order, that.order := that.order, order;
      size, that.size := that.size, size;
      data, that.data := that.data, data;
    }

    /**
     * setExtent: a zero-element extent clears the array; otherwise the
     * positions inside both extents keep their elements and the new ones
     * are `x`.
     */
    method SetExtent(e: seq<int>, x: T)
      requires Valid() && |e| == |extent| && NonNegative(e)
      modifies this
      ensures Valid() && order == old(order)
      ensures Prod(e) == 0 ==> size == 0 && extent == seq(|e|, _ => 0)
      ensures Prod(e) != 0 ==> extent == e
      ensures Prod(e) != 0 ==> forall p :: InExtent(p, e) ==>
        At(p) == if InExtent(p, old(extent)) then old(At(p)) else x
    {
      var units := Prod(e);
      if units == 0 {
        Clear();
      } else if e != extent {
        var o := StorageOrderOf();
        var copy := new Array.Larger(this, e, x, o);
        Swap(copy);
      }
    }

    /** reshape: a new extent with the same number of elements; the buffer is kept. */
    method Reshape(e: seq<int>)
      requires Valid() && |e| == |extent| && NonNegative(e) && Prod(e) == size
      modifies this
      ensures Valid() && data == old(data) && size == old(size) && order == old(order)
      ensures size > 0 ==> extent == e
      ensures size == 0 ==> extent == old(extent)
    {
      var units := Prod(e);
      if units > 0 {
        extent := e;
        ComputeStride();
        size := units;
      }
    }

    /** empty() */
    method Empty() returns (r: bool)
      requires Valid()
      ensures r <==> forall p :: !InExtent(p, extent)
    {
      r := size == 0;
      if r {
        NoPositions(extent);
      } else {
        IndexOfPosition(0, extent, Storage());
      }
    }

    /** operator()(index): the index must lie in the buffer. */
    method AtIndex(k: int) returns (x: T)
      requires Valid() && 0 <= k < size
      ensures forall p :: InExtent(p, extent) && Index(p, stride) == k ==> x == At(p)
    {
      IndexOfPosition(k, extent, Storage());
      x := data[k];
    }

    /** index(position): a position inside the extent has an index inside the buffer. */
    method IndexOf(p: seq<int>) returns (k: int)
      requires Valid() && InExtent(p, extent)
      ensures 0 <= k < size
      ensures Position(k, extent, Storage()) == p
    {
      PositionOfIndex(p, extent, Storage());
      k := Index(p, stride);
    }

    /** position(index): the position whose element is stored at `k`. */
    method PositionOf(k: int) returns (p: seq<int>)
      requires Valid() && 0 <= k < size
      ensures InExtent(p, extent)
      ensures Index(p, stride) == k
    {
      IndexOfPosition(k, extent, Storage());
      p := Position(k, extent, Storage());
    }

    /** operator()(position): the element stored at the position's index. */
    method AtPosition(p: seq<int>) returns (x: T)
      requires Valid() && InExtent(p, extent)
      ensures x == At(p)
    {
      PositionOfIndex(p, extent, Storage());
      x := data[Index(p, stride)];
    }

    /**
     * operator=(Array): equal extents copy the elements in place (by
     * position when the storage orders differ); otherwise a copy in this
     * array's storage order is swapped in.
     */
    method Assign(that: Array<T>)
      requires Valid() && that.Valid() && |that.extent| == |extent|
      requires this == that || data != that.data
      modifies this, data
      ensures Valid() && order == old(order)
      ensures extent == old(that.extent)
      ensures forall p :: InExtent(p, extent) ==> At(p) == old(that.At(p))
    {
      if this == that {
        return;
      }
      if extent == that.extent {
        AssignElements(that);
      } else {
        var o := StorageOrderOf();
        var copy := new Array.Copy(that, o);
        Swap(copy);
      }
    }

    /** assign: copies the elements of an array with the same extent. */
    method AssignElements(that: Array<T>)
      requires Valid() && that.Valid() && extent == that.extent && data != that.data
      modifies data
      ensures forall p :: InExtent(p, extent) ==> At(p) == that.At(p)
    {
      var mine := StorageOrderOf();
      var theirs := that.StorageOrderOf();
      if mine == theirs {
        Tuples.CopyFrom(that.data[..], data, size);
        SameLayout(this, that);
      } else {
        var filler: T := *;
        CopyByPosition(data, extent, Storage(), that.data, that.extent, that.Storage(), filler);
      }
    }

    /** operator=(initializer_list): the first min(size, |list|) elements. */
    method AssignList(list: seq<T>)
      requires Valid()
      modifies data
      ensures data[..] == Tuples.Assigned(old(data[..]), list)
    {
      var m := if size <= |list| then size else |list|;
      Tuples.CopyFrom(list, data, m);
    }

    /** operator=(Type): every element becomes `x`. */
    method Fill(x: T)
      requires Valid()
      modifies data
      ensures data[..] == seq(size, _ => x)
      ensures forall p :: InExtent(p, extent) ==> At(p) == x
    {
      Tuples.Fill(data, 0, x);
      FilledElements(this, x);
    }
  }

  /** An extent with no elements has no positions. */
  lemma NoPositions(e: seq<int>)
    requires Prod(e) == 0
    ensures forall p :: !InExtent(p, e)
  {
    forall p | InExtent(p, e) ensures false {
      PositionOfIndex(p, e, RowMajor);
    }
  }

  /** A buffer filled with `x` holds `x` at every position. */
  lemma FilledElements<T(0)>(a: Array<T>, x: T)
    requires a.Valid() && a.data[..] == seq(a.size, _ => x)
    ensures forall p :: InExtent(p, a.extent) ==> a.At(p) == x
  {
    forall p | InExtent(p, a.extent) ensures a.At(p) == x {
      PositionOfIndex(p, a.extent, a.Storage());
      var k := Index(p, StrideFor(a.extent, a.Storage()));
      assert a.data[k] == a.data[..][k];
    }
  }

  /** Two arrays with the same extent, order and buffer contents hold the same elements. */
  lemma SameLayout<T(0)>(a: Array<T>, b: Array<T>)
    requires a.Valid() && b.Valid()
    requires a.extent == b.extent && a.order == b.order && a.data[..] == b.data[..]
    ensures forall p :: InExtent(p, a.extent) ==> a.At(p) == b.At(p)
  {
    forall p | InExtent(p, a.extent) ensures a.At(p) == b.At(p) {
      PositionOfIndex(p, a.extent, a.Storage());
      var k := Index(p, StrideFor(a.extent, a.Storage()));
      assert a.data[k] == a.data[..][k] == b.data[..][k] == b.data[k];
    }
  }

  lemma {:induction false} ProdZero(e: seq<int>)
    requires |e| >= 1 && forall i :: 0 <= i < |e| ==> e[i] == 0
    ensures Prod(e) == 0
  {
  }
}
