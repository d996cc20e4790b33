/**
 * Pastel's Tuple<Type, N>: a fixed-size tuple when N is a positive
 * compile-time constant, and a heap-allocated tuple of run-time size when
 * N is the marker Dynamic.  Both keep their elements in a buffer that the
 * operations update in place; here that buffer is an `array`.
 */
module Tuples {

  /** The marker for a run-time dimension; any negative value serves. */
  const Dynamic: int := -1

  /** The dimension of a derived tuple type: Dynamic stays Dynamic. */
  function ModifyN(n: int, newN: int): int {
    if n == Dynamic then Dynamic else newN
  }

  function AddN(n: int, i: int): int { ModifyN(n, n + i) }

  function SubN(n: int, i: int): int { ModifyN(n, n - i) }

  /** A dynamic dimension absorbs every change of dimension. */
  lemma DynamicAbsorbs(i: int)
    ensures AddN(Dynamic, i) == Dynamic && SubN(Dynamic, i) == Dynamic
  {
  }

  /** Growing a static dimension and shrinking it back returns it. */
  lemma AddSubInverse(n: int, i: nat)
    requires n >= 0
    ensures AddN(n, i) == n + i && AddN(n, i) != Dynamic
    ensures SubN(AddN(n, i), i) == n
  {
  }

  /**
   * A dimension: the constructor demands a non-negative integer, so
   * Dynamic is never a dimension.
   */
  newtype Dimension = d: int | 0 <= d

  /**
   * The contents after assigning an initializer list: the first
   * min(|s|, |list|) elements come from the list, the rest stay.
   */
  function Assigned<T>(s: seq<T>, list: seq<T>): (r: seq<T>)
    ensures |r| == |s|
    ensures forall k :: 0 <= k < |s| ==> r[k] == if k < |list| then list[k] else s[k]
  {
    var m := if |s| <= |list| then |s| else |list|;
    list[..m] + s[m..]
  }

  /** Assigning the same list twice is the same as assigning it once. */
  lemma AssignedIdempotent<T>(s: seq<T>, list: seq<T>)
    ensures Assigned(Assigned(s, list), list) == Assigned(s, list)
  {
  }

  /** A list at least as long as the tuple overwrites every element. */
  lemma AssignedLongList<T>(s: seq<T>, list: seq<T>)
    requires |list| >= |s|
    ensures Assigned(s, list) == list[..|s|]
  {
  }

  /**
   * The contents of a copy of `s` with `n` elements: the first
   * min(|s|, n) elements are kept and the rest are `x`.
   */
  function Resized<T>(s: seq<T>, n: nat, x: T): (r: seq<T>)
    ensures |r| == n
    ensures forall k :: 0 <= k < n ==> r[k] == if k < |s| then s[k] else x
  {
    var m := if |s| <= n then |s| else n;
    s[..m] + seq(n - m, _ => x)
  }

  /** Resizing to the current size changes nothing. */
  lemma ResizedSame<T>(s: seq<T>, x: T)
    ensures Resized(s, |s|, x) == s
  {
  }

  /** Growing and then shrinking back restores the original contents. */
  lemma ResizedRestores<T>(s: seq<T>, n: nat, x: T, y: T)
    requires n >= |s|
    ensures Resized(Resized(s, n, x), |s|, y) == s
  {
  }

  /** Resizing in two steps to a smaller size is resizing once. */
  lemma ResizedShrinks<T>(s: seq<T>, m: nat, n: nat, x: T)
    requires n <= m
    ensures Resized(Resized(s, m, x), n, x) == Resized(s, n, x)
  {
  }

  /** std::fill over a[lo..]. */
  method Fill<T>(a: array<T>, lo: nat, x: T)
    requires lo <= a.Length
    modifies a
    ensures a[..] == old(a[..lo]) + seq(a.Length - lo, _ => x)
  {
    var i := lo;
    while i < a.Length
      invariant lo <= i <= a.Length
      invariant forall k :: 0 <= k < lo ==> a[k] == old(a[k])
      invariant forall k :: lo <= k < i ==> a[k] == x
    {
      a[i] := x;
      i := i + 1;
    }
  }

  /** std::copy_n of the first n elements of s into a. */
  method CopyFrom<T>(s: seq<T>, a: array<T>, n: nat)
    requires n <= |s| && n <= a.Length
    modifies a
    ensures a[..] == s[..n] + old(a[n..])
  {
    var i := 0;
    while i < n
      invariant i <= n
      invariant forall k :: 0 <= k < i ==> a[k] == s[k]
      invariant forall k :: n <= k < a.Length ==> a[k] == old(a[k])
    {
      a[i] := s[i];
      i := i + 1;
    }
  }

  /** std::equal over the first |s| elements of a. */
  method EqualPrefix<T(==)>(s: seq<T>, a: array<T>) returns (r: bool)
    requires |s| <= a.Length
    ensures r <==> s == a[..|s|]
  {
    var i := 0;
    while i < |s|
      invariant i <= |s|
      invariant s[..i] == a[..i]
    {
      if s[i] != a[i] {
        assert s[i] == s[..|s|][i] && a[i] == a[..|s|][i];
        return false;
      }
      assert s[..i + 1] == s[..i] + [s[i]];
      assert a[..i + 1] == a[..i] + [a[i]];
      i := i + 1;
    }
    assert s[..i] == s;
    return true;
  }

  /** A tuple whose size N > 0 is fixed by its type. */
  class StaticTuple<T(==)> {
    const N: nat
    const data: array<T>

    ghost predicate Valid()
      reads this
    {
      data.Length == N && N > 0
    }

    function Elements(): seq<T>
      reads this, data
    {
      data[..]
    }

    /** Tuple(that), Tuple(dimension, that): every element is `x`. */
    constructor Filled(n: Dimension, x: T)
      requires n > 0
      ensures Valid() && N == n as nat && fresh(data)
      ensures Elements() == seq(n as nat, _ => x)
    {
      N := n as nat;
      data := new T[n as nat](_ => x);
    }

    /** Tuple(const Type*), Tuple(dimension, Copy): the first N elements of `that`. */
    constructor FromElements(n: Dimension, that: seq<T>)
      requires n > 0 && |that| >= n as nat
      ensures Valid() && N == n as nat && fresh(data)
      ensures Elements() == that[..n]
    {
      N := n as nat;
      data := new T[n as nat](k requires 0 <= k < n as nat => that[k]);
    }

    /** set(x): every element becomes `x`. */
    method Set(x: T)
      requires Valid()
      modifies data
      ensures Elements() == seq(N, _ => x)
    {
      Fill(data, 0, x);
    }

    /** Assignment from an initializer list. */
    method AssignList(list: seq<T>)
      requires Valid()
      modifies data
      ensures Elements() == Assigned(old(Elements()), list)
    {
      var m := if N <= |list| then N else |list|;
      CopyFrom(list, data, m);
    }

    /** swap: exchanges the elements one by one. */
    method Swap(that: StaticTuple<T>)
      requires Valid() && that.Valid() && that.N == N
      modifies data, that.data
      ensures Elements() == old(that.Elements())
      ensures that.Elements() == old(Elements())
    {
      var i := 0;
      while i < N
        invariant i <= N
        invariant forall k :: 0 <= k < i ==> data[k] == old(that.data[k]) && that.data[k] == old(data[k])
        invariant forall k :: i <= k < N ==> data[k] == old(data[k]) && that.data[k] == old(that.data[k])
      {
        data[i], that.data[i] := that.data[i], data[i];
        i := i + 1;
      }
    }

    /** empty(): a static tuple always has N > 0 elements. */
    method Empty() returns (r: bool)
      requires Valid()
      ensures r <==> |Elements()| == 0
      ensures !r
    {
      r := false;
    }

    /** at(i) and [i]: the index must lie in the tuple. */
    method At(i: int) returns (x: T)
      requires Valid() && 0 <= i < N
      ensures x == Elements()[i]
    {
      x := data[i];
    }

    /**
     * operator==: compares the N elements with the first N elements of
     * `that`, which must have at least that many.
     */
    method Equals(that: seq<T>) returns (r: bool)
      requires Valid() && |that| >= N
      ensures r <==> Elements() == that[..N]
    {
      r := EqualPrefix(that[..N], data);
      assert data[..N] == data[..];
    }
  }

  /** A tuple of run-time size, owning a heap buffer. */
  class DynamicTuple<T(==)> {
    var data: array<T>

    function Elements(): seq<T>
      reads this, data
    {
      data[..]
    }

    /** Tuple(dimension, that): `dimension` copies of `x`. */
    constructor Filled(n: Dimension, x: T)
      ensures fresh(data)
      ensures Elements() == seq(n as nat, _ => x)
    {
      data := new T[n as nat](_ => x);
    }

    /** Tuple(dimension, Copy): the first `dimension` elements of `that`. */
    constructor FromElements(n: Dimension, that: seq<T>)
      requires |that| >= n as nat
      ensures fresh(data)
      ensures Elements() == that[..n]
    {
      data := new T[n as nat](k requires 0 <= k < n as nat => that[k]);
    }

    /** The copy constructor. */
    constructor Copy(that: DynamicTuple<T>)
      ensures fresh(data)
      ensures Elements() == that.Elements()
    {
      var a := new T[that.data.Length](k requires 0 <= k < that.data.Length reads that, that.data => that.data[k]);
      data := a;
    }

    /**
     * Tuple(that, dimension, x) through copyConstruct: keeps the first
     * min(size, dimension) elements of `that` and fills the rest with `x`.
     */
    constructor Resizing(that: DynamicTuple<T>, n: Dimension, x: T)
      ensures fresh(data)
      ensures Elements() == Resized(that.Elements(), n as nat, x)
    {
      var a := CopyConstruct(that.Elements(), n, x);
      data := a;
    }

    /** copyConstruct into a new buffer of `n` elements. */
    static method CopyConstruct(s: seq<T>, n: Dimension, x: T) returns (a: array<T>)
      ensures fresh(a)
      ensures a[..] == Resized(s, n as nat, x)
    {
      var m := if |s| <= n as nat then |s| else n as nat;
      a := new T[n as nat](_ => x);
      CopyFrom(s, a, m);
      Fill(a, m, x);
    }

    /** Copy assignment: the sizes must agree, and the elements are copied. */
    method Assign(that: DynamicTuple<T>)
      requires |that.Elements()| == |Elements()|
      modifies data
      ensures data == old(data)
      ensures Elements() == old(that.Elements())
    {
      CopyFrom(that.data[..], data, data.Length);
    }

    /** Assignment from an initializer list. */
    method AssignList(list: seq<T>)
      modifies data
      ensures Elements() == Assigned(old(Elements()), list)
    {
      var m := if data.Length <= |list| then data.Length else |list|;
      CopyFrom(list, data, m);
    }

    /** resize(n, x) and setSize(n, x): a resized copy swapped in. */
    method Resize(n: Dimension, x: T)
      modifies this
      ensures fresh(data)
      ensures Elements() == Resized(old(Elements()), n as nat, x)
    {
      var a := CopyConstruct(data[..], n, x);
      data := a;
    }

    /** swap: exchanges the buffers. */
    method Swap(that: DynamicTuple<T>)
      modifies this, that
      ensures data == old(that.data) && that.data == old(data)
    {
      data, that.data := that.data, data;
    }

    /** set(x): every element becomes `x`. */
    method Set(x: T)
      modifies data
      ensures Elements() == seq(data.Length, _ => x)
    {
      Fill(data, 0, x);
    }

    /** empty(): true exactly when there are no elements. */
    method Empty() returns (r: bool)
      ensures r <==> Elements() == []
    {
      r := data.Length == 0;
    }

    /** front(): the tuple must not be empty. */
    method Front() returns (x: T)
      requires |Elements()| > 0
      ensures x == Elements()[0]
    {
      x := data[0];
    }

    /** back(): the tuple must not be empty. */
    method Back() returns (x: T)
      requires |Elements()| > 0
      ensures x == Elements()[|Elements()| - 1]
    {
      x := data[data.Length - 1];
    }

    /** at(i) and [i]: the index must lie in the tuple. */
    method At(i: int) returns (x: T)
      requires 0 <= i < |Elements()|
      ensures x == Elements()[i]
    {
      x := data[i];
    }

    /** operator==: the sizes must agree; then the elements are compared. */
    method Equals(that: DynamicTuple<T>) returns (r: bool)
      requires |that.Elements()| == |Elements()|
      ensures r <==> Elements() == that.Elements()
    {
      r := EqualPrefix(data[..], that.data);
      assert that.data[..data.Length] == that.data[..];
    }
  }
}
