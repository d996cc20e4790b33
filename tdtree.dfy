// Temporal kd-tree (pastel/geometry/tdtree/tdtree.h): the time-ordered
// point set, the simplicity test of the time coordinates, the conversion
// from a time to the first index at or after it, the per-node steps of
// `construct` (leaf rule, split checks, fractional-cascading links) and
// `clear`.
module TemporalKdTree {
  import opened Wrappers

  /** A stored point with its time coordinate. */
  datatype TemporalPoint = TemporalPoint(point: seq<real>, time: real)

  function Times(points: seq<TemporalPoint>): (times: seq<real>)
    ensures |times| == |points|
    ensures forall i :: 0 <= i < |points| ==> times[i] == points[i].time
  {
    if points == [] then [] else [points[0].time] + Times(points[1..])
  }

  ghost predicate NonDecreasing(times: seq<real>)
  {
    forall i, j :: 0 <= i < j < |times| ==> times[i] <= times[j]
  }

  // ---------------------------------------------------------------------
  // Simple time coordinates

  /** (integer)that == that. */
  predicate IsInteger(r: real)
  {
    r.Floor as real == r
  }

  /** times[i] == t0 + i * delta for every i. */
  ghost predicate Arithmetic(times: seq<real>, t0: int, delta: int)
  {
    forall i :: 0 <= i < |times| ==> times[i] == (t0 + i * delta) as real
  }

  /** The times are simple when they are t0 + i * delta for some integers
      t0 and delta. */
  ghost predicate SimpleTimes(times: seq<real>)
  {
    exists t0: int, delta: int :: Arithmetic(times, t0, delta)
  }

  /** Simple times start at an integer and step by an integer. */
  lemma SimpleStart(times: seq<real>, t0: int, delta: int)
    requires Arithmetic(times, t0, delta)
    ensures |times| > 0 ==> times[0] == t0 as real && IsInteger(times[0])
    ensures |times| > 1 ==> times[1] - times[0] == delta as real && IsInteger(times[1] - times[0])
  {
    if |times| > 0 {
      assert times[0] == (t0 + 0 * delta) as real;
    }
    if |times| > 1 {
      assert times[1] == (t0 + 1 * delta) as real;
    }
  }

  /** isSimple: checks the first time, the first step, and then every time
      against the arithmetic progression they determine. */
  method IsSimple(times: seq<real>) returns (r: bool)
    ensures r <==> SimpleTimes(times)
  {
    if times == [] {
      assert Arithmetic(times, 0, 0);
      return true;
    }
    if !IsInteger(times[0]) {
      NotSimple(times);
      return false;
    }
    if |times| == 1 {
      assert Arithmetic(times, times[0].Floor, 0);
      return true;
    }
    if !IsInteger(times[1] - times[0]) {
      NotSimple(times);
      return false;
    }
    var delta := (times[1] - times[0]).Floor;
    var start := times[0].Floor;
    var t := start;
    var i := 0;
    while i < |times|
      invariant 0 <= i <= |times|
      invariant t == start + i * delta
      invariant Arithmetic(times[..i], start, delta)
    {
      if times[i] != t as real {
        Mismatch(times, i, start, delta);
        return false;
      }
      assert times[..i + 1] == times[..i] + [times[i]];
      t := t + delta;
      i := i + 1;
    }
    assert times[..i] == times;
    return true;
  }

  /** A non-integer start or step rules out every progression. */
  lemma NotSimple(times: seq<real>)
    requires |times| > 0
    requires !IsInteger(times[0]) || (|times| > 1 && !IsInteger(times[1] - times[0]))
    ensures !SimpleTimes(times)
  {
    if t0: int, delta: int :| Arithmetic(times, t0, delta) {
      SimpleStart(times, t0, delta);
    }
  }

  /** The first two times fix the progression, so one time off it rules
      out every progression. */
  lemma Mismatch(times: seq<real>, i: nat, start: int, delta: int)
    requires 1 < |times| && i < |times|
    requires times[0] == start as real && times[1] - times[0] == delta as real
    requires times[i] != (start + i * delta) as real
    ensures !SimpleTimes(times)
  {
    if t0: int, d: int :| Arithmetic(times, t0, d) {
      SimpleStart(times, t0, d);
      assert t0 == start && d == delta;
    }
  }

  // ---------------------------------------------------------------------
  // Time to index

  /** The least index whose time is at least `time`, or |times|: every
      time before it is earlier, every time from it on is not. */
  ghost predicate FirstAtLeast(times: seq<real>, time: real, r: int)
  {
    0 <= r <= |times|
    && (forall j :: 0 <= j < r ==> times[j] < time)
    && (forall j :: r <= j < |times| ==> times[j] >= time)
  }

  /** binarySearch over [0, n) for the first index whose time is at least
      `time`, on non-decreasing times. */
  method BinarySearch(times: seq<real>, time: real) returns (r: int)
    requires NonDecreasing(times)
    ensures FirstAtLeast(times, time, r)
  {
    var lo, hi := 0, |times|;
    while lo < hi
      invariant 0 <= lo <= hi <= |times|
      invariant forall j :: 0 <= j < lo ==> times[j] < time
      invariant forall j :: hi <= j < |times| ==> times[j] >= time
    {
      var mid := lo + (hi - lo) / 2;
      if times[mid] >= time {
        hi := mid;
      } else {
        lo := mid + 1;
      }
    }
    return lo;
  }

  /** std::ceil on a real, as an integer. */
  function Ceil(x: real): (c: int)
    ensures x <= c as real < x + 1.0
  {
    -((-x).Floor)
  }

  /** On simple times, the index ceil((time - t0) / delta) is the first at
      or after `time`, for a time strictly inside the time range. */
  lemma SimpleIndex(times: seq<real>, time: real, t0: int, delta: int)
    requires Arithmetic(times, t0, delta) && |times| >= 2
    requires times[0] < time <= times[|times| - 1]
    ensures delta > 0
    ensures FirstAtLeast(times, time, Ceil((time - t0 as real) / delta as real))
  {
    var n := |times|;
    assert times[n - 1] == (t0 + (n - 1) * delta) as real;
    assert times[0] == (t0 + 0 * delta) as real;
    assert (n - 1) * delta > 0;
    var q := (time - t0 as real) / delta as real;
    var r := Ceil(q);
    StepsBetween(time, t0, delta, q, r);
    assert r <= n - 1 by {
      assert time <= (t0 + (n - 1) * delta) as real;
      CeilBelow(time, t0, delta, q, n - 1);
    }
    forall j | 0 <= j < r
      ensures times[j] < time
    {
      assert times[j] == (t0 + j * delta) as real;
      Earlier(t0, delta, j, r - 1);
    }
    forall j | r <= j < n
      ensures times[j] >= time
    {
      assert times[j] == (t0 + j * delta) as real;
      Earlier(t0, delta, r, j);
    }
  }

  /** With q = (time - t0) / delta and r = ceil(q), t0 + r * delta is at
      or after `time` and t0 + (r - 1) * delta before it. */
  lemma StepsBetween(time: real, t0: int, delta: int, q: real, r: int)
    requires delta > 0 && q == (time - t0 as real) / delta as real
    requires q <= r as real < q + 1.0
    ensures (t0 + r * delta) as real >= time
    ensures (t0 + (r - 1) * delta) as real < time
  {
    assert time == t0 as real + q * delta as real;
    assert (r * delta) as real == r as real * delta as real;
    assert ((r - 1) * delta) as real == (r - 1) as real * delta as real;
    assert q * delta as real <= r as real * delta as real;
    assert (r - 1) as real * delta as real < q * delta as real;
  }

  /** A time not after t0 + m * delta has its ceiling at most m. */
  lemma CeilBelow(time: real, t0: int, delta: int, q: real, m: int)
    requires delta > 0 && q == (time - t0 as real) / delta as real
    requires time <= (t0 + m * delta) as real
    ensures Ceil(q) <= m
  {
    assert (m * delta) as real == m as real * delta as real;
    assert q * delta as real <= m as real * delta as real;
    assert q <= m as real;
  }

  /** The progression is non-decreasing. */
  lemma Earlier(t0: int, delta: int, i: int, j: int)
    requires delta > 0 && i <= j
    ensures t0 + i * delta <= t0 + j * delta
  {
    assert j * delta - i * delta == (j - i) * delta;
  }

  // ---------------------------------------------------------------------
  // The per-node steps of construct

  /** What construct makes of a node: a leaf, or a split at a position on
      an axis. */
  datatype NodeShape = Leaf | Split(position: real, axis: int)

  /** The leaf rule and the split checks: a node of at most three points is
      a leaf; otherwise the split rule's axis must be an axis of the bound
      and its position must lie within the bound on that axis, or the
      construction fails. */
  function ChooseShape(count: nat, position: real, axis: int, boundMin: seq<real>, boundMax: seq<real>)
    : (r: Option<NodeShape>)
    requires |boundMin| == |boundMax|
    ensures r == Some(Leaf) <==> count <= 3
    ensures r.Some? && r.value.Split? ==>
              r.value.axis == axis && r.value.position == position
              && 0 <= axis < |boundMin| && boundMin[axis] <= position <= boundMax[axis]
    ensures r == None <==>
              count > 3 && !(0 <= axis < |boundMin| && boundMin[axis] <= position <= boundMax[axis])
  {
    if count <= 3 then Some(Leaf)
    else if !(0 <= axis < |boundMin|) then None
    else if !(position >= boundMin[axis]) then None
    else if !(position <= boundMax[axis]) then None
    else Some(Split(position, axis))
  }

  /** The number of entries of a child earlier than a time. */
  function CountBelow(child: seq<real>, t: real): (c: nat)
    ensures c <= |child|
  {
    if child == [] then 0
    else (if child[0] < t then 1 else 0) + CountBelow(child[1..], t)
  }

  /** In a time-ordered child the earlier entries come first: the count is
      where the entries at or after the time begin. */
  lemma {:induction false} CountBelowSplits(child: seq<real>, t: real)
    requires NonDecreasing(child)
    ensures forall j :: 0 <= j < CountBelow(child, t) ==> child[j] < t
    ensures forall j :: CountBelow(child, t) <= j < |child| ==> child[j] >= t
  {
    if child != [] {
      CountBelowSplits(child[1..], t);
      if child[0] >= t {
        CountBelowNone(child, t);
      }
    }
  }

  lemma {:induction false} CountBelowNone(child: seq<real>, t: real)
    requires NonDecreasing(child) && child != [] && child[0] >= t
    ensures CountBelow(child, t) == 0
  {
    if child[1..] != [] {
      CountBelowNone(child[1..], t);
    }
  }

  /** A later time has at least as many earlier entries. */
  lemma {:induction false} CountBelowMonotone(child: seq<real>, s: real, t: real)
    requires s <= t
    ensures CountBelow(child, s) <= CountBelow(child, t)
  {
    if child != [] {
      CountBelowMonotone(child[1..], s, t);
    }
  }

  /** The fractional-cascading links of a parent towards one child: the
      two-pointer loop of construct. Entry i links to the number of child
      entries earlier than the parent's i-th time; the sentinel entry links
      to the child's size. */
  method CascadeLinks(parent: seq<real>, child: seq<real>) returns (links: seq<nat>)
    requires NonDecreasing(parent) && NonDecreasing(child)
    ensures |links| == |parent| + 1 && links[|parent|] == |child|
    ensures forall i :: 0 <= i < |parent| ==> links[i] == CountBelow(child, parent[i])
  {
    links := [];
    var j := 0;
    var i := 0;
    while i < |parent|
      invariant 0 <= i <= |parent| && |links| == i
      invariant forall k :: 0 <= k < i ==> links[k] == CountBelow(child, parent[k])
      invariant i == 0 ==> j == 0
      invariant i > 0 ==> j == CountBelow(child, parent[i - 1])
    {
      CountBelowSplits(child, parent[i]);
      if i > 0 {
        CountBelowSplits(child, parent[i - 1]);
        CountBelowMonotone(child, parent[i - 1], parent[i]);
      }
      while j < |child| && child[j] < parent[i]
        invariant j <= CountBelow(child, parent[i])
      {
        j := j + 1;
      }
      links := links + [j];
      i := i + 1;
    }
    links := links + [|child|];
  }

  /** The links of a time-ordered parent never decrease. */
  lemma LinksNonDecreasing(parent: seq<real>, child: seq<real>, links: seq<nat>)
    requires NonDecreasing(parent) && |links| == |parent| + 1 && links[|parent|] == |child|
    requires forall i :: 0 <= i < |parent| ==> links[i] == CountBelow(child, parent[i])
    ensures forall i, j :: 0 <= i < j < |links| ==> links[i] <= links[j]
  {
    forall i, j | 0 <= i < j < |links|
      ensures links[i] <= links[j]
    {
      if j < |parent| {
        CountBelowMonotone(child, parent[i], parent[j]);
      }
    }
  }

  // ---------------------------------------------------------------------
  // The tree

  /** TdTree: the time-ordered point set (pointSet_), whether its times are
      simple (simple_), and whether the root is the end node. */
  class TdTree {
    var points: seq<TemporalPoint>
    var simple: bool
    var rootIsEnd: bool

    /** Times in order, and simple_ telling whether they are simple. */
    ghost predicate Valid()
      reads this
    {
      NonDecreasing(Times(points)) && (simple <==> SimpleTimes(Times(points)))
    }

    /** Constructs an empty tree. */
    constructor ()
      ensures Valid() && points == [] && simple && rootIsEnd
    {
      points, simple, rootIsEnd := [], true, true;
      assert Arithmetic(Times([]), 0, 0);
    }

    /** Constructs from points paired with times, as many as the shorter
        of the two gives; the times come in non-decreasing order. The
        node hierarchy is not modelled: the root is a node, not the end. */
    constructor FromPoints(pointSet: seq<seq<real>>, timeSet: seq<real>)
      requires NonDecreasing(timeSet)
      ensures Valid() && !rootIsEnd
      ensures |points| == if |pointSet| < |timeSet| then |pointSet| else |timeSet|
      ensures forall i :: 0 <= i < |points| ==> points[i] == TemporalPoint(pointSet[i], timeSet[i])
    {
      var n := if |pointSet| < |timeSet| then |pointSet| else |timeSet|;
      var built: seq<TemporalPoint> := [];
      var i := 0;
      while i < n
        invariant 0 <= i <= n && |built| == i
        invariant forall k :: 0 <= k < i ==> built[k] == TemporalPoint(pointSet[k], timeSet[k])
      {
        built := built + [TemporalPoint(pointSet[i], timeSet[i])];
        i := i + 1;
      }
      assert Times(built) == timeSet[..n];
      var s := IsSimple(Times(built));
      points, simple, rootIsEnd := built, s, false;
    }

    /** clear: no points, simple times, the root is the end node. */
    method Clear()
      modifies this
      ensures Valid() && points == [] && simple && rootIsEnd
    {
      points, simple, rootIsEnd := [], true, true;
      assert Arithmetic(Times([]), 0, 0);
    }

    /** empty(): whether the root is the end node. */
    function IsEmpty(): (r: bool)
      reads this
      ensures r <==> rootIsEnd
    {
      rootIsEnd
    }

    /** points(). */
    function Size(): (r: nat)
      reads this
      ensures r == |points|
    {
      |points|
    }

    /** timeToIndex: the first index whose time is at least `time`: 0 for
        no points or a time not after the first, points() for a time after
        the last, otherwise by binary search, or in constant time from
        the progression when the times are simple. */
    method TimeToIndex(time: real) returns (r: int)
      requires Valid()
      ensures FirstAtLeast(Times(points), time, r)
      ensures points == [] || time <= points[0].time ==> r == 0
      ensures points != [] && time > points[|points| - 1].time ==> r == |points|
    {
      var times := Times(points);
      if times == [] {
        return 0;
      }
      if time <= times[0] {
        return 0;
      }
      if time > times[|times| - 1] {
        return |times|;
      }
      if !simple {
        r := BinarySearch(times, time);
        return;
      }
      ghost var t0: int, d: int :| Arithmetic(times, t0, d);
      SimpleStart(times, t0, d);
      var tBegin := times[0].Floor;
      var tDelta := (times[1] - tBegin as real).Floor;
      SimpleIndex(times, time, t0, d);
      r := Ceil((time - tBegin as real) / tDelta as real);
    }
  }
}
