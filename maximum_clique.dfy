// Maximum clique of axis-aligned boxes
// (pastel/geometry/maximum_clique_alignedbox.hpp): interval endpoints as
// events, the augmented search tree whose nodes carry `actives` and
// `maxCliqueSize`, the descent that finds a node of a maximum clique, and
// the search phase of the sweep.
module MaximumCliqueAlignedBox {

  // ---------------------------------------------------------------------
  // Events and their order

  /** EventType; the enum values are OpenMax = 0, ClosedMax = 1,
      ClosedMin = 2, OpenMin = 3. */
  datatype EventType = OpenMax | ClosedMax | ClosedMin | OpenMin

  function EnumValue(t: EventType): nat
  {
    match t
    case OpenMax => 0
    case ClosedMax => 1
    case ClosedMin => 2
    case OpenMin => 3
  }

  /** Where an endpoint at coordinate a takes effect along an axis: an
      open maximum ends just before a, a closed minimum starts at a, a
      closed maximum ends just after a, and an open minimum starts just
      after a. Ordering by this rank makes touching closed intervals
      overlap and touching open ones not. */
  function SweepRank(t: EventType): nat
  {
    match t
    case OpenMax => 0
    case ClosedMin => 1
    case ClosedMax => 2
    case OpenMin => 3
  }

  /** compareType: the enum order with ClosedMin and ClosedMax swapped.
      It is the strict total order of the sweep ranks. */
  function CompareType(left: EventType, right: EventType): (r: bool)
    ensures r <==> SweepRank(left) < SweepRank(right)
  {
    if left == ClosedMax && right == ClosedMin then false
    else if left == ClosedMin && right == ClosedMax then true
    else EnumValue(left) < EnumValue(right)
  }

  /** An Event: the position of an endpoint, the index of its box and the
      kind of endpoint. The box iterator is represented by the index. */
  datatype Event = Event(position: real, index: int, kind: EventType)

  predicate IsMin(e: Event)
  {
    e.kind == ClosedMin || e.kind == OpenMin
  }

  /** Event::operator<: by position, then by endpoint kind, then by
      box index. */
  function EventLess(a: Event, b: Event): (r: bool)
    ensures r <==> a.position < b.position
                   || (a.position == b.position && SweepRank(a.kind) < SweepRank(b.kind))
                   || (a.position == b.position && a.kind == b.kind && a.index < b.index)
  {
    if a.position != b.position then a.position < b.position
    else if a.kind != b.kind then CompareType(a.kind, b.kind)
    else a.index < b.index
  }

  /** The event order is a strict total order on events. */
  lemma EventLessStrictTotal(a: Event, b: Event, c: Event)
    ensures !EventLess(a, a)
    ensures EventLess(a, b) && EventLess(b, c) ==> EventLess(a, c)
    ensures a != b ==> (EventLess(a, b) <==> !EventLess(b, a))
  {
    if a != b && a.position == b.position && a.kind == b.kind {
      assert a.index != b.index;
    }
  }

  // ---------------------------------------------------------------------
  // Counting active intervals along a sequence of events

  /** +1 for a starting point, -1 for an ending point. */
  function Weight(e: Event): (w: int)
    ensures w == 1 || w == -1
  {
    if IsMin(e) then 1 else -1
  }

  /** Starting points minus ending points. */
  function Sum(s: seq<Event>): int
  {
    if s == [] then 0 else Weight(s[0]) + Sum(s[1..])
  }

  function Max(a: int, b: int): int
  {
    if a < b then b else a
  }

  /** The largest sum of a non-empty prefix of s, or -1 when s is empty.
      Walking the endpoints in order, the prefix sum is the number of
      intervals open at that point, so this is the size of a largest
      clique. */
  function MaxPrefix(s: seq<Event>): (m: int)
    ensures s == [] ==> m == -1
    ensures s != [] ==> m >= -1
  {
    if s == [] then -1 else Max(Weight(s[0]), Weight(s[0]) + MaxPrefix(s[1..]))
  }

  lemma {:induction false} SumAppend(a: seq<Event>, b: seq<Event>)
    ensures Sum(a + b) == Sum(a) + Sum(b)
  {
    if a == [] {
      assert a + b == b;
    } else {
      assert a + b != [] && (a + b)[0] == a[0];
      assert (a + b)[1..] == a[1..] + b;
      SumAppend(a[1..], b);
    }
  }

  /** The prefix sum of the whole of s never exceeds the largest prefix
      sum. */
  lemma {:induction false} MaxPrefixAtLeastSum(s: seq<Event>)
    requires s != []
    ensures Sum(s) <= MaxPrefix(s)
  {
    if s[1..] != [] {
      MaxPrefixAtLeastSum(s[1..]);
    }
  }

  lemma {:induction false} MaxPrefixAppend(a: seq<Event>, b: seq<Event>)
    requires a != []
    ensures MaxPrefix(a + b) == Max(MaxPrefix(a), Sum(a) + MaxPrefix(b))
  {
    assert (a + b)[0] == a[0];
    assert (a + b)[1..] == a[1..] + b;
    if a[1..] == [] {
      assert a[1..] + b == b;
    } else {
      MaxPrefixAppend(a[1..], b);
    }
  }

  /** MaxPrefix is the maximum of the non-empty prefix sums: every prefix
      sum is at most MaxPrefix(s) ... */
  lemma {:induction false} PrefixSumAtMost(s: seq<Event>, k: nat)
    requires 0 < k <= |s|
    ensures Sum(s[..k]) <= MaxPrefix(s)
  {
    assert s[..k][1..] == s[1..][..k - 1];
    if k > 1 {
      PrefixSumAtMost(s[1..], k - 1);
    }
  }

  /** ... and some prefix sum attains it. */
  lemma {:induction false} MaxPrefixAttained(s: seq<Event>) returns (k: nat)
    requires s != []
    ensures 0 < k <= |s| && Sum(s[..k]) == MaxPrefix(s)
  {
    if s[1..] == [] || Weight(s[0]) + MaxPrefix(s[1..]) <= Weight(s[0]) {
      k := 1;
      assert s[..1][1..] == [];
    } else {
      var j := MaxPrefixAttained(s[1..]);
      k := j + 1;
      assert s[..k][1..] == s[1..][..j];
    }
  }

  // ---------------------------------------------------------------------
  // The augmented tree

  /** The red-black tree of x-events, seen as a binary search tree whose
      empty children are the sentinel. Balancing is not modelled: any
      shape with the same in-order sequence carries the same
      propagation at its root. */
  datatype Tree = Sentinel | Node(left: Tree, key: Event, right: Tree)

  /** The node data: `actives` is starting points minus ending points in
      the subtree, `maxCliqueSize` the largest such difference over the
      subtree's prefixes. The sentinel holds 0 and -1. */
  datatype Data = Data(actives: int, maxCliqueSize: int)

  function InOrder(t: Tree): seq<Event>
  {
    match t
    case Sentinel => []
    case Node(l, e, r) => InOrder(l) + [e] + InOrder(r)
  }

  /** updatePropagation: a node's data from its children's data. */
  function UpdatePropagation(left: Data, key: Event, right: Data): (d: Data)
    ensures d.actives == left.actives + Weight(key) + right.actives
    ensures d.maxCliqueSize >= left.actives + Weight(key)
  {
    var v := Weight(key);
    var current := left.actives + v;
    Data(left.actives + right.actives + v,
         Max(left.maxCliqueSize, Max(current, current + right.maxCliqueSize)))
  }

  /** The data every node holds once the tree has propagated it. */
  function Propagation(t: Tree): Data
  {
    match t
    case Sentinel => Data(0, -1)
    case Node(l, e, r) => UpdatePropagation(Propagation(l), e, Propagation(r))
  }

  /** The node data mean what the comments of updatePropagation say:
      `actives` is the sum of the subtree's events and `maxCliqueSize`
      the largest prefix sum of its in-order sequence. At the root that
      is the size of a maximum clique of the stored intervals. */
  lemma {:induction false} PropagationIsPrefixMaximum(t: Tree)
    ensures Propagation(t) == Data(Sum(InOrder(t)), MaxPrefix(InOrder(t)))
  {
    match t
    case Sentinel =>
    case Node(l, e, r) =>
      PropagationIsPrefixMaximum(l);
      PropagationIsPrefixMaximum(r);
      var L, R := InOrder(l), InOrder(r);
      assert InOrder(t) == L + ([e] + R);
      assert ([e] + R)[1..] == R;
      SumAppend(L, [e] + R);
      if L != [] {
        MaxPrefixAppend(L, [e] + R);
      }
  }

  /** Every tree holding the same sequence of events reports the same
      clique size at its root, whatever its shape. */
  lemma RootCliqueSize(t: Tree, u: Tree)
    requires InOrder(t) == InOrder(u)
    ensures Propagation(t).maxCliqueSize == Propagation(u).maxCliqueSize
  {
    PropagationIsPrefixMaximum(t);
    PropagationIsPrefixMaximum(u);
  }

  /** cliqueHere: the maximum of the subtree is reached at the node. */
  predicate CliqueHere(t: Tree)
    requires t.Node?
  {
    Propagation(t).maxCliqueSize == Propagation(t.left).actives + Weight(t.key)
  }

  /** cliqueOnLeft: the maximum of the subtree is reached in the left
      subtree. */
  predicate CliqueOnLeft(t: Tree)
    requires t.Node?
  {
    t.left.Node? && Propagation(t).maxCliqueSize == Propagation(t.left).maxCliqueSize
  }

  /** cliqueOnRight: the maximum of the subtree is reached in the right
      subtree. */
  predicate CliqueOnRight(t: Tree)
    requires t.Node?
  {
    t.right.Node?
    && Propagation(t).maxCliqueSize
       == Propagation(t.left).actives + Weight(t.key) + Propagation(t.right).maxCliqueSize
  }

  /** At every node at least one of the three candidates holds (the
      assertion that there is a candidate), and each candidate says where
      a maximal prefix of the subtree ends. */
  lemma CliqueCandidates(t: Tree)
    requires t.Node?
    ensures CliqueHere(t) || CliqueOnLeft(t) || CliqueOnRight(t)
    ensures CliqueHere(t) ==>
              MaxPrefix(InOrder(t)) == Sum(InOrder(t.left) + [t.key])
    ensures CliqueOnLeft(t) ==>
              MaxPrefix(InOrder(t)) == MaxPrefix(InOrder(t.left))
    ensures CliqueOnRight(t) ==>
              MaxPrefix(InOrder(t)) == Sum(InOrder(t.left) + [t.key]) + MaxPrefix(InOrder(t.right))
  {
    PropagationIsPrefixMaximum(t);
    PropagationIsPrefixMaximum(t.left);
    PropagationIsPrefixMaximum(t.right);
    SumAppend(InOrder(t.left), [t.key]);
    assert [t.key][1..] == [];
  }

  // ---------------------------------------------------------------------
  // Paths from the root

  datatype Direction = Current | Left | Right

  function Child(t: Tree, d: Direction): Tree
    requires t.Node? && d != Current
  {
    if d == Left then t.left else t.right
  }

  /** A sequence of Left/Right steps that stays on nodes. */
  predicate ValidPath(t: Tree, path: seq<Direction>)
  {
    path == [] || (t.Node? && path[0] != Current && ValidPath(Child(t, path[0]), path[1..]))
  }

  /** The subtree a path leads to. */
  function Follow(t: Tree, path: seq<Direction>): Tree
    requires ValidPath(t, path)
  {
    if path == [] then t else Follow(Child(t, path[0]), path[1..])
  }

  /** The events that come before the subtree a path leads to. */
  function Before(t: Tree, path: seq<Direction>): seq<Event>
    requires ValidPath(t, path)
  {
    if path == [] then []
    else if path[0] == Left then Before(t.left, path[1..])
    else InOrder(t.left) + [t.key] + Before(t.right, path[1..])
  }

  /** The events that come after the subtree a path leads to. */
  function After(t: Tree, path: seq<Direction>): seq<Event>
    requires ValidPath(t, path)
  {
    if path == [] then []
    else if path[0] == Left then After(t.left, path[1..]) + [t.key] + InOrder(t.right)
    else After(t.right, path[1..])
  }

  /** The subtree a path leads to is a contiguous piece of the in-order
      sequence. */
  lemma {:induction false} FollowSplits(t: Tree, path: seq<Direction>)
    requires ValidPath(t, path)
    ensures InOrder(t) == Before(t, path) + InOrder(Follow(t, path)) + After(t, path)
  {
    if path != [] {
      FollowSplits(Child(t, path[0]), path[1..]);
    }
  }

  /** One more step down from the end of a path. */
  lemma {:induction false} FollowStep(t: Tree, path: seq<Direction>, d: Direction)
    requires ValidPath(t, path) && Follow(t, path).Node? && d != Current
    ensures ValidPath(t, path + [d])
    ensures Follow(t, path + [d]) == Child(Follow(t, path), d)
    ensures Before(t, path + [d])
            == Before(t, path)
               + (if d == Left then [] else InOrder(Follow(t, path).left) + [Follow(t, path).key])
  {
    if path == [] {
      assert [d][1..] == [];
    } else {
      assert (path + [d])[1..] == path[1..] + [d];
      FollowStep(Child(t, path[0]), path[1..], d);
    }
  }

  function Height(t: Tree): nat
  {
    match t
    case Sentinel => 0
    case Node(l, _, r) => 1 + Max(Height(l), Height(r))
  }

  /** The state of the descent: the node a Left/Right path leads to,
      whose subtree holds a maximal prefix of the whole tree. */
  ghost predicate Descent(root: Tree, node: Tree, path: seq<Direction>)
  {
    ValidPath(root, path) && node == Follow(root, path) && node.Node? && Current !in path
    && Sum(Before(root, path)) + MaxPrefix(InOrder(node)) == MaxPrefix(InOrder(root))
  }

  /** Stepping into a candidate subtree keeps the descent on a maximum. */
  lemma DescendStep(root: Tree, node: Tree, path: seq<Direction>, d: Direction)
    requires Descent(root, node, path) && d != Current
    requires d == Left ==> CliqueOnLeft(node)
    requires d == Right ==> CliqueOnRight(node)
    ensures Descent(root, Child(node, d), path + [d])
  {
    CliqueCandidates(node);
    FollowStep(root, path, d);
    var child := Child(node, d);
    if d == Right {
      SumAppend(Before(root, path), InOrder(node.left) + [node.key]);
      assert Sum(Before(root, path + [d]))
             == Sum(Before(root, path)) + Sum(InOrder(node.left) + [node.key]);
    } else {
      assert Before(root, path + [d]) == Before(root, path);
    }
  }

  /** The node a path leads to sits at in-order position k of the tree,
      and the events up to and including it have the largest prefix sum:
      just after its endpoint the most intervals are open. */
  ghost predicate EndsMaximalPrefix(root: Tree, node: Tree, path: seq<Direction>)
    requires ValidPath(root, path) && node.Node?
  {
    var k := |Before(root, path)| + |InOrder(node.left)|;
    k < |InOrder(root)| && InOrder(root)[k] == node.key
    && Sum(InOrder(root)[..k + 1]) == MaxPrefix(InOrder(root))
  }

  /** Where the descent stops, the node ends a maximal prefix. */
  lemma DescentEnds(root: Tree, node: Tree, path: seq<Direction>)
    requires Descent(root, node, path)
    requires CliqueHere(node) || (node.left.Sentinel? && node.right.Sentinel?)
    ensures EndsMaximalPrefix(root, node, path)
  {
    CliqueCandidates(node);
    FollowSplits(root, path);
    var before := Before(root, path);
    var upTo := before + InOrder(node.left) + [node.key];
    Regroup(before, InOrder(node.left), node.key, InOrder(node.right), After(root, path));
    SumAppend(before, InOrder(node.left) + [node.key]);
    PrefixOf(upTo, InOrder(node.right) + After(root, path));
  }

  lemma Regroup(b: seq<Event>, l: seq<Event>, k: Event, r: seq<Event>, a: seq<Event>)
    ensures b + (l + [k] + r) + a == (b + l + [k]) + (r + a)
    ensures b + l + [k] == b + (l + [k])
  {
  }

  lemma PrefixOf(a: seq<Event>, b: seq<Event>)
    ensures (a + b)[..|a|] == a
  {
  }

  /** The candidate set of a node: the directions in which a maximum
      lies. It is never empty. */
  method Candidates(node: Tree) returns (candidates: seq<Direction>)
    requires node.Node?
    ensures 0 < |candidates| <= 3
    ensures forall d :: d in candidates <==>
              (d == Current && CliqueHere(node)) || (d == Left && CliqueOnLeft(node))
              || (d == Right && CliqueOnRight(node))
  {
    CliqueCandidates(node);
    candidates := [];
    if CliqueHere(node) {
      candidates := candidates + [Current];
    }
    if CliqueOnLeft(node) {
      candidates := candidates + [Left];
    }
    if CliqueOnRight(node) {
      candidates := candidates + [Right];
    }
  }

  /** findSomeMaximumClique: walk down from the root into a subtree that
      holds a maximum, picking among the candidates nondeterministically
      (maximumClique() picks at random), until the current node is picked or a
      leaf is reached. The node found ends a maximal prefix: the boxes
      open just after its endpoint form a maximum clique. */
  method FindSomeMaximumClique(root: Tree) returns (node: Tree, path: seq<Direction>)
    requires root.Node?
    ensures ValidPath(root, path) && node == Follow(root, path) && node.Node? && Current !in path
    ensures EndsMaximalPrefix(root, node, path)
  {
    node, path := root, [];
    var picked := false;
    while !picked && (node.left.Node? || node.right.Node?)
      invariant Descent(root, node, path)
      invariant picked ==> CliqueHere(node)
      decreases Height(node), !picked
    {
      var candidates := Candidates(node);
      var index :| 0 <= index < |candidates|;
      var direction := candidates[index];
      assert direction in candidates;
      if direction == Current {
        picked := true;
      } else {
        DescendStep(root, node, path, direction);
        path := path + [direction];
        node := Child(node, direction);
      }
    }
    DescentEnds(root, node, path);
  }

  /** findMaximumClique: follow a recorded path of Left/Right steps. */
  method FindMaximumClique(root: Tree, directions: seq<Direction>) returns (node: Tree)
    requires ValidPath(root, directions)
    ensures node == Follow(root, directions)
  {
    node := root;
    var i := 0;
    while i < |directions|
      invariant 0 <= i <= |directions|
      invariant ValidPath(node, directions[i..])
      invariant Follow(node, directions[i..]) == Follow(root, directions)
    {
      assert directions[i..][1..] == directions[i + 1..];
      node := Child(node, directions[i]);
      i := i + 1;
    }
  }

  // ---------------------------------------------------------------------
  // The sweep

  /** One side of a box: its extent on one axis and whether each end is
      closed. */
  datatype Interval = Interval(lo: real, hi: real, loClosed: bool, hiClosed: bool)

  /** An aligned box in the plane: sides[0] is its x-extent, sides[1] its
      y-extent. */
  datatype Box = Box(sides: seq<Interval>)

  predicate Planar(boxes: seq<Box>)
  {
    forall i :: 0 <= i < |boxes| ==> |boxes[i].sides| == 2
  }

  /** The starting event of box `index` on an axis. */
  function MinEvent(b: Box, index: int, axis: nat): (e: Event)
    requires axis < |b.sides|
    ensures IsMin(e) && e.index == index && e.position == b.sides[axis].lo
  {
    Event(b.sides[axis].lo, index, if b.sides[axis].loClosed then ClosedMin else OpenMin)
  }

  /** The ending event of box `index` on an axis. */
  function MaxEvent(b: Box, index: int, axis: nat): (e: Event)
    requires axis < |b.sides|
    ensures !IsMin(e) && e.index == index && e.position == b.sides[axis].hi
  {
    Event(b.sides[axis].hi, index, if b.sides[axis].hiClosed then ClosedMax else OpenMax)
  }

  /** The event list of the sweep, before sorting: the starting and the
      ending event of each box in turn. */
  method SweepEvents(boxes: seq<Box>, y: nat) returns (events: seq<Event>)
    requires Planar(boxes) && y < 2
    ensures events == EventList(boxes, y)
  {
    events := [];
    var i := 0;
    while i < |boxes|
      invariant 0 <= i <= |boxes|
      invariant events == EventList(boxes[..i], y)
    {
      assert boxes[..i + 1][..i] == boxes[..i];
      events := events + [MinEvent(boxes[i], i, y), MaxEvent(boxes[i], i, y)];
      i := i + 1;
    }
    assert boxes[..|boxes|] == boxes;
  }

  /** The tree as an ordered set: strictly increasing events. */
  ghost predicate Increasing(s: seq<Event>)
  {
    forall i, j :: 0 <= i < j < |s| ==> EventLess(s[i], s[j])
  }

  /** Inserting into the tree: an event already present is not inserted
      again. */
  function Insert(s: seq<Event>, e: Event): seq<Event>
  {
    if s == [] then [e]
    else if e == s[0] then s
    else if EventLess(e, s[0]) then [e] + s
    else [s[0]] + Insert(s[1..], e)
  }

  /** Erasing from the tree: an absent event leaves it unchanged. */
  function Erase(s: seq<Event>, e: Event): seq<Event>
  {
    if s == [] then []
    else if e == s[0] then s[1..]
    else [s[0]] + Erase(s[1..], e)
  }

  /** After insertion the tree holds the event and what it held before,
      and nothing else. */
  lemma {:induction false} InsertMembers(s: seq<Event>, e: Event)
    ensures forall x :: x in Insert(s, e) <==> x == e || x in s
  {
    if s != [] && e != s[0] && !EventLess(e, s[0]) {
      InsertMembers(s[1..], e);
      assert s == [s[0]] + s[1..];
    }
  }

  /** Erasure removes the event from an ordered tree and adds nothing. */
  lemma {:induction false} EraseMembers(s: seq<Event>, e: Event)
    ensures forall x :: x in Erase(s, e) ==> x in s
    ensures Increasing(s) ==> e !in Erase(s, e)
  {
    if s != [] {
      if e == s[0] {
        if Increasing(s) {
          forall j | 1 <= j < |s|
            ensures s[j] != e
          {
            EventLessStrictTotal(s[0], s[j], s[j]);
          }
        }
      } else {
        EraseMembers(s[1..], e);
        assert s == [s[0]] + s[1..];
      }
    }
  }

  /** Insertion keeps the tree ordered. */
  lemma {:induction false} InsertIncreasing(s: seq<Event>, e: Event)
    requires Increasing(s)
    ensures Increasing(Insert(s, e))
  {
    if s != [] && e != s[0] && !EventLess(e, s[0]) {
      InsertIncreasing(s[1..], e);
      InsertMembers(s[1..], e);
      var r := Insert(s, e);
      forall i, j | 0 <= i < j < |r|
        ensures EventLess(r[i], r[j])
      {
        if i == 0 {
          EventLessStrictTotal(e, s[0], s[0]);
          assert r[j] in Insert(s[1..], e);
          if r[j] != e {
            assert r[j] in s[1..];
          }
        }
      }
    } else if s != [] && e != s[0] {
      forall j | 0 < j < |s| + 1
        ensures EventLess(e, ([e] + s)[j])
      {
        EventLessStrictTotal(e, s[0], s[j - 1]);
      }
    }
  }

  /** Erasure keeps the tree ordered. */
  lemma {:induction false} EraseIncreasing(s: seq<Event>, e: Event)
    requires Increasing(s)
    ensures Increasing(Erase(s, e))
  {
    if s != [] && e != s[0] {
      EraseIncreasing(s[1..], e);
      EraseMembers(s[1..], e);
      var r := Erase(s, e);
      forall i, j | 0 <= i < j < |r|
        ensures EventLess(r[i], r[j])
      {
        if i == 0 {
          assert r[j] in Erase(s[1..], e);
          assert r[j] in s[1..];
        }
      }
    }
  }

  /** The boxes whose events have been swept. */
  predicate Indexed(order: seq<Event>, boxes: seq<Box>)
  {
    forall i :: 0 <= i < |order| ==> 0 <= order[i].index < |boxes|
  }

  /** The x-events in the tree after the first k y-events: a starting
      y-event inserts its box's two x-events, an ending one erases them. */
  function Active(order: seq<Event>, boxes: seq<Box>, x: nat, k: nat): seq<Event>
    requires Planar(boxes) && Indexed(order, boxes) && x < 2 && k <= |order|
  {
    if k == 0 then []
    else
      var e := order[k - 1];
      var b := boxes[e.index];
      var a := Active(order, boxes, x, k - 1);
      if IsMin(e) then Insert(Insert(a, MinEvent(b, e.index, x)), MaxEvent(b, e.index, x))
      else Erase(Erase(a, MinEvent(b, e.index, x)), MaxEvent(b, e.index, x))
  }

  /** The tree is always ordered. */
  lemma {:induction false} ActiveIncreasing(order: seq<Event>, boxes: seq<Box>, x: nat, k: nat)
    requires Planar(boxes) && Indexed(order, boxes) && x < 2 && k <= |order|
    ensures Increasing(Active(order, boxes, x, k))
  {
    if k > 0 {
      ActiveIncreasing(order, boxes, x, k - 1);
      var e := order[k - 1];
      var b := boxes[e.index];
      var a := Active(order, boxes, x, k - 1);
      if IsMin(e) {
        InsertIncreasing(a, MinEvent(b, e.index, x));
        InsertIncreasing(Insert(a, MinEvent(b, e.index, x)), MaxEvent(b, e.index, x));
      } else {
        EraseIncreasing(a, MinEvent(b, e.index, x));
        EraseIncreasing(Erase(a, MinEvent(b, e.index, x)), MaxEvent(b, e.index, x));
      }
    }
  }

  /** The clique size the search phase records after the first k
      y-events: the largest root maxCliqueSize above 1 seen just after a
      box was inserted, or 0. */
  function BestSize(order: seq<Event>, boxes: seq<Box>, x: nat, k: nat): (best: int)
    requires Planar(boxes) && Indexed(order, boxes) && x < 2 && k <= |order|
    ensures best == 0 || best > 1
  {
    if k == 0 then 0
    else
      var best := BestSize(order, boxes, x, k - 1);
      var size := MaxPrefix(Active(order, boxes, x, k));
      if IsMin(order[k - 1]) && size > 1 && size > best then size else best
  }

  /** The clique size at the root just after the i-th y-event. */
  function SizeAfter(order: seq<Event>, boxes: seq<Box>, x: nat, i: nat): int
    requires Planar(boxes) && Indexed(order, boxes) && x < 2 && i < |order|
  {
    MaxPrefix(Active(order, boxes, x, i + 1))
  }

  /** The recorded size bounds every clique above 1 seen at a starting
      event among the first k y-events ... */
  lemma {:induction false} BestSizeBounds(order: seq<Event>, boxes: seq<Box>, x: nat, k: nat, i: nat)
    requires Planar(boxes) && Indexed(order, boxes) && x < 2 && k <= |order|
    requires i < k && IsMin(order[i]) && SizeAfter(order, boxes, x, i) > 1
    ensures SizeAfter(order, boxes, x, i) <= BestSize(order, boxes, x, k)
    decreases k
  {
    var e := order[k - 1];
    SearchStep(order, boxes, x, k - 1, MinEvent(boxes[e.index], e.index, x), MaxEvent(boxes[e.index], e.index, x));
    if i < k - 1 {
      BestSizeBounds(order, boxes, x, k - 1, i);
    }
  }

  /** ... and, unless it is 0, is one of them. */
  lemma {:induction false} BestSizeAttained(order: seq<Event>, boxes: seq<Box>, x: nat, k: nat)
    returns (i: nat)
    requires Planar(boxes) && Indexed(order, boxes) && x < 2 && k <= |order|
    requires BestSize(order, boxes, x, k) != 0
    ensures i < k && IsMin(order[i]) && BestSize(order, boxes, x, k) == SizeAfter(order, boxes, x, i)
    decreases k
  {
    var size := MaxPrefix(Active(order, boxes, x, k));
    if !(IsMin(order[k - 1]) && size > 1 && size > BestSize(order, boxes, x, k - 1)) {
      i := BestSizeAttained(order, boxes, x, k - 1);
    } else {
      i := k - 1;
    }
  }

  /** The search phase of maximumClique over the first `limit` sorted
      y-events: the tree of x-events is updated event by event, and the
      root's maxCliqueSize is recorded after each insertion. */
  method SearchPhase(boxes: seq<Box>, order: seq<Event>, x: nat, limit: nat) returns (best: int)
    requires Planar(boxes) && Indexed(order, boxes) && x < 2 && limit <= |order|
    ensures best == BestSize(order, boxes, x, limit)
  {
    var active: seq<Event> := [];
    best := 0;
    var i := 0;
    while i < limit
      invariant 0 <= i <= limit
      invariant active == Active(order, boxes, x, i)
      invariant best == BestSize(order, boxes, x, i)
    {
      var e := order[i];
      var minEvent := MinEvent(boxes[e.index], e.index, x);
      var maxEvent := MaxEvent(boxes[e.index], e.index, x);
      SearchStep(order, boxes, x, i, minEvent, maxEvent);
      if IsMin(e) {
        active := Insert(Insert(active, minEvent), maxEvent);
        var size := MaxPrefix(active);
        if size > 1 && size > best {
          best := size;
        }
      } else {
        active := Erase(Erase(active, minEvent), maxEvent);
      }
      i := i + 1;
    }
  }

  /** One y-event of the search phase. */
  lemma SearchStep(order: seq<Event>, boxes: seq<Box>, x: nat, i: nat, minEvent: Event, maxEvent: Event)
    requires Planar(boxes) && Indexed(order, boxes) && x < 2 && i < |order|
    requires minEvent == MinEvent(boxes[order[i].index], order[i].index, x)
    requires maxEvent == MaxEvent(boxes[order[i].index], order[i].index, x)
    ensures Active(order, boxes, x, i + 1)
            == if IsMin(order[i]) then Insert(Insert(Active(order, boxes, x, i), minEvent), maxEvent)
               else Erase(Erase(Active(order, boxes, x, i), minEvent), maxEvent)
    ensures var size := MaxPrefix(Active(order, boxes, x, i + 1));
            BestSize(order, boxes, x, i + 1)
            == if IsMin(order[i]) && size > 1 && size > BestSize(order, boxes, x, i) then size
               else BestSize(order, boxes, x, i)
  {
  }

  /** The event list of the sweep before sorting: the starting and the
      ending event of each box in turn. */
  function EventList(boxes: seq<Box>, y: nat): (events: seq<Event>)
    requires Planar(boxes) && y < 2
    ensures |events| == 2 * |boxes|
    ensures forall i :: 0 <= i < |boxes| ==>
              events[2 * i] == MinEvent(boxes[i], i, y) && events[2 * i + 1] == MaxEvent(boxes[i], i, y)
  {
    if boxes == [] then []
    else
      var n := |boxes| - 1;
      EventList(boxes[..n], y) + [MinEvent(boxes[n], n, y), MaxEvent(boxes[n], n, y)]
  }

  /** Every event of the list belongs to one of the boxes. */
  lemma {:induction false} EventListIndexed(boxes: seq<Box>, y: nat)
    requires Planar(boxes) && y < 2
    ensures Indexed(EventList(boxes, y), boxes)
  {
    if boxes != [] {
      var n := |boxes| - 1;
      EventListIndexed(boxes[..n], y);
    }
  }

  /** The y-events sorted by Event::operator<: a permutation of the event
      list in increasing order. std::sort is represented by its result. */
  ghost predicate SortedEvents(order: seq<Event>, boxes: seq<Box>, y: nat)
    requires Planar(boxes) && y < 2
  {
    Increasing(order) && multiset(order) == multiset(EventList(boxes, y))
  }

  lemma SortedIndexed(order: seq<Event>, boxes: seq<Box>, y: nat)
    requires Planar(boxes) && y < 2 && SortedEvents(order, boxes, y)
    ensures Indexed(order, boxes) && |order| == 2 * |boxes|
  {
    var events := EventList(boxes, y);
    EventListIndexed(boxes, y);
    assert |order| == |multiset(order)| == |multiset(events)| == |events|;
    forall i | 0 <= i < |order|
      ensures 0 <= order[i].index < |boxes|
    {
      assert order[i] in multiset(order);
      assert order[i] in events;
    }
  }

  /** maximumClique, search phase, as written: the loop runs over the
      first n sorted events, but there are 2n of them. The result is
      below 2 when the boxes are reported as separated. */
  method MaximumCliqueSizeAsWritten(boxes: seq<Box>, sweepDirection: int, order: seq<Event>)
    returns (size: int)
    requires Planar(boxes) && 0 <= sweepDirection < 2
    requires SortedEvents(order, boxes, sweepDirection)
    ensures Indexed(order, boxes) && |boxes| <= |order|
    ensures size == BestSize(order, boxes, 1 - sweepDirection, |boxes|)
  {
    SortedIndexed(order, boxes, sweepDirection);
    size := SearchPhase(boxes, order, 1 - sweepDirection, |boxes|);
  }

  /** maximumClique, search phase, sweeping all 2n events. */
  method MaximumCliqueSize(boxes: seq<Box>, sweepDirection: int, order: seq<Event>)
    returns (size: int)
    requires Planar(boxes) && 0 <= sweepDirection < 2
    requires SortedEvents(order, boxes, sweepDirection)
    ensures Indexed(order, boxes)
    ensures size == BestSize(order, boxes, 1 - sweepDirection, |order|)
  {
    SortedIndexed(order, boxes, sweepDirection);
    size := SearchPhase(boxes, order, 1 - sweepDirection, |order|);
  }

  /** A point lies in a side when it is inside its extent, counting an
      end only when that end is closed. */
  predicate InSide(side: Interval, p: real)
  {
    (side.lo < p || (side.loClosed && side.lo == p)) && (p < side.hi || (side.hiClosed && side.hi == p))
  }

  predicate Contains(b: Box, px: real, py: real)
    requires |b.sides| == 2
  {
    InSide(b.sides[0], px) && InSide(b.sides[1], py)
  }

  /** Three closed boxes on the same x-extent: A = [0, 10] x [0, 1],
      B = [0, 10] x [2, 4] and C = [0, 10] x [3, 5], swept along y. */
  predicate ThreeBoxes(boxes: seq<Box>)
  {
    boxes == [Box([Interval(0.0, 10.0, true, true), Interval(0.0, 1.0, true, true)]),
              Box([Interval(0.0, 10.0, true, true), Interval(2.0, 4.0, true, true)]),
              Box([Interval(0.0, 10.0, true, true), Interval(3.0, 5.0, true, true)])]
  }

  /** Their y-events in sorted order. */
  predicate ThreeBoxesOrder(order: seq<Event>)
  {
    order == [Event(0.0, 0, ClosedMin), Event(1.0, 0, ClosedMax),
              Event(2.0, 1, ClosedMin), Event(3.0, 2, ClosedMin),
              Event(4.0, 1, ClosedMax), Event(5.0, 2, ClosedMax)]
  }

  /** Increasing follows from each neighbour pair being in order. */
  lemma {:induction false} IncreasingFromNeighbours(s: seq<Event>)
    requires forall i :: 0 < i < |s| ==> EventLess(s[i - 1], s[i])
    ensures Increasing(s)
  {
    if s != [] {
      IncreasingFromNeighbours(s[1..]);
      forall j | 0 < j < |s|
        ensures EventLess(s[0], s[j])
      {
        if j > 1 {
          assert EventLess(s[1..][0], s[1..][j - 1]);
          EventLessStrictTotal(s[0], s[1], s[j]);
        }
      }
      forall i, j | 0 <= i < j < |s|
        ensures EventLess(s[i], s[j])
      {
        if i > 0 {
          assert EventLess(s[1..][i - 1], s[1..][j - 1]);
        }
      }
    }
  }

  lemma ThreeBoxesEvents(boxes: seq<Box>, order: seq<Event>)
    requires ThreeBoxes(boxes) && ThreeBoxesOrder(order)
    ensures Planar(boxes)
    ensures EventList(boxes, 1) == [order[0], order[1], order[2], order[4], order[3], order[5]]
  {
    var events := EventList(boxes, 1);
    assert events[0] == MinEvent(boxes[0], 0, 1) && events[1] == MaxEvent(boxes[0], 0, 1);
    assert events[2] == MinEvent(boxes[1], 1, 1) && events[3] == MaxEvent(boxes[1], 1, 1);
    assert events[4] == MinEvent(boxes[2], 2, 1) && events[5] == MaxEvent(boxes[2], 2, 1);
  }

  lemma ThreeBoxesSorted(boxes: seq<Box>, order: seq<Event>)
    requires ThreeBoxes(boxes) && ThreeBoxesOrder(order)
    ensures Planar(boxes) && SortedEvents(order, boxes, 1)
  {
    ThreeBoxesPermutation(boxes, order);
    ThreeBoxesIncreasing(order);
  }

  lemma ThreeBoxesPermutation(boxes: seq<Box>, order: seq<Event>)
    requires ThreeBoxes(boxes) && ThreeBoxesOrder(order)
    ensures Planar(boxes) && multiset(order) == multiset(EventList(boxes, 1))
  {
    ThreeBoxesEvents(boxes, order);
    var events := EventList(boxes, 1);
    assert events == order[..3] + [order[4], order[3], order[5]];
    assert order == order[..3] + [order[3], order[4], order[5]];
  }

  lemma ThreeBoxesIncreasing(order: seq<Event>)
    requires ThreeBoxesOrder(order)
    ensures Increasing(order)
  {
    IncreasingFromNeighbours(order);
  }

  /** The x-events in the tree after each of the first two y-events:
      box A comes and goes. */
  lemma ThreeBoxesActiveA(boxes: seq<Box>, order: seq<Event>)
    requires ThreeBoxes(boxes) && ThreeBoxesOrder(order) && Planar(boxes) && Indexed(order, boxes)
    ensures Active(order, boxes, 0, 1) == [Event(0.0, 0, ClosedMin), Event(10.0, 0, ClosedMax)]
    ensures Active(order, boxes, 0, 2) == []
  {
    var a0, a1 := Event(0.0, 0, ClosedMin), Event(10.0, 0, ClosedMax);
    assert MinEvent(boxes[0], 0, 0) == a0 && MaxEvent(boxes[0], 0, 0) == a1;
    assert Insert([a0], a1) == [a0] + Insert([], a1);
    assert Active(order, boxes, 0, 1) == Insert(Insert([], a0), a1) == [a0, a1];
    assert Erase([a0, a1], a0) == [a1];
  }

  /** The x-events in the tree after the third y-event: B starts. */
  lemma ThreeBoxesActiveB(boxes: seq<Box>, order: seq<Event>)
    requires ThreeBoxes(boxes) && ThreeBoxesOrder(order) && Planar(boxes) && Indexed(order, boxes)
    requires Active(order, boxes, 0, 2) == []
    ensures Active(order, boxes, 0, 3) == [Event(0.0, 1, ClosedMin), Event(10.0, 1, ClosedMax)]
  {
    var b0, b1 := Event(0.0, 1, ClosedMin), Event(10.0, 1, ClosedMax);
    assert MinEvent(boxes[1], 1, 0) == b0 && MaxEvent(boxes[1], 1, 0) == b1;
    assert Insert([b0], b1) == [b0] + Insert([], b1);
  }

  /** The x-events in the tree after the fourth y-event: C starts while
      B is in the tree. */
  lemma ThreeBoxesActiveC(boxes: seq<Box>, order: seq<Event>)
    requires ThreeBoxes(boxes) && ThreeBoxesOrder(order) && Planar(boxes) && Indexed(order, boxes)
    requires Active(order, boxes, 0, 3) == [Event(0.0, 1, ClosedMin), Event(10.0, 1, ClosedMax)]
    ensures Active(order, boxes, 0, 4)
            == [Event(0.0, 1, ClosedMin), Event(0.0, 2, ClosedMin), Event(10.0, 1, ClosedMax), Event(10.0, 2, ClosedMax)]
  {
    var b0, b1 := Event(0.0, 1, ClosedMin), Event(10.0, 1, ClosedMax);
    var c0, c1 := Event(0.0, 2, ClosedMin), Event(10.0, 2, ClosedMax);
    assert MinEvent(boxes[2], 2, 0) == c0 && MaxEvent(boxes[2], 2, 0) == c1;
    assert Insert([b0, b1], c0) == [b0] + Insert([b1], c0) == [b0, c0, b1];
    assert Insert([b0, c0, b1], c1) == [b0] + Insert([c0, b1], c1);
    assert Insert([c0, b1], c1) == [c0] + Insert([b1], c1);
    assert Insert([b1], c1) == [b1] + Insert([], c1);
  }

  /** An ending y-event never changes the recorded size. */
  lemma BestSizeAtEnd(order: seq<Event>, boxes: seq<Box>, x: nat, k: nat)
    requires Planar(boxes) && Indexed(order, boxes) && x < 2 && 0 < k <= |order|
    requires !IsMin(order[k - 1])
    ensures BestSize(order, boxes, x, k) == BestSize(order, boxes, x, k - 1)
  {
  }

  /** The sizes the search phase records for the three boxes. */
  lemma ThreeBoxesBest(boxes: seq<Box>, order: seq<Event>)
    requires ThreeBoxes(boxes) && ThreeBoxesOrder(order) && Planar(boxes) && Indexed(order, boxes)
    requires Active(order, boxes, 0, 1) == [Event(0.0, 0, ClosedMin), Event(10.0, 0, ClosedMax)]
    requires Active(order, boxes, 0, 3) == [Event(0.0, 1, ClosedMin), Event(10.0, 1, ClosedMax)]
    requires Active(order, boxes, 0, 4)
             == [Event(0.0, 1, ClosedMin), Event(0.0, 2, ClosedMin), Event(10.0, 1, ClosedMax), Event(10.0, 2, ClosedMax)]
    ensures BestSize(order, boxes, 0, 3) == 0
    ensures BestSize(order, boxes, 0, 4) == 2
  {
    var a := Active(order, boxes, 0, 1);
    assert MaxPrefix(a[1..]) == -1;
    assert MaxPrefix(a) == 1;
    assert BestSize(order, boxes, 0, 1) == 0;
    BestSizeAtEnd(order, boxes, 0, 2);
    var b := Active(order, boxes, 0, 3);
    assert MaxPrefix(b[1..]) == -1;
    assert MaxPrefix(b) == 1;
    var c := Active(order, boxes, 0, 4);
    assert MaxPrefix(c[3..]) == -1;
    assert MaxPrefix(c[2..]) == -1;
    assert MaxPrefix(c[1..]) == 1;
    assert MaxPrefix(c) == 2;
  }

  /** B and C overlap, but their overlap starts at the fourth of the six
      sorted y-events, which the as-written loop (over the first three)
      never reaches: it reports the boxes as separated, while sweeping all
      events finds the clique of two. */
  lemma AsWrittenMissesClique(boxes: seq<Box>, order: seq<Event>)
    requires ThreeBoxes(boxes) && ThreeBoxesOrder(order)
    ensures Planar(boxes) && SortedEvents(order, boxes, 1) && Indexed(order, boxes)
    ensures Contains(boxes[1], 5.0, 3.5) && Contains(boxes[2], 5.0, 3.5)
    ensures BestSize(order, boxes, 0, |boxes|) == 0
    ensures BestSize(order, boxes, 0, |order|) == 2
  {
    ThreeBoxesSorted(boxes, order);
    SortedIndexed(order, boxes, 1);
    ThreeBoxesActiveA(boxes, order);
    ThreeBoxesActiveB(boxes, order);
    ThreeBoxesActiveC(boxes, order);
    ThreeBoxesBest(boxes, order);
    BestSizeAtEnd(order, boxes, 0, 5);
    BestSizeAtEnd(order, boxes, 0, 6);
  }
}
