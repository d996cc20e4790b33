/**
 * Pastel's bounding-box kd-tree (`KdTree<N, Real, ObjectPolicy>`):
 * the packed node words, the leaf object ranges, and the tree-level
 * operations that subdivide leaves, splice objects into them and
 * refine the subdivision.
 *
 * The node hierarchy is modelled as a value (`KdNode`); a cursor is
 * the path of child choices from the root. The object policy's
 * per-axis bound is a function field of the tree.
 */
module KdTrees {

  // ---------------------------------------------------------------
  // Node words. `pointer_integer` is a 64-bit unsigned word.
  // ---------------------------------------------------------------

  /** The word a leaf node stores: its object count shifted up, tagged by bit 0. */
  function LeafWord(objects: bv64): (w: bv64)
  {
    (objects << 1) + 1
  }

  /** `Node::leaf()`: bit 0 of the word tells a leaf. */
  predicate IsLeafWord(w: bv64)
  {
    w & 1 != 0
  }

  /** `LeafNode::objects()`. */
  function WordObjects(w: bv64): bv64
  {
    w >> 1
  }

  /** A leaf word reads back as a leaf holding the count it was built from. */
  lemma LeafWordRoundTrip(objects: bv64)
    requires objects < 0x8000_0000_0000_0000
    ensures IsLeafWord(LeafWord(objects))
    ensures WordObjects(LeafWord(objects)) == objects
  {
  }

  /** A node pointer aligned to four bytes. */
  predicate Aligned(p: bv64)
  {
    p & 3 == 0
  }

  /** `IntermediateNode_Low::encodePositive`: bit 2 of the axis goes to bit 1. */
  function EncodePositive(p: bv64, axis: bv64): (w: bv64)
  {
    p + ((axis & 4) >> 1)
  }

  /** `IntermediateNode_Low::encodeNegative`: bits 0-1 of the axis go to bits 0-1. */
  function EncodeNegative(p: bv64, axis: bv64): (w: bv64)
  {
    p + (axis & 3)
  }

  /** `IntermediateNode_Low::splitAxis()`: reassembles the three axis bits. */
  function DecodeAxis(unknown: bv64, negative: bv64): (axis: bv64)
    ensures axis < 8
  {
    ((unknown & 2) << 1) + (negative & 3)
  }

  /** `positive()` and `negative()`: the pointer with its two low bits cleared. */
  function DecodePointer(w: bv64): (p: bv64)
    ensures Aligned(p)
  {
    w ^ (w & 3)
  }

  /** An aligned pointer tagged by `encodePositive` does not read as a leaf. */
  lemma PositiveWordNotLeaf(positive: bv64, axis: bv64)
    requires Aligned(positive)
    ensures !IsLeafWord(EncodePositive(positive, axis))
  {
  }

  /** Clearing the two low bits recovers both aligned child pointers. */
  lemma LowPointersRoundTrip(positive: bv64, negative: bv64, axis: bv64)
    requires Aligned(positive) && Aligned(negative)
    ensures DecodePointer(EncodePositive(positive, axis)) == positive
    ensures DecodePointer(EncodeNegative(negative, axis)) == negative
  {
  }

  /**
   * The axis comes back modulo 8, so exactly when it is below 8: the
   * packed node serves dimensions up to 8.
   */
  lemma LowAxisRoundTrip(positive: bv64, negative: bv64, axis: bv64)
    requires Aligned(positive) && Aligned(negative)
    ensures DecodeAxis(EncodePositive(positive, axis), EncodeNegative(negative, axis)) == axis & 7
    ensures axis < 8 ==> DecodeAxis(EncodePositive(positive, axis), EncodeNegative(negative, axis)) == axis
  {
  }

  /** `IntermediateNode_High` stores the positive pointer itself, which reads as a non-leaf. */
  lemma HighNodeIsIntermediate(positive: bv64)
    requires Aligned(positive)
    ensures !IsLeafWord(positive)
  {
  }

  // ---------------------------------------------------------------
  // Leaf object ranges.
  // ---------------------------------------------------------------

  /**
   * `Cursor::end()`: a leaf keeps the position of its first and last
   * object in the shared object list; the end is one past `last`
   * unless the leaf is empty.
   */
  function LeafEnd(last: nat, objects: nat): (end: nat)
  {
    if objects > 0 then last + 1 else last
  }

  /** The half-open range [begin, end) of a leaf holds exactly its objects. */
  lemma LeafEndCounts(begin: nat, last: nat, objects: nat)
    requires objects == 0 ==> last == begin
    requires objects > 0 ==> last + 1 == begin + objects
    ensures begin <= LeafEnd(last, objects)
    ensures LeafEnd(last, objects) - begin == objects
  {
  }

  // ---------------------------------------------------------------
  // Splitting objects by a plane.
  // ---------------------------------------------------------------

  /** `TriState`: the object lies below, above, or across the plane. */
  datatype Side = Negative | Positive | Both

  /**
   * `SplitPredicate`: nodes are half-open boxes [min, max[, so an
   * object whose extent ends below the plane goes negative, one that
   * starts on or above it goes positive, and the rest go to both.
   */
  function Classify(extent: (real, real), position: real): (s: Side)
  {
    if extent.1 < position then Negative
    else if extent.0 >= position then Positive
    else Both
  }

  /**
   * For a proper extent, an object goes to a side exactly when it
   * meets that side's half-open cell.
   */
  lemma ClassifyMeets(extent: (real, real), position: real)
    requires extent.0 <= extent.1
    ensures Classify(extent, position) != Positive <==> extent.0 < position
    ensures Classify(extent, position) != Negative <==> extent.1 >= position
  {
  }

  /** The objects that a fuzzy partition sends to the negative child. */
  function NegativePart<T>(objs: seq<T>, bound: (T, nat) -> (real, real), position: real, axis: nat): (r: seq<T>)
    ensures |r| <= |objs|
  {
    if objs == [] then []
    else
      var rest := NegativePart(objs[1..], bound, position, axis);
      if Classify(bound(objs[0], axis), position) != Positive then [objs[0]] + rest else rest
  }

  /** The objects that a fuzzy partition sends to the positive child. */
  function PositivePart<T>(objs: seq<T>, bound: (T, nat) -> (real, real), position: real, axis: nat): (r: seq<T>)
    ensures |r| <= |objs|
  {
    if objs == [] then []
    else
      var rest := PositivePart(objs[1..], bound, position, axis);
      if Classify(bound(objs[0], axis), position) != Negative then [objs[0]] + rest else rest
  }

  /** The negative part is exactly the objects not lying wholly above the plane. */
  lemma {:induction false} NegativePartMembers<T>(objs: seq<T>, bound: (T, nat) -> (real, real), position: real, axis: nat, o: T)
    ensures o in NegativePart(objs, bound, position, axis) <==> o in objs && Classify(bound(o, axis), position) != Positive
  {
    if objs != [] {
      NegativePartMembers(objs[1..], bound, position, axis, o);
      assert o in objs <==> o == objs[0] || o in objs[1..];
    }
  }

  /** The positive part is exactly the objects not lying wholly below the plane. */
  lemma {:induction false} PositivePartMembers<T>(objs: seq<T>, bound: (T, nat) -> (real, real), position: real, axis: nat, o: T)
    ensures o in PositivePart(objs, bound, position, axis) <==> o in objs && Classify(bound(o, axis), position) != Negative
  {
    if objs != [] {
      PositivePartMembers(objs[1..], bound, position, axis, o);
      assert o in objs <==> o == objs[0] || o in objs[1..];
    }
  }

  /** The elements of the two parts, as sets. */
  lemma PartsElements<T>(objs: seq<T>, bound: (T, nat) -> (real, real), position: real, axis: nat)
    ensures forall o :: o in Elements(NegativePart(objs, bound, position, axis)) ==>
              Classify(bound(o, axis), position) != Positive
    ensures forall o :: o in Elements(PositivePart(objs, bound, position, axis)) ==>
              Classify(bound(o, axis), position) != Negative
    ensures Elements(NegativePart(objs, bound, position, axis)) + Elements(PositivePart(objs, bound, position, axis)) ==
            Elements(objs)
  {
    var negative := Elements(NegativePart(objs, bound, position, axis));
    var positive := Elements(PositivePart(objs, bound, position, axis));
    forall o
      ensures o in negative <==> o in Elements(objs) && Classify(bound(o, axis), position) != Positive
      ensures o in positive <==> o in Elements(objs) && Classify(bound(o, axis), position) != Negative
    {
      NegativePartMembers(objs, bound, position, axis, o);
      PositivePartMembers(objs, bound, position, axis, o);
    }
    assert negative + positive == Elements(objs);
  }

  /** Every object goes to at least one side, those across the plane to both. */
  lemma {:induction false} PartitionCounts<T>(objs: seq<T>, bound: (T, nat) -> (real, real), position: real, axis: nat)
    ensures |NegativePart(objs, bound, position, axis)| + |PositivePart(objs, bound, position, axis)| >= |objs|
  {
    if objs != [] {
      PartitionCounts(objs[1..], bound, position, axis);
    }
  }

  // ---------------------------------------------------------------
  // The node hierarchy.
  // ---------------------------------------------------------------

  /**
   * A leaf holds its object range; an intermediate node holds its
   * children, its splitting plane and the node's bound on the split axis.
   */
  datatype KdNode<T> =
    | Leaf(objects: seq<T>)
    | Split(positive: KdNode<T>, negative: KdNode<T>, position: real, axis: nat, min: real, max: real)

  function LeafCount<T>(t: KdNode<T>): (n: nat)
    ensures n >= 1
  {
    match t
    case Leaf(_) => 1
    case Split(p, n, _, _, _, _) => LeafCount(p) + LeafCount(n)
  }

  function Elements<T>(s: seq<T>): set<T>
  {
    set o | o in s
  }

  /** The objects held anywhere in the tree. */
  function Members<T>(t: KdNode<T>): set<T>
  {
    match t
    case Leaf(objs) => Elements(objs)
    case Split(p, n, _, _, _, _) => Members(p) + Members(n)
  }

  /** Every split axis is below the dimension. */
  predicate AxesBelow<T>(t: KdNode<T>, dimension: nat)
  {
    match t
    case Leaf(_) => true
    case Split(p, n, _, axis, _, _) => axis < dimension && AxesBelow(p, dimension) && AxesBelow(n, dimension)
  }

  /**
   * Every object below a negative child is classified negative or
   * across by its parent's plane, and every object below a positive
   * child positive or across.
   */
  ghost predicate Placed<T>(t: KdNode<T>, bound: (T, nat) -> (real, real))
  {
    match t
    case Leaf(_) => true
    case Split(p, n, position, axis, _, _) =>
      Placed(p, bound) && Placed(n, bound) &&
      (forall o :: o in Members(n) ==> Classify(bound(o, axis), position) != Positive) &&
      (forall o :: o in Members(p) ==> Classify(bound(o, axis), position) != Negative)
  }

  /** A cursor: the child choices from the root, `true` for the positive child. */
  predicate ValidPath<T>(t: KdNode<T>, path: seq<bool>)
    decreases path
  {
    path == [] || (t.Split? && ValidPath(if path[0] then t.positive else t.negative, path[1..]))
  }

  function At<T>(t: KdNode<T>, path: seq<bool>): (r: KdNode<T>)
    requires ValidPath(t, path)
    decreases path
  {
    if path == [] then t else At(if path[0] then t.positive else t.negative, path[1..])
  }

  /** The tree with the node at `path` replaced by `sub`. */
  function Replace<T>(t: KdNode<T>, path: seq<bool>, sub: KdNode<T>): (r: KdNode<T>)
    requires ValidPath(t, path)
    decreases path
  {
    if path == [] then sub
    else if path[0] then t.(positive := Replace(t.positive, path[1..], sub))
    else t.(negative := Replace(t.negative, path[1..], sub))
  }

  /** Replacing a node changes the leaf count by the difference of the two subtrees. */
  lemma {:induction false} ReplaceLeafCount<T>(t: KdNode<T>, path: seq<bool>, sub: KdNode<T>)
    requires ValidPath(t, path)
    ensures LeafCount(Replace(t, path, sub)) + LeafCount(At(t, path)) == LeafCount(t) + LeafCount(sub)
    decreases path
  {
    if path != [] {
      if path[0] {
        ReplaceLeafCount(t.positive, path[1..], sub);
      } else {
        ReplaceLeafCount(t.negative, path[1..], sub);
      }
    }
  }

  /**
   * Replacing a node by one holding the same objects, with every axis
   * in range and every object placed, keeps all three properties of
   * the whole tree.
   */
  lemma {:induction false} ReplaceKeeps<T>(t: KdNode<T>, path: seq<bool>, sub: KdNode<T>, bound: (T, nat) -> (real, real), dimension: nat)
    requires ValidPath(t, path)
    requires Members(sub) == Members(At(t, path))
    requires AxesBelow(t, dimension) && AxesBelow(sub, dimension)
    requires Placed(t, bound) && Placed(sub, bound)
    ensures Members(Replace(t, path, sub)) == Members(t)
    ensures AxesBelow(Replace(t, path, sub), dimension)
    ensures Placed(Replace(t, path, sub), bound)
    decreases path
  {
    if path != [] {
      if path[0] {
        ReplaceKeeps(t.positive, path[1..], sub, bound, dimension);
      } else {
        ReplaceKeeps(t.negative, path[1..], sub, bound, dimension);
      }
    }
  }

  // ---------------------------------------------------------------
  // Subdividing a leaf.
  // ---------------------------------------------------------------

  /** The intermediate node that replaces a leaf split by a plane. */
  function Subdivided<T>(objs: seq<T>, bound: (T, nat) -> (real, real), position: real, axis: nat, min: real, max: real): (r: KdNode<T>)
  {
    Split(Leaf(PositivePart(objs, bound, position, axis)), Leaf(NegativePart(objs, bound, position, axis)),
          position, axis, min, max)
  }

  /** A subdivided leaf has two leaves, keeps its objects and places each of them. */
  lemma SubdividedKeeps<T>(objs: seq<T>, bound: (T, nat) -> (real, real), position: real, axis: nat, min: real, max: real)
    ensures LeafCount(Subdivided(objs, bound, position, axis, min, max)) == 2
    ensures Members(Subdivided(objs, bound, position, axis, min, max)) == Elements(objs)
    ensures Placed(Subdivided(objs, bound, position, axis, min, max), bound)
  {
    var negative := NegativePart(objs, bound, position, axis);
    var positive := PositivePart(objs, bound, position, axis);
    PartsElements(objs, bound, position, axis);
  }

  // ---------------------------------------------------------------
  // Inserting objects.
  // ---------------------------------------------------------------

  /**
   * `spliceInsert`: at a leaf the new objects are spliced in front of
   * the leaf's range; at an intermediate node they are fuzzily
   * partitioned between the children.
   */
  function SpliceInsert<T>(t: KdNode<T>, objs: seq<T>, bound: (T, nat) -> (real, real)): (r: KdNode<T>)
  {
    match t
    case Leaf(existing) => Leaf(objs + existing)
    case Split(p, n, position, axis, min, max) =>
      Split(SpliceInsert(p, PositivePart(objs, bound, position, axis), bound),
            SpliceInsert(n, NegativePart(objs, bound, position, axis), bound),
            position, axis, min, max)
  }

  /**
   * Insertion keeps the subdivision, adds every new object to the
   * tree and places each of them in agreement with every plane on its way.
   */
  lemma {:induction false} SpliceInsertKeeps<T>(t: KdNode<T>, objs: seq<T>, bound: (T, nat) -> (real, real), dimension: nat)
    requires AxesBelow(t, dimension) && Placed(t, bound)
    ensures LeafCount(SpliceInsert(t, objs, bound)) == LeafCount(t)
    ensures Members(SpliceInsert(t, objs, bound)) == Members(t) + Elements(objs)
    ensures AxesBelow(SpliceInsert(t, objs, bound), dimension)
    ensures Placed(SpliceInsert(t, objs, bound), bound)
  {
    match t
    case Leaf(existing) =>
      assert Elements(objs + existing) == Elements(objs) + Elements(existing);
    case Split(p, n, position, axis, min, max) =>
      var negative := NegativePart(objs, bound, position, axis);
      var positive := PositivePart(objs, bound, position, axis);
      SpliceInsertKeeps(p, positive, bound, dimension);
      SpliceInsertKeeps(n, negative, bound, dimension);
      PartsElements(objs, bound, position, axis);
  }

  // ---------------------------------------------------------------
  // Clearing the objects.
  // ---------------------------------------------------------------

  /** `clearObjects(cursor)`: every leaf of the subdivision is emptied. */
  function ClearLeaves<T>(t: KdNode<T>): (r: KdNode<T>)
  {
    match t
    case Leaf(_) => Leaf([])
    case Split(p, n, position, axis, min, max) => Split(ClearLeaves(p), ClearLeaves(n), position, axis, min, max)
  }

  /** Clearing the leaves keeps the subdivision and leaves no object in the tree. */
  lemma {:induction false} ClearLeavesKeeps<T>(t: KdNode<T>, bound: (T, nat) -> (real, real), dimension: nat)
    ensures LeafCount(ClearLeaves(t)) == LeafCount(t)
    ensures Members(ClearLeaves(t)) == {}
    ensures AxesBelow(t, dimension) ==> AxesBelow(ClearLeaves(t), dimension)
    ensures Placed(ClearLeaves(t), bound)
  {
    match t
    case Leaf(_) =>
    case Split(p, n, _, _, _, _) =>
      ClearLeavesKeeps(p, bound, dimension);
      ClearLeavesKeeps(n, bound, dimension);
  }

  // ---------------------------------------------------------------
  // Refinement.
  // ---------------------------------------------------------------

  /**
   * A subdivision rule: given the bounds of a leaf's cell and the
   * leaf's objects, the splitting position and axis.
   */
  type Rule<!T> = (seq<real>, seq<real>, seq<T>) -> (real, int)

  ghost predicate RuleInRange<T(!new)>(rule: Rule<T>, dimension: nat)
  {
    forall minBound, maxBound, objs :: 0 <= rule(minBound, maxBound, objs).1 < dimension
  }

  /**
   * Refining a leaf at `depth`: while the depth is below `maxDepth` and
   * the leaf holds more than `maxObjects` objects, it is subdivided by
   * the rule and both new leaves are refined one level deeper.
   */
  function RefineLeaf<T(!new)>(objs: seq<T>, bound: (T, nat) -> (real, real), rule: Rule<T>,
                         maxDepth: int, maxObjects: int, depth: int,
                         minBound: seq<real>, maxBound: seq<real>): (r: KdNode<T>)
    requires RuleInRange(rule, |minBound|) && |maxBound| == |minBound|
    decreases maxDepth - depth
  {
    if depth < maxDepth && |objs| > maxObjects then
      var split := rule(minBound, maxBound, objs);
      var position, axis := split.0, split.1;
      Split(RefineLeaf(PositivePart(objs, bound, position, axis), bound, rule, maxDepth, maxObjects, depth + 1,
                       minBound[axis := position], maxBound),
            RefineLeaf(NegativePart(objs, bound, position, axis), bound, rule, maxDepth, maxObjects, depth + 1,
                       minBound, maxBound[axis := position]),
            position, axis, minBound[axis], maxBound[axis])
    else
      Leaf(objs)
  }

  /** `refine(..., cursor, depth, minBound, maxBound)`: the recursive refinement of a subtree. */
  function RefineNode<T(!new)>(t: KdNode<T>, bound: (T, nat) -> (real, real), rule: Rule<T>,
                         maxDepth: int, maxObjects: int, depth: int,
                         minBound: seq<real>, maxBound: seq<real>): (r: KdNode<T>)
    requires RuleInRange(rule, |minBound|) && |maxBound| == |minBound| && AxesBelow(t, |minBound|)
  {
    match t
    case Leaf(objs) => RefineLeaf(objs, bound, rule, maxDepth, maxObjects, depth, minBound, maxBound)
    case Split(p, n, position, axis, min, max) =>
      Split(RefineNode(p, bound, rule, maxDepth, maxObjects, depth + 1, minBound[axis := position], maxBound),
            RefineNode(n, bound, rule, maxDepth, maxObjects, depth + 1, minBound, maxBound[axis := position]),
            position, axis, min, max)
  }

  /** Every leaf above `maxDepth` holds at most `maxObjects` objects. */
  predicate SmallLeaves<T>(t: KdNode<T>, maxDepth: int, maxObjects: int, depth: int)
  {
    match t
    case Leaf(objs) => depth >= maxDepth || |objs| <= maxObjects
    case Split(p, n, _, _, _, _) =>
      SmallLeaves(p, maxDepth, maxObjects, depth + 1) && SmallLeaves(n, maxDepth, maxObjects, depth + 1)
  }

  /**
   * A refined leaf holds the leaf's objects, has its axes in range,
   * places its objects, never has fewer leaves, and leaves no leaf
   * above `maxDepth` holding more than `maxObjects` objects.
   */
  lemma {:induction false} RefineLeafKeeps<T(!new)>(objs: seq<T>, bound: (T, nat) -> (real, real), rule: Rule<T>,
                                              maxDepth: int, maxObjects: int, depth: int,
                                              minBound: seq<real>, maxBound: seq<real>)
    requires RuleInRange(rule, |minBound|) && |maxBound| == |minBound|
    ensures Members(RefineLeaf(objs, bound, rule, maxDepth, maxObjects, depth, minBound, maxBound)) == Elements(objs)
    ensures AxesBelow(RefineLeaf(objs, bound, rule, maxDepth, maxObjects, depth, minBound, maxBound), |minBound|)
    ensures Placed(RefineLeaf(objs, bound, rule, maxDepth, maxObjects, depth, minBound, maxBound), bound)
    ensures SmallLeaves(RefineLeaf(objs, bound, rule, maxDepth, maxObjects, depth, minBound, maxBound), maxDepth, maxObjects, depth)
    decreases maxDepth - depth
  {
    if depth < maxDepth && |objs| > maxObjects {
      var split := rule(minBound, maxBound, objs);
      var position, axis := split.0, split.1;
      var negative := NegativePart(objs, bound, position, axis);
      var positive := PositivePart(objs, bound, position, axis);
      RefineLeafKeeps(positive, bound, rule, maxDepth, maxObjects, depth + 1, minBound[axis := position], maxBound);
      RefineLeafKeeps(negative, bound, rule, maxDepth, maxObjects, depth + 1, minBound, maxBound[axis := position]);
      PartsElements(objs, bound, position, axis);
    }
  }

  /** Refinement of a subtree keeps its objects, its axes and its placement, and bounds its shallow leaves. */
  lemma {:induction false} RefineNodeKeeps<T(!new)>(t: KdNode<T>, bound: (T, nat) -> (real, real), rule: Rule<T>,
                                              maxDepth: int, maxObjects: int, depth: int,
                                              minBound: seq<real>, maxBound: seq<real>)
    requires RuleInRange(rule, |minBound|) && |maxBound| == |minBound| && AxesBelow(t, |minBound|)
    requires Placed(t, bound)
    ensures Members(RefineNode(t, bound, rule, maxDepth, maxObjects, depth, minBound, maxBound)) == Members(t)
    ensures AxesBelow(RefineNode(t, bound, rule, maxDepth, maxObjects, depth, minBound, maxBound), |minBound|)
    ensures Placed(RefineNode(t, bound, rule, maxDepth, maxObjects, depth, minBound, maxBound), bound)
    ensures SmallLeaves(RefineNode(t, bound, rule, maxDepth, maxObjects, depth, minBound, maxBound), maxDepth, maxObjects, depth)
  {
    match t
    case Leaf(objs) =>
      RefineLeafKeeps(objs, bound, rule, maxDepth, maxObjects, depth, minBound, maxBound);
    case Split(p, n, position, axis, min, max) =>
      RefineNodeKeeps(p, bound, rule, maxDepth, maxObjects, depth + 1, minBound[axis := position], maxBound);
      RefineNodeKeeps(n, bound, rule, maxDepth, maxObjects, depth + 1, minBound, maxBound[axis := position]);
  }

  /** With no depth to refine to, refinement changes nothing. */
  lemma {:induction false} RefineNodeDepthZero<T(!new)>(t: KdNode<T>, bound: (T, nat) -> (real, real), rule: Rule<T>,
                                                 maxObjects: int, depth: int,
                                                 minBound: seq<real>, maxBound: seq<real>)
    requires RuleInRange(rule, |minBound|) && |maxBound| == |minBound| && AxesBelow(t, |minBound|)
    requires depth >= 0
    ensures RefineNode(t, bound, rule, 0, maxObjects, depth, minBound, maxBound) == t
  {
    match t
    case Leaf(objs) =>
    case Split(p, n, position, axis, min, max) =>
      RefineNodeDepthZero(p, bound, rule, maxObjects, depth + 1, minBound[axis := position], maxBound);
      RefineNodeDepthZero(n, bound, rule, maxObjects, depth + 1, minBound, maxBound[axis := position]);
  }

  // ---------------------------------------------------------------
  // The tree.
  // ---------------------------------------------------------------

  /** The tree's record of its state is consistent with its nodes. */
  ghost predicate Consistent<T>(root: KdNode<T>, bound: (T, nat) -> (real, real), dimension: nat,
                                leaves: nat, objects: nat, inserted: seq<T>)
  {
    dimension > 0 && leaves == LeafCount(root) && AxesBelow(root, dimension) && Placed(root, bound) &&
    objects == |inserted| && Members(root) == Elements(inserted)
  }

  /** In a consistent tree, the tree has no objects exactly when its object count is zero. */
  lemma ConsistentEmpty<T>(root: KdNode<T>, bound: (T, nat) -> (real, real), dimension: nat,
                           leaves: nat, objects: nat, inserted: seq<T>)
    requires Consistent(root, bound, dimension, leaves, objects, inserted)
    ensures Members(root) == {} <==> objects == 0
  {
    if objects > 0 {
      assert inserted[0] in Members(root);
    }
  }

  /**
   * Emptying the leaves without resetting a positive object count
   * leaves a state that no history of insertions explains.
   */
  lemma StaleObjectCount<T>(root: KdNode<T>, bound: (T, nat) -> (real, real), dimension: nat,
                            leaves: nat, objects: nat, inserted: seq<T>)
    requires objects > 0
    ensures !Consistent(ClearLeaves(root), bound, dimension, leaves, objects, inserted)
  {
    if Consistent(ClearLeaves(root), bound, dimension, leaves, objects, inserted) {
      ConsistentEmpty(ClearLeaves(root), bound, dimension, leaves, objects, inserted);
      ClearLeavesKeeps(root, bound, 0);
      assert false;
    }
  }

  class KdTree<T(==,!new)> {
    /** The dimension of the space. */
    const dimension: nat
    /** The object policy's bound of an object on an axis. */
    const bound: (T, nat) -> (real, real)
    var root: KdNode<T>
    var leaves: nat
    var objects: nat
    /** The objects inserted since the tree was last cleared. */
    ghost var inserted: seq<T>

    ghost predicate Valid()
      reads this
    {
      Consistent(root, bound, dimension, leaves, objects, inserted)
    }

    /** `KdTree(dimension, objectPolicy)`: a single empty leaf. */
    constructor (dimension: nat, bound: (T, nat) -> (real, real))
      requires dimension > 0
      ensures Valid()
      ensures this.dimension == dimension && this.bound == bound
      ensures root == Leaf([]) && leaves == 1 && objects == 0
    {
      this.dimension := dimension;
      this.bound := bound;
      root := Leaf([]);
      leaves := 1;
      objects := 0;
      inserted := [];
    }

    /** `empty()`: whether no object is in the tree. */
    function Empty(): (r: bool)
      reads this
      requires Valid()
      ensures r <==> objects == 0
    {
      ConsistentEmpty(root, bound, dimension, leaves, objects, inserted);
      Members(root) == {}
    }

    /** `clear()`: back to a single empty leaf, with no objects. */
    method Clear()
      requires Valid()
      modifies this
      ensures Valid()
      ensures root == Leaf([]) && leaves == 1 && objects == 0
    {
      root := Leaf([]);
      leaves := 0;
      objects := 0;
      inserted := [];
      leaves := leaves + 1;
    }

    /**
     * `subdivide(cursor, splitPosition, splitAxis)`: the leaf at the
     * cursor becomes an intermediate node over two new leaves, and the
     * leaf count goes up by one.
     */
    method Subdivide(path: seq<bool>, position: real, axis: int)
      requires Valid()
      requires 0 <= axis < dimension
      requires ValidPath(root, path) && At(root, path).Leaf?
      modifies this
      ensures Valid()
      ensures root == Replace(old(root), path, Subdivided(At(old(root), path).objects, bound, position, axis, 0.0, 0.0))
      ensures leaves == old(leaves) + 1
      ensures objects == old(objects) && inserted == old(inserted)
    {
      var node := At(root, path);
      var sub := Subdivided(node.objects, bound, position, axis, 0.0, 0.0);
      SubdividedKeeps(node.objects, bound, position, axis, 0.0, 0.0);
      ReplaceLeafCount(root, path, sub);
      ReplaceKeeps(root, path, sub, bound, dimension);
      root := Replace(root, path, sub);
      leaves := leaves + 1;
    }

    /** `insert(begin, end)`: the objects are spliced into the leaves and counted. */
    method Insert(objs: seq<T>)
      requires Valid()
      modifies this
      ensures Valid()
      ensures root == SpliceInsert(old(root), objs, bound)
      ensures leaves == old(leaves)
      ensures objects == old(objects) + |objs|
      ensures inserted == old(inserted) + objs
    {
      SpliceInsertKeeps(root, objs, bound, dimension);
      assert Elements(inserted + objs) == Elements(inserted) + Elements(objs);
      root := SpliceInsert(root, objs, bound);
      objects := objects + |objs|;
      inserted := inserted + objs;
    }

    /**
     * `clearObjects()` as written: the leaves are emptied but the
     * object count is left as it was.
     */
    method ClearObjectsAsWritten()
      requires Valid()
      modifies this
      ensures root == ClearLeaves(old(root))
      ensures leaves == old(leaves) && objects == old(objects)
      ensures Members(root) == {}
      ensures old(objects) > 0 ==> !Consistent(root, bound, dimension, leaves, objects, inserted)
    {
      ClearLeavesKeeps(root, bound, dimension);
      root := ClearLeaves(root);
      if objects > 0 {
        StaleObjectCount(old(root), bound, dimension, leaves, objects, inserted);
      }
    }

    /** `clearObjects()`: the subdivision stays, the objects and their count go. */
    method ClearObjects()
      requires Valid()
      modifies this
      ensures Valid()
      ensures root == ClearLeaves(old(root))
      ensures leaves == old(leaves) && objects == 0
    {
      ClearLeavesKeeps(root, bound, dimension);
      root := ClearLeaves(root);
      objects := 0;
      inserted := [];
    }

    /**
     * `refine(maxDepth, maxObjects, subdivisionRule)`: every leaf above
     * `maxDepth` holding more than `maxObjects` objects is subdivided
     * by the rule, recursively; with `maxDepth` zero nothing changes.
     */
    method Refine(maxDepth: int, maxObjects: int, rule: Rule<T>, minBound: seq<real>, maxBound: seq<real>)
      requires Valid()
      requires maxDepth >= 0 && maxObjects > 0
      requires |minBound| == dimension && |maxBound| == dimension && RuleInRange(rule, dimension)
      modifies this
      ensures Valid()
      ensures root == RefineNode(old(root), bound, rule, maxDepth, maxObjects, 0, minBound, maxBound)
      ensures maxDepth == 0 ==> root == old(root) && leaves == old(leaves)
      ensures SmallLeaves(root, maxDepth, maxObjects, 0)
      ensures Members(root) == Members(old(root)) && objects == old(objects)
    {
      if maxDepth == 0 {
        RefineNodeDepthZero(root, bound, rule, maxObjects, 0, minBound, maxBound);
        RefineNodeKeeps(root, bound, rule, maxDepth, maxObjects, 0, minBound, maxBound);
        return;
      }
      RefineNodeKeeps(root, bound, rule, maxDepth, maxObjects, 0, minBound, maxBound);
      root := RefineNode(root, bound, rule, maxDepth, maxObjects, 0, minBound, maxBound);
      leaves := LeafCount(root);
    }
  }
}
