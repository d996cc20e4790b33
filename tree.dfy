/**
 * A generic binary tree (`Tree<Type>`) whose nodes are linked by
 * parent and child pointers and which keeps its root, its leftmost
 * node, its rightmost node and its node count in fields that every
 * operation updates incrementally.
 *
 * A node pointer is a node id. Every sentinel node (the one-past-end
 * node of `end()`, and every empty child link) is the id `Sentinel`.
 * The child links of the nodes reachable from the root are a `Shape`
 * value: a node's two children are the roots of its two sub-shapes, and
 * its parent is the node whose sub-shape it roots (`Parent`).
 */
module Trees {
  import opened Wrappers

  /** The id of every sentinel node. */
  const Sentinel: nat := 0

  /** Child indices (`Tree_Child::Left` and `Tree_Child::Right`). */
  const Left: nat := 0
  const Right: nat := 1

  /** The nodes reachable from a node through child links. */
  datatype Shape<T> = Nil | Node(id: nat, data: T, left: Shape<T>, right: Shape<T>)

  function Ids<T>(s: Shape<T>): set<nat>
  {
    match s
    case Nil => {}
    case Node(id, _, l, r) => {id} + Ids(l) + Ids(r)
  }

  /** No node is reachable twice, and no data node is a sentinel. */
  ghost predicate Unique<T>(s: Shape<T>)
  {
    match s
    case Nil => true
    case Node(id, _, l, r) =>
      id != Sentinel && id !in Ids(l) && id !in Ids(r) && Ids(l) !! Ids(r)
      && Unique(l) && Unique(r)
  }

  /** Child `i` of a node; the children of a sentinel are sentinels. */
  function Child<T>(s: Shape<T>, i: nat): Shape<T>
  {
    if s.Nil? then Nil else if i == Left then s.left else s.right
  }

  function SetChild<T>(s: Shape<T>, i: nat, t: Shape<T>): Shape<T>
  {
    if s.Nil? then Nil else if i == Left then s.(left := t) else s.(right := t)
  }

  /** The number of data nodes (`sizeSubtree`). */
  function Count<T>(s: Shape<T>): nat
  {
    match s
    case Nil => 0
    case Node(_, _, l, r) => Count(l) + Count(r) + 1
  }

  /** The root node, or the sentinel of an empty tree. */
  function RootId<T>(s: Shape<T>): nat
  {
    if s.Nil? then Sentinel else s.id
  }

  /** The node ids in symmetric (in-order) traversal order. */
  function InOrder<T>(s: Shape<T>): seq<nat>
  {
    match s
    case Nil => []
    case Node(id, _, l, r) => InOrder(l) + [id] + InOrder(r)
  }

  /**
   * The node reached by following child `i` from the top for as long as
   * it is not empty (`extremumSubtree`): the leftmost node for `Left`,
   * the rightmost for `Right`, the sentinel for an empty tree.
   */
  function Extremum<T>(s: Shape<T>, i: nat): nat
  {
    match s
    case Nil => Sentinel
    case Node(id, _, l, r) =>
      var c := if i == Left then l else r;
      if c.Nil? then id else Extremum(c, i)
  }

  /** The subtree rooted at node `x`, empty when `x` is not a node of `s`. */
  function Find<T>(s: Shape<T>, x: nat): Shape<T>
  {
    match s
    case Nil => Nil
    case Node(id, _, l, r) =>
      if id == x then s else if x in Ids(l) then Find(l, x) else Find(r, x)
  }

  /** The parent of node `x`: the sentinel for the root. */
  function Parent<T>(s: Shape<T>, x: nat): nat
  {
    match s
    case Nil => Sentinel
    case Node(id, _, l, r) =>
      if (l.Node? && l.id == x) || (r.Node? && r.id == x) then id
      else if x in Ids(l) then Parent(l, x)
      else Parent(r, x)
  }

  /** `s` with the subtree rooted at node `x` replaced by `t`. */
  function Replace<T>(s: Shape<T>, x: nat, t: Shape<T>): Shape<T>
  {
    match s
    case Nil => Nil
    case Node(id, d, l, r) =>
      if id == x then t
      else if x in Ids(l) then Node(id, d, Replace(l, x, t), r)
      else Node(id, d, l, Replace(r, x, t))
  }

  /** `s` with `t` linked as child `i` of node `x`. */
  function Attach<T>(s: Shape<T>, x: nat, i: nat, t: Shape<T>): Shape<T>
  {
    Replace(s, x, SetChild(Find(s, x), i, t))
  }

  /** The other child index (`!L` in tree.h). */
  function Other(i: nat): nat
  {
    if i == Left then Right else Left
  }

  /**
   * A rotation of node `n` in direction `L` (the other direction being
   * `R`): `n`'s child `R` moves up to `n`'s place, `n` becomes its child
   * `L`, and its former child `L` becomes `n`'s child `R`.
   */
  function Rotation<T>(n: Shape<T>, L: nat): Shape<T>
  {
    var R := Other(L);
    var up := Child(n, R);
    SetChild(up, L, SetChild(n, R, Child(up, L)))
  }

  /** The same nodes, data and links, whatever the node ids. */
  function Unlabelled<T>(s: Shape<T>): Shape<T>
  {
    match s
    case Nil => Nil
    case Node(_, d, l, r) => Node(Sentinel, d, Unlabelled(l), Unlabelled(r))
  }

  // ---------------------------------------------------------------
  // Facts about shapes.
  // ---------------------------------------------------------------

  lemma {:induction false} CountIds<T>(s: Shape<T>)
    requires Unique(s)
    ensures Count(s) == |Ids(s)|
  {
    match s
    case Nil =>
    case Node(id, _, l, r) =>
      CountIds(l);
      CountIds(r);
      assert Ids(s) == {id} + (Ids(l) + Ids(r));
  }

  lemma ExtremumIn<T>(s: Shape<T>, i: nat)
    ensures s.Nil? ==> Extremum(s, i) == Sentinel
    ensures s.Node? ==> Extremum(s, i) in Ids(s)
  {
  }

  /** The leftmost node is the first in symmetric order, the rightmost the last. */
  lemma {:induction false} ExtremumInOrder<T>(s: Shape<T>)
    requires s.Node?
    ensures |InOrder(s)| > 0
    ensures Extremum(s, Left) == InOrder(s)[0]
    ensures Extremum(s, Right) == InOrder(s)[|InOrder(s)| - 1]
  {
    match s
    case Node(id, _, l, r) =>
      if l.Node? {
        ExtremumInOrder(l);
      }
      if r.Node? {
        ExtremumInOrder(r);
      }
  }

  lemma {:induction false} SentinelAbsent<T>(s: Shape<T>)
    requires Unique(s)
    ensures Sentinel !in Ids(s)
  {
    match s
    case Nil =>
    case Node(_, _, l, r) =>
      SentinelAbsent(l);
      SentinelAbsent(r);
  }

  /** A single node. */
  lemma Leaf<T>(id: nat, d: T)
    requires id != Sentinel
    ensures Unique(Node(id, d, Nil, Nil)) && Ids(Node(id, d, Nil, Nil)) == {id}
    ensures Count(Node(id, d, Nil, Nil)) == 1
    ensures Extremum(Node(id, d, Nil, Nil), Left) == id == Extremum(Node(id, d, Nil, Nil), Right)
  {
    var empty: Shape<T> := Nil;
    assert Ids(empty) == {} && Count(empty) == 0;
  }

  lemma FindPresent<T>(s: Shape<T>, x: nat)
    ensures Find(s, x).Node? ==> x in Ids(s) && Find(s, x).id == x
  {
  }

  /** Replacing a subtree by itself changes nothing. */
  lemma ReplaceFound<T>(s: Shape<T>, x: nat)
    ensures Replace(s, x, Find(s, x)) == s
  {
  }

  lemma FindAbsent<T>(s: Shape<T>, x: nat)
    requires x !in Ids(s)
    ensures Find(s, x) == Nil
  {
  }

  /** Where node `x` sits: its subtree, its parent and whether it is the root. */
  lemma {:induction false} FindFacts<T>(s: Shape<T>, x: nat)
    requires Unique(s) && x in Ids(s)
    ensures Find(s, x).Node? && Find(s, x).id == x
    ensures Ids(Find(s, x)) <= Ids(s) && Unique(Find(s, x))
    ensures Parent(s, x) !in Ids(Find(s, x))
    ensures Parent(s, x) == Sentinel <==> x == RootId(s)
    ensures Parent(s, x) != Sentinel ==> Parent(s, x) in Ids(s)
    ensures RootId(s) in Ids(Find(s, x)) <==> x == RootId(s)
  {
    match s
    case Node(id, _, l, r) =>
      if id == x {
        assert l.Node? ==> l.id in Ids(l);
        assert r.Node? ==> r.id in Ids(r);
        assert x !in Ids(l) && x !in Ids(r);
        NotParent(l, x);
        NotParent(r, x);
        SentinelAbsent(s);
      } else if x in Ids(l) {
        FindFacts(l, x);
        assert r.Node? ==> r.id in Ids(r);
      } else {
        FindFacts(r, x);
        assert l.Node? ==> l.id in Ids(l);
      }
  }

  lemma {:induction false} NotParent<T>(s: Shape<T>, x: nat)
    requires x !in Ids(s)
    ensures Parent(s, x) == Sentinel
  {
    match s
    case Nil =>
    case Node(id, _, l, r) =>
      assert l.Node? ==> l.id in Ids(l);
      assert r.Node? ==> r.id in Ids(r);
      NotParent(l, x);
      NotParent(r, x);
  }

  /** The nodes left after replacing the subtree rooted at `x` by `t`. */
  lemma {:induction false} ReplaceIds<T>(s: Shape<T>, x: nat, t: Shape<T>)
    requires Unique(s) && x in Ids(s)
    ensures Ids(Replace(s, x, t)) == (Ids(s) - Ids(Find(s, x))) + Ids(t)
  {
    match s
    case Node(id, d, l, r) =>
      if id == x {
      } else if x in Ids(l) {
        ReplaceIds(l, x, t);
        FindFacts(l, x);
      } else {
        ReplaceIds(r, x, t);
        FindFacts(r, x);
      }
  }

  lemma {:induction false} ReplaceCount<T>(s: Shape<T>, x: nat, t: Shape<T>)
    requires x in Ids(s)
    ensures Count(Replace(s, x, t)) + Count(Find(s, x)) == Count(s) + Count(t)
  {
    match s
    case Node(id, d, l, r) =>
      if id == x {
      } else if x in Ids(l) {
        ReplaceCount(l, x, t);
      } else {
        ReplaceCount(r, x, t);
      }
  }

  lemma ReplaceRoot<T>(s: Shape<T>, x: nat, t: Shape<T>)
    requires x in Ids(s)
    ensures RootId(Replace(s, x, t)) == if x == RootId(s) then RootId(t) else RootId(s)
  {
  }

  /** A replacement with fresh nodes keeps the nodes distinct. */
  lemma {:induction false} ReplaceUnique<T>(s: Shape<T>, x: nat, t: Shape<T>)
    requires Unique(s) && x in Ids(s)
    requires Unique(t) && Ids(t) !! (Ids(s) - Ids(Find(s, x)))
    ensures Unique(Replace(s, x, t))
  {
    match s
    case Node(id, d, l, r) =>
      if id == x {
      } else if x in Ids(l) {
        FindFacts(l, x);
        ReplaceUnique(l, x, t);
        ReplaceIds(l, x, t);
      } else {
        FindFacts(r, x);
        ReplaceUnique(r, x, t);
        ReplaceIds(r, x, t);
      }
  }

  /** Replacing an absent node changes nothing. */
  lemma ReplaceAbsent<T>(s: Shape<T>, x: nat, t: Shape<T>)
    requires x !in Ids(s)
    ensures Replace(s, x, t) == s
  {
  }

  /**
   * Linking a subtree under an empty child of `x` gives a new extremum in
   * that direction exactly when `x` was the extremum, and none in the
   * other direction.
   */
  lemma {:induction false} AttachExtremum<T>(s: Shape<T>, x: nat, i: nat, t: Shape<T>)
    requires Unique(s) && x in Ids(s) && i < 2
    requires Child(Find(s, x), i).Nil? && t.Node?
    ensures Extremum(Attach(s, x, i, t), i)
         == if x == Extremum(s, i) then Extremum(t, i) else Extremum(s, i)
    ensures Extremum(Attach(s, x, i, t), Other(i)) == Extremum(s, Other(i))
  {
    match s
    case Node(id, d, l, r) =>
      if id == x {
      } else if x in Ids(l) {
        AttachExtremum(l, x, i, t);
        ExtremumIn(r, Right);
        ExtremumIn(l, Left);
      } else {
        AttachExtremum(r, x, i, t);
        ExtremumIn(l, Left);
        ExtremumIn(r, Right);
      }
  }

  /**
   * Cutting off the subtree rooted at `x` makes `x`'s parent the new
   * extremum exactly when the old extremum was inside the subtree.
   */
  lemma {:induction false} CutExtremum<T>(s: Shape<T>, x: nat, i: nat)
    requires Unique(s) && x in Ids(s) && i < 2
    ensures Extremum(Replace(s, x, Nil), i)
         == if Extremum(s, i) in Ids(Find(s, x)) then Parent(s, x) else Extremum(s, i)
  {
    match s
    case Node(id, d, l, r) =>
      ExtremumIn(l, i);
      ExtremumIn(r, i);
      if id == x {
        ExtremumIn(s, i);
        FindFacts(s, x);
      } else if x in Ids(l) {
        FindFacts(l, x);
        assert r.Node? ==> r.id in Ids(r);
        if l.id != x {
          CutExtremum(l, x, i);
        }
      } else {
        FindFacts(r, x);
        assert l.Node? ==> l.id in Ids(l);
        if r.id != x {
          CutExtremum(r, x, i);
        }
      }
  }

  /** Replacing a subtree by one with the same symmetric order keeps the whole order. */
  lemma {:induction false} ReplaceInOrder<T>(s: Shape<T>, x: nat, t: Shape<T>)
    requires x in Ids(s) && InOrder(t) == InOrder(Find(s, x))
    ensures InOrder(Replace(s, x, t)) == InOrder(s)
  {
    match s
    case Node(id, d, l, r) =>
      if id == x {
      } else if x in Ids(l) {
        ReplaceInOrder(l, x, t);
      } else {
        ReplaceInOrder(r, x, t);
      }
  }

  /** Shapes with the same symmetric order have the same extrema. */
  lemma SameInOrderExtremum<T>(a: Shape<T>, b: Shape<T>, i: nat)
    requires InOrder(a) == InOrder(b) && i < 2
    ensures Extremum(a, i) == Extremum(b, i)
  {
    if a.Node? {
      ExtremumInOrder(a);
      ExtremumInOrder(b);
    } else if b.Node? {
      ExtremumInOrder(b);
    }
  }

  /** A rotation keeps the nodes and their symmetric order. */
  lemma RotationKeepsOrder<T>(n: Shape<T>, L: nat)
    requires L < 2 && n.Node? && Child(Child(n, Other(L)), L).Node?
    ensures Rotation(n, L).Node? && Rotation(n, L).id == Child(n, Other(L)).id
    ensures InOrder(Rotation(n, L)) == InOrder(n)
    ensures Ids(Rotation(n, L)) == Ids(n) && Count(Rotation(n, L)) == Count(n)
    ensures Unique(n) ==> Unique(Rotation(n, L))
  {
    var up := Child(n, Other(L));
    if L == Left {
      var rot := Node(n.id, n.data, n.left, up.left);
      assert Rotation(n, L) == Node(up.id, up.data, rot, up.right);
      assert InOrder(Rotation(n, L))
          == (InOrder(n.left) + [n.id] + InOrder(up.left)) + [up.id] + InOrder(up.right);
      assert Ids(rot) == {n.id} + Ids(n.left) + Ids(up.left);
      if Unique(n) {
        assert Unique(up) && Unique(rot);
      }
    } else {
      var rot := Node(n.id, n.data, up.right, n.right);
      assert Rotation(n, L) == Node(up.id, up.data, up.left, rot);
      assert InOrder(Rotation(n, L))
          == InOrder(up.left) + [up.id] + (InOrder(up.right) + [n.id] + InOrder(n.right));
      assert Ids(rot) == {n.id} + Ids(up.right) + Ids(n.right);
      if Unique(n) {
        assert Unique(up) && Unique(rot);
        assert up.id != Sentinel && up.id !in Ids(up.left) && up.id !in Ids(rot);
      }
    }
  }

  /** Inside a replaced subtree, the nodes are found where the new subtree has them. */
  lemma {:induction false} FindReplaced<T>(s: Shape<T>, x: nat, t: Shape<T>, y: nat)
    requires Unique(s) && x in Ids(s) && Unique(Replace(s, x, t)) && y in Ids(t)
    ensures Find(Replace(s, x, t), y) == Find(t, y)
  {
    match s
    case Node(id, d, l, r) =>
      if id == x {
      } else if x in Ids(l) {
        ReplaceIds(l, x, t);
        FindReplaced(l, x, t, y);
      } else {
        ReplaceIds(r, x, t);
        FindReplaced(r, x, t, y);
      }
  }

  /** A replacement inside a replaced subtree is a replacement of the subtree. */
  lemma {:induction false} ReplaceNested<T>(s: Shape<T>, x: nat, t: Shape<T>, y: nat, u: Shape<T>)
    requires Unique(s) && x in Ids(s) && Unique(Replace(s, x, t)) && y in Ids(t)
    ensures Replace(Replace(s, x, t), y, u) == Replace(s, x, Replace(t, y, u))
  {
    match s
    case Node(id, d, l, r) =>
      if id == x {
      } else if x in Ids(l) {
        ReplaceIds(l, x, t);
        ReplaceNested(l, x, t, y, u);
      } else {
        ReplaceIds(r, x, t);
        ReplaceNested(r, x, t, y, u);
      }
  }

  /**
   * Linking a tree with fresh nodes under an empty child and then cutting
   * it off again gives back both trees: insertion and erasure, or a move
   * and a detach, undo each other.
   */
  lemma {:induction false} AttachCut<T>(s: Shape<T>, x: nat, i: nat, t: Shape<T>)
    requires Unique(s) && x in Ids(s) && i < 2 && Child(Find(s, x), i).Nil?
    requires Unique(t) && t.Node? && Ids(t) !! Ids(s)
    ensures Find(Attach(s, x, i, t), t.id) == t
    ensures Replace(Attach(s, x, i, t), t.id, Nil) == s
  {
    match s
    case Node(id, d, l, r) =>
      assert t.id in Ids(t);
      if id == x {
        if i == Left {
          assert t.id !in Ids(r);
        } else {
          assert t.id !in Ids(l);
        }
      } else if x in Ids(l) {
        FindFacts(l, x);
        ReplaceIds(l, x, SetChild(Find(l, x), i, t));
        AttachCut(l, x, i, t);
      } else {
        FindFacts(r, x);
        ReplaceIds(r, x, SetChild(Find(r, x), i, t));
        AttachCut(r, x, i, t);
      }
  }

  /** The extremum of the whole tree lies in a subtree exactly when it is the subtree's own. */
  lemma {:induction false} ExtremumInside<T>(s: Shape<T>, x: nat, i: nat)
    requires Unique(s) && x in Ids(s) && i < 2
    ensures Extremum(s, i) in Ids(Find(s, x)) <==> Extremum(s, i) == Extremum(Find(s, x), i)
  {
    FindFacts(s, x);
    ExtremumIn(Find(s, x), i);
    match s
    case Node(id, d, l, r) =>
      ExtremumIn(l, i);
      ExtremumIn(r, i);
      if id == x {
      } else if x in Ids(l) {
        FindFacts(l, x);
        ExtremumInside(l, x, i);
      } else {
        FindFacts(r, x);
        ExtremumInside(r, x, i);
      }
  }

  /**
   * The nodes linked from the root after `rotate` as written. The rotated
   * node's parent keeps its child link to the rotated node, so unless
   * that node is the root, the node that should move up into its place
   * is linked from nowhere.
   */
  function RotatedAsWritten<T>(s: Shape<T>, x: nat, L: nat): Shape<T>
  {
    var n := Find(s, x);
    if x == RootId(s) then Rotation(n, L)
    else Replace(s, x, SetChild(n, Other(L), Child(Child(n, Other(L)), L)))
  }

  /**
   * Rotating a node other than the root as written loses the node that
   * should move up, together with its child `R` subtree, while the size
   * field still counts them.
   */
  lemma RotatedAsWrittenLosesNodes<T>(s: Shape<T>, x: nat, L: nat)
    requires Unique(s) && x in Ids(s) && L < 2 && x != RootId(s)
    requires Child(Child(Find(s, x), Other(L)), L).Node?
    ensures Child(Find(s, x), Other(L)).id !in Ids(RotatedAsWritten(s, x, L))
    ensures Count(RotatedAsWritten(s, x, L))
         == Count(s) - 1 - Count(Child(Child(Find(s, x), Other(L)), Other(L)))
  {
    var n := Find(s, x);
    var up := Child(n, Other(L));
    var t := SetChild(n, Other(L), Child(up, L));
    FindFacts(s, x);
    ReplaceIds(s, x, t);
    ReplaceCount(s, x, t);
    assert up.id in Ids(n);
    if L == Left {
      assert Ids(t) == {n.id} + Ids(n.left) + Ids(up.left);
    } else {
      assert Ids(t) == {n.id} + Ids(up.right) + Ids(n.right);
    }
  }

  /** At the root, `rotate` as written is the rotation. */
  lemma RotatedAsWrittenAtRoot<T>(s: Shape<T>, L: nat)
    requires s.Node? && L < 2
    ensures RotatedAsWritten(s, s.id, L) == Replace(s, s.id, Rotation(Find(s, s.id), L))
  {
  }

  /**
   * A tree 1 -> 2 -> 3 (right children) where 3 has the left child 4:
   * rotating 2 to the left as written leaves 1 -> 2 -> 4 linked from the
   * root, three nodes where the size field counts four; the rotation
   * links 3 in 2's place.
   */
  lemma RotatedAsWrittenExample()
    ensures var s := Node(1, 0, Nil, Node(2, 0, Nil, Node(3, 0, Node(4, 0, Nil, Nil), Nil)));
      && Count(s) == 4
      && RotatedAsWritten(s, 2, Left) == Node(1, 0, Nil, Node(2, 0, Nil, Node(4, 0, Nil, Nil)))
      && Count(RotatedAsWritten(s, 2, Left)) == 3
      && Replace(s, 2, Rotation(Find(s, 2), Left))
         == Node(1, 0, Nil, Node(3, 0, Node(2, 0, Nil, Node(4, 0, Nil, Nil)), Nil))
  {
    var n4 := Node(4, 0, Nil, Nil);
    var n3 := Node(3, 0, n4, Nil);
    var n2 := Node(2, 0, Nil, n3);
    var s := Node(1, 0, Nil, n2);
    assert Ids(n2) == {2, 3, 4};
    assert Find(s, 2) == n2;
    assert RootId(s) == 1;
    var cut := SetChild(n2, Right, n4);
    assert RotatedAsWritten(s, 2, Left) == Replace(s, 2, cut);
    assert Replace(n2, 2, cut) == cut;
    assert Replace(s, 2, cut) == Node(1, 0, Nil, cut);
    var rotated := Node(3, 0, Node(2, 0, Nil, n4), Nil);
    assert Rotation(n2, Left) == rotated;
    assert Replace(n2, 2, rotated) == rotated;
  }

  /** The root, leftmost, rightmost and size fields agree with the linked nodes `s`. */
  ghost predicate Linked<T>(s: Shape<T>, root: nat, leftMost: nat, rightMost: nat, size: nat)
  {
    && Unique(s)
    && root == RootId(s)
    && leftMost == Extremum(s, Left)
    && rightMost == Extremum(s, Right)
    && size == Count(s)
  }

  /** Every node in `ids` was handed out before `next` and belongs to `o`. */
  ghost predicate Owned(ids: set<nat>, next: nat, owner: map<nat, object>, o: object)
  {
    forall x :: x in ids ==> x < next && x in owner && owner[x] == o
  }

  /** `owner` with the nodes in `ids` handed over to `o`. */
  ghost function Transfer(owner: map<nat, object>, ids: set<nat>, o: object): map<nat, object>
  {
    map x | x in owner :: if x in ids then o else owner[x]
  }

  lemma TransferOwned(ids: set<nat>, moved: set<nat>, next: nat, owner: map<nat, object>, from: object, to: object)
    requires Owned(ids, next, owner, from)
    ensures Owned(ids - moved, next, Transfer(owner, moved, to), from)
    ensures Owned(ids * moved, next, Transfer(owner, moved, to), to)
  {
  }

  /** Nodes owned by two different trees are different nodes. */
  lemma OwnedDisjoint(a: set<nat>, b: set<nat>, next: nat, owner: map<nat, object>, p: object, q: object)
    requires Owned(a, next, owner, p) && Owned(b, next, owner, q) && p != q
    ensures a !! b
  {
    forall x | x in a
      ensures x !in b
    {
      assert owner[x] == p;
    }
  }

  /**
   * Cutting off the subtree rooted at `x` as `erase` and `detach` do: the
   * root becomes the sentinel when `x` was the root, an extremum that the
   * subtree shares becomes `x`'s parent, and the size drops by the size
   * of the subtree, which is itself a tree with its own extrema.
   */
  lemma CutLinked<T>(s: Shape<T>, x: nat)
    requires Unique(s) && x in Ids(s)
    ensures Count(Find(s, x)) <= Count(s)
    ensures Linked(Replace(s, x, Nil),
      if x == RootId(s) then Sentinel else RootId(s),
      if Extremum(s, Left) == Extremum(Find(s, x), Left) then Parent(s, x) else Extremum(s, Left),
      if Extremum(s, Right) == Extremum(Find(s, x), Right) then Parent(s, x) else Extremum(s, Right),
      Count(s) - Count(Find(s, x)))
    ensures Linked(Find(s, x), x, Extremum(Find(s, x), Left), Extremum(Find(s, x), Right), Count(Find(s, x)))
    ensures Ids(Replace(s, x, Nil)) == Ids(s) - Ids(Find(s, x))
  {
    FindFacts(s, x);
    ReplaceIds(s, x, Nil);
    ReplaceUnique(s, x, Nil);
    ReplaceCount(s, x, Nil);
    ReplaceRoot(s, x, Nil);
    CutExtremum(s, x, Left);
    CutExtremum(s, x, Right);
    ExtremumInside(s, x, Left);
    ExtremumInside(s, x, Right);
  }

  /**
   * Linking a tree with fresh nodes under an empty child of `x` as
   * `insert` does: the root stays, the extremum on the side of the child
   * becomes the linked tree's when `x` was the extremum, and the sizes add.
   */
  lemma AttachLinked<T>(s: Shape<T>, x: nat, i: nat, t: Shape<T>)
    requires Unique(s) && x in Ids(s) && i < 2 && Child(Find(s, x), i).Nil?
    requires Unique(t) && t.Node? && Ids(t) !! Ids(s)
    ensures Linked(Attach(s, x, i, t),
      RootId(s),
      if i == Left && x == Extremum(s, Left) then Extremum(t, Left) else Extremum(s, Left),
      if i == Right && x == Extremum(s, Right) then Extremum(t, Right) else Extremum(s, Right),
      Count(s) + Count(t))
    ensures Ids(Attach(s, x, i, t)) == Ids(s) + Ids(t)
  {
    FindFacts(s, x);
    var linked := SetChild(Find(s, x), i, t);
    assert Ids(linked) == Ids(Find(s, x)) + Ids(t);
    ReplaceIds(s, x, linked);
    ReplaceUnique(s, x, linked);
    ReplaceCount(s, x, linked);
    ReplaceRoot(s, x, linked);
    AttachExtremum(s, x, i, t);
  }

  // ---------------------------------------------------------------
  // The tree object.
  // ---------------------------------------------------------------

  /**
   * The heap that data nodes are allocated from: it hands out each node
   * id once, and remembers which tree owns each node.
   */
  /** The ids that data nodes can have. */
  type NodeId = x: nat | Sentinel < x witness Sentinel + 1

  class Allocator {
    var next: NodeId
    ghost var owner: map<nat, object>

    constructor()
      ensures next == Sentinel + 1 && owner == map[]
    {
      next := Sentinel + 1;
      owner := map[];
    }
  }

  class Tree<T> {
    const alloc: Allocator
    /** The child links of the nodes reachable from `root`. */
    var shape: Shape<T>
    var root: nat
    var leftMost: nat
    /** The rightmost node, which tree.h keeps as the sentinel's parent. */
    var rightMost: nat
    var size: nat

    /**
     * The class invariant: the nodes are distinct and owned by this tree,
     * and the root, leftmost, rightmost and size fields agree with the
     * nodes actually linked from the root.
     */
    ghost predicate Valid()
      reads this, alloc
    {
      && Linked(shape, root, leftMost, rightMost, size)
      && Owned(Ids(shape), alloc.next, alloc.owner, this)
    }

    /** An empty tree (`Tree()` and `initialize`). */
    constructor(alloc: Allocator)
      ensures this.alloc == alloc && Valid() && shape == Nil
    {
      this.alloc := alloc;
      shape := Nil;
      root := Sentinel;
      leftMost := Sentinel;
      rightMost := Sentinel;
      size := 0;
    }

    /** `empty()`: whether the tree has no nodes, read off the size field. */
    function Empty(): (r: bool)
      reads this, alloc
      requires Valid()
      ensures r <==> shape == Nil
    {
      size == 0
    }

    /** `allocate`: a fresh node id, counted in the size field. */
    method Allocate() returns (id: nat)
      requires Valid()
      modifies this`size, alloc
      ensures id == old(alloc.next) && id != Sentinel && id !in Ids(shape)
      ensures alloc.next == id + 1 && alloc.owner == old(alloc.owner)[id := this]
      ensures size == old(size) + 1
    {
      id := alloc.next;
      alloc.next := alloc.next + 1;
      alloc.owner := alloc.owner[id := this];
      size := size + 1;
    }

    /**
     * `insertRoot`: refused unless the tree is empty; otherwise the new
     * node is the root, the leftmost and the rightmost node.
     */
    method InsertRoot(data: T) returns (r: Option<nat>)
      requires Valid()
      modifies this, alloc
      ensures Valid()
      ensures r.None? <==> old(shape).Node?
      ensures r.None? ==> unchanged(this) && unchanged(alloc)
      ensures r.Some? ==> r.value == root == leftMost == rightMost && size == 1
      ensures r.Some? ==> r.value == old(alloc.next) && alloc.next == r.value + 1
      ensures r.Some? ==> shape == Node(r.value, data, Nil, Nil)
    {
      if size != 0 {
        return None;
      }
      var node := Allocate();
      Leaf(node, data);
      shape := Node(node, data, Nil, Nil);
      leftMost := node;
      rightMost := node;
      root := node;
      r := Some(node);
    }

    /**
     * `insert(here, childIndex, data)`: refused for a child index other
     * than 0 or 1, at the sentinel, and where the child already exists;
     * otherwise a fresh node becomes child `i` of `here`, and the
     * leftmost (rightmost) node when `here` was the leftmost (rightmost)
     * node and the child is the left (right) one.
     */
    method Insert(here: nat, i: nat, data: T) returns (r: Option<nat>)
      requires Valid() && (here == Sentinel || here in Ids(shape))
      modifies this, alloc
      ensures Valid()
      ensures r.None? <==> i >= 2 || here == Sentinel || Child(Find(old(shape), here), i).Node?
      ensures r.None? ==> unchanged(this) && unchanged(alloc)
      ensures r.Some? ==> r.value == old(alloc.next) && alloc.next == r.value + 1
      ensures r.Some? ==> shape == Attach(old(shape), here, i, Node(r.value, data, Nil, Nil))
      ensures r.Some? ==> size == old(size) + 1
    {
      if i >= 2 || here == Sentinel {
        return None;
      }
      if Child(Find(shape, here), i).Node? {
        return None;
      }
      ghost var s := shape;
      var node := Allocate();
      var leaf := Node(node, data, Nil, Nil);
      Leaf(node, data);
      AttachLinked(s, here, i, leaf);
      shape := Attach(shape, here, i, leaf);
      if i == Left {
        if here == leftMost {
          leftMost := node;
        }
      } else {
        if here == rightMost {
          rightMost := node;
        }
      }
      r := Some(node);
    }

    /**
     * `insert(here, childIndex, data)` as written: the node is allocated,
     * and counted in the size, before the check that the child is free,
     * so a refused insertion leaves the size one larger than the number
     * of nodes in the tree.
     */
    method InsertAsWritten(here: nat, i: nat, data: T) returns (r: Option<nat>)
      requires Valid() && (here == Sentinel || here in Ids(shape))
      modifies this, alloc
      ensures r.None? <==> i >= 2 || here == Sentinel || Child(Find(old(shape), here), i).Node?
      ensures r.Some? ==> Valid() && shape == Attach(old(shape), here, i, Node(r.value, data, Nil, Nil))
      ensures r.None? && i < 2 && here != Sentinel ==>
        shape == old(shape) && size == Count(shape) + 1 && !Valid()
    {
      if i >= 2 || here == Sentinel {
        return None;
      }
      if Child(Find(shape, here), i).Node? {
        var node := Allocate();
        return None;
      }
      r := Insert(here, i, data);
    }

    /**
     * `eraseSubtree`: destroys the nodes of `sub`, children before their
     * parent, moving the leftmost and rightmost fields to the parent of
     * each destroyed node they name, and the root field to the sentinel.
     * `parent` is the parent of `sub`'s root. The child links into the
     * destroyed nodes are left to the caller.
     */
    method EraseSubtree(sub: Shape<T>, parent: nat)
      requires sub.Node? && Unique(sub) && parent !in Ids(sub) && size >= Count(sub)
      modifies this`leftMost, this`rightMost, this`root, this`size
      decreases sub
      ensures leftMost == if old(leftMost) in Ids(sub) then parent else old(leftMost)
      ensures rightMost == if old(rightMost) in Ids(sub) then parent else old(rightMost)
      ensures root == if old(root) in Ids(sub) then Sentinel else old(root)
      ensures size == old(size) - Count(sub)
    {
      if sub.left.Node? {
        EraseSubtree(sub.left, sub.id);
      }
      if sub.right.Node? {
        EraseSubtree(sub.right, sub.id);
      }
      if sub.id == leftMost {
        leftMost := parent;
      }
      if sub.id == rightMost {
        rightMost := parent;
      }
      if sub.id == root {
        root := Sentinel;
      }
      size := size - 1;
    }

    /**
     * `erase(node)`: destroys the subtree rooted at `node` and clears its
     * parent's child link to it.
     */
    method Erase(node: nat)
      requires Valid() && node in Ids(shape)
      modifies this
      ensures Valid()
      ensures shape == Replace(old(shape), node, Nil)
      ensures Ids(shape) == Ids(old(shape)) - Ids(Find(old(shape), node))
      ensures size == old(size) - Count(Find(old(shape), node))
    {
      ghost var s := shape;
      CutLinked(s, node);
      FindFacts(s, node);
      CutExtremum(s, node, Left);
      CutExtremum(s, node, Right);
      var parent := Parent(shape, node);
      EraseSubtree(Find(shape, node), parent);
      shape := Replace(shape, node, Nil);
    }

    /** `clear`: destroys every node. */
    method Clear()
      requires Valid()
      modifies this
      ensures Valid() && shape == Nil && size == 0
    {
      if size != 0 {
        Erase(root);
      }
      leftMost := Sentinel;
      root := Sentinel;
      size := 0;
    }

    /** `extremumSubtree`: follows child `i` from `node` while it is not empty. */
    method ExtremumSubtree(node: nat, i: nat) returns (r: nat)
      requires Valid() && node in Ids(shape) && i < 2
      ensures r == Extremum(Find(shape, node), i) && r in Ids(Find(shape, node))
    {
      FindFacts(shape, node);
      ExtremumIn(Find(shape, node), i);
      var next := Find(shape, node);
      var current := next;
      next := Child(current, i);
      while next.Node?
        invariant current.Node? && next == Child(current, i)
        invariant Extremum(current, i) == Extremum(Find(shape, node), i)
        decreases Count(next)
      {
        current := next;
        next := Child(current, i);
      }
      r := current.id;
    }

    /** `extremum`: the cached leftmost or rightmost node for the root, a walk otherwise. */
    method ExtremumOf(node: nat, i: nat) returns (r: nat)
      requires Valid() && node in Ids(shape) && i < 2
      ensures r == Extremum(Find(shape, node), i)
    {
      if node == root {
        r := if i == Left then leftMost else rightMost;
      } else {
        r := ExtremumSubtree(node, i);
      }
    }

    /** `size(node)`: the cached size for the root, a count of the subtree otherwise. */
    method SizeOf(node: nat) returns (n: nat)
      requires Valid() && node in Ids(shape)
      ensures n == Count(Find(shape, node)) && n <= size
    {
      FindFacts(shape, node);
      ReplaceCount(shape, node, Nil);
      if node == root {
        n := size;
      } else {
        n := Count(Find(shape, node));
      }
    }

    /**
     * `detach`: moves the subtree rooted at `node` into a tree of its
     * own; this tree keeps the rest, `node`'s parent taking over as
     * leftmost (rightmost) node when the old one left with the subtree.
     */
    method Detach(node: nat) returns (detached: Tree<T>)
      requires Valid() && node in Ids(shape)
      modifies this, alloc
      ensures fresh(detached) && detached.alloc == alloc
      ensures Valid() && detached.Valid()
      ensures detached.shape == Find(old(shape), node)
      ensures shape == Replace(old(shape), node, Nil)
      ensures size + detached.size == old(size)
    {
      ghost var s := shape;
      CutLinked(s, node);
      FindFacts(s, node);
      var sub := Find(shape, node);
      var oldParent := Parent(shape, node);

      var detachedLeftMost := leftMost;
      var detachedRightMost := rightMost;
      var detachedSize := size;
      if node != root {
        detachedLeftMost := ExtremumOf(node, Left);
        detachedRightMost := ExtremumOf(node, Right);
        detachedSize := SizeOf(node);
      }

      detached := new Tree(alloc);
      detached.shape := sub;
      detached.root := node;
      detached.leftMost := detachedLeftMost;
      detached.rightMost := detachedRightMost;
      detached.size := detachedSize;
      TransferOwned(Ids(s), Ids(sub), alloc.next, alloc.owner, this, detached);
      assert Ids(s) * Ids(sub) == Ids(sub);
      alloc.owner := Transfer(alloc.owner, Ids(sub), detached);
      CutOff(node, oldParent, detachedLeftMost, detachedRightMost, detachedSize);
    }

    /**
     * The end of `detach`: clears the parent's child link to `node`, and
     * hands the root, leftmost and rightmost roles that the subtree took
     * with it to the sentinel and to `node`'s parent.
     */
    method CutOff(node: nat, oldParent: nat, detachedLeftMost: nat, detachedRightMost: nat, detachedSize: nat)
      requires Linked(shape, root, leftMost, rightMost, size) && node in Ids(shape)
      requires oldParent == Parent(shape, node)
      requires detachedLeftMost == Extremum(Find(shape, node), Left)
      requires detachedRightMost == Extremum(Find(shape, node), Right)
      requires detachedSize == Count(Find(shape, node))
      modifies this`shape, this`root, this`leftMost, this`rightMost, this`size
      ensures Linked(shape, root, leftMost, rightMost, size)
      ensures shape == Replace(old(shape), node, Nil)
      ensures size == old(size) - detachedSize
    {
      CutLinked(shape, node);
      FindFacts(shape, node);
      shape := Replace(shape, node, Nil);
      if node == root {
        root := Sentinel;
      }
      if detachedLeftMost == leftMost {
        leftMost := oldParent;
      }
      if detachedRightMost == rightMost {
        rightMost := oldParent;
      }
      size := size - detachedSize;
    }

    /** `forget`: lets go of every node without destroying any. */
    method Forget()
      modifies this
      ensures Valid() && shape == Nil
    {
      shape := Nil;
      root := Sentinel;
      leftMost := Sentinel;
      rightMost := Sentinel;
      size := 0;
    }

    /**
     * Move assignment (`operator=(Tree&&)`): destroys this tree's nodes
     * and takes over those of `that`, which is left empty; assigning a
     * tree to itself changes nothing.
     */
    method MoveAssign(that: Tree<T>)
      requires Valid() && that.Valid() && that.alloc == alloc
      modifies this, that, alloc
      ensures Valid() && that.Valid()
      ensures that == this ==> shape == old(shape)
      ensures that != this ==> shape == old(that.shape) && size == old(that.size) && that.shape == Nil
    {
      if this == that {
        return;
      }
      Clear();
      root := that.root;
      leftMost := that.leftMost;
      rightMost := that.rightMost;
      size := that.size;
      shape := that.shape;
      TransferOwned(Ids(that.shape), Ids(that.shape), alloc.next, alloc.owner, that, this);
      alloc.owner := Transfer(alloc.owner, Ids(that.shape), this);
      that.Forget();
    }

    /**
     * `insert(there, childIndex, Tree&&)`: links the nodes of `that`, as
     * they are, under child `i` of `there` (or makes them the whole tree
     * when `there` is the sentinel), leaving `that` empty. Refused for
     * moving a tree under itself, at the sentinel of a non-empty tree and
     * where the child already exists; an empty `that` gives `end()`.
     */
    method InsertMove(there: nat, i: nat, that: Tree<T>) returns (r: Option<nat>)
      requires Valid() && that.Valid() && that.alloc == alloc && i < 2
      requires there == Sentinel || there in Ids(shape)
      modifies this, that, alloc
      ensures Valid() && that.Valid()
      ensures r.None? <==> (that == this || (old(that.shape).Node? &&
        if there == Sentinel then old(shape).Node? else Child(Find(old(shape), there), i).Node?))
      ensures r.None? || old(that.shape).Nil? ==> unchanged(this) && unchanged(that)
      ensures r.Some? && old(that.shape).Nil? ==> r.value == Sentinel
      ensures r.Some? && old(that.shape).Node? ==>
        && r.value == old(that.root) && that.shape == Nil
        && shape == (if there == Sentinel then old(that.shape) else Attach(old(shape), there, i, old(that.shape)))
        && size == old(size) + old(that.size)
    {
      if this == that {
        return None;
      }
      if that.size == 0 {
        return Some(Sentinel);
      }
      var thatRoot := that.root;
      if there == Sentinel {
        if size != 0 {
          return None;
        }
        MoveAssign(that);
      } else {
        if Child(Find(shape, there), i).Node? {
          return None;
        }
        ghost var s := shape;
        ghost var t := that.shape;
        OwnedDisjoint(Ids(t), Ids(s), alloc.next, alloc.owner, that, this);
        AttachLinked(s, there, i, t);
        TransferOwned(Ids(t), Ids(t), alloc.next, alloc.owner, that, this);
        assert Ids(t) * Ids(t) == Ids(t);

        shape := Attach(shape, there, i, that.shape);
        if i == Left {
          if there == leftMost {
            leftMost := that.leftMost;
          }
        }
        if i == Right {
          if there == rightMost {
            rightMost := that.rightMost;
          }
        }
        size := size + that.size;
        alloc.owner := Transfer(alloc.owner, Ids(t), this);
        that.Forget();
      }
      r := Some(thatRoot);
    }

    /**
     * `copyConstruct`: copies the children of `from`, and theirs in turn,
     * under the node `to`, which already holds a copy of `from`'s root,
     * by inserting one fresh node at a time.
     */
    method CopyChildren(from: Shape<T>, to: nat) returns (ghost copy: Shape<T>)
      requires Valid() && from.Node? && to in Ids(shape)
      requires Find(shape, to) == Node(to, from.data, Nil, Nil)
      modifies this, alloc
      decreases from, 0
      ensures Valid()
      ensures copy.Node? && copy.id == to && Unlabelled(copy) == Unlabelled(from)
      ensures shape == Replace(old(shape), to, copy)
      ensures size == old(size) + Count(from) - 1
      ensures old(alloc.next) <= alloc.next
      ensures forall y :: y in Ids(copy) ==> y == to || old(alloc.next) <= y < alloc.next
    {
      ghost var s0 := shape;
      FindFacts(s0, to);
      ghost var lc: Shape<T> := Nil;
      if from.left.Node? {
        lc := CopyChild(from.left, to, Left);
      } else {
        ReplaceFound(s0, to);
      }
      ghost var top1 := Node(to, from.data, lc, Nil);
      assert shape == Replace(s0, to, top1);
      FindReplaced(s0, to, top1, to);
      ghost var rc: Shape<T> := Nil;
      if from.right.Node? {
        FindPresent(shape, to);
        rc := CopyChild(from.right, to, Right);
        ReplaceNested(s0, to, top1, to, Node(to, from.data, lc, rc));
      }
      copy := Node(to, from.data, lc, rc);
    }

    /**
     * One round of `copyConstruct`'s loop: inserts a copy of the root of
     * `child` as child `i` of `to`, then copies the rest under it.
     */
    method CopyChild(child: Shape<T>, to: nat, i: nat) returns (ghost copy: Shape<T>)
      requires Valid() && child.Node? && i < 2 && to in Ids(shape)
      requires Child(Find(shape, to), i).Nil?
      modifies this, alloc
      decreases child, 1
      ensures Valid()
      ensures copy.Node? && Unlabelled(copy) == Unlabelled(child)
      ensures shape == Attach(old(shape), to, i, copy)
      ensures size == old(size) + Count(child)
      ensures old(alloc.next) <= alloc.next
      ensures forall y :: y in Ids(copy) ==> old(alloc.next) <= y < alloc.next
    {
      ghost var s0 := shape;
      FindFacts(s0, to);
      SentinelAbsent(s0);
      var n := Insert(to, i, child.data);
      var node := n.value;
      ghost var leaf := Node(node, child.data, Nil, Nil);
      Leaf(node, child.data);
      AttachCut(s0, to, i, leaf);
      FindPresent(shape, node);
      copy := CopyChildren(child, node);
      ghost var linked := SetChild(Find(s0, to), i, leaf);
      assert node in Ids(linked);
      ReplaceNested(s0, to, linked, node, copy);
      assert node !in Ids(Child(Find(s0, to), Other(i)));
    }

    /**
     * `insert(there, childIndex, const Tree&)`: inserts a copy of `that`,
     * made of fresh nodes, under child `i` of `there` (or as the whole
     * tree when `there` is the sentinel). An empty `that` gives `there`
     * back; the insertion of the copy's root is refused, and nothing
     * changes, at the sentinel of a non-empty tree and where the child
     * already exists. Copying a tree into itself copies it as it was.
     */
    method InsertCopy(there: nat, i: nat, that: Tree<T>) returns (r: Option<nat>, ghost copy: Shape<T>)
      requires Valid() && that.Valid() && i < 2
      requires there == Sentinel || there in Ids(shape)
      modifies this, alloc
      ensures Valid()
      ensures r.None? <==> (old(that.shape).Node? &&
        if there == Sentinel then old(shape).Node? else Child(Find(old(shape), there), i).Node?)
      ensures r.None? || old(that.shape).Nil? ==> unchanged(this) && unchanged(alloc)
      ensures old(that.shape).Nil? ==> r == Some(there)
      ensures r.Some? && old(that.shape).Node? ==>
        && copy.Node? && r.value == copy.id && Unlabelled(copy) == Unlabelled(old(that.shape))
        && Ids(copy) !! Ids(old(shape))
        && shape == (if there == Sentinel then copy else Attach(old(shape), there, i, copy))
        && size == old(size) + Count(old(that.shape))
    {
      var from := that.shape;
      copy := Nil;
      if that.size == 0 {
        return Some(there), copy;
      }
      ghost var s0 := shape;
      var copyRoot: Option<nat>;
      if there == Sentinel {
        copyRoot := InsertRoot(from.data);
      } else {
        copyRoot := Insert(there, i, from.data);
      }
      if copyRoot.None? {
        return None, copy;
      }
      var node := copyRoot.value;
      ghost var leaf := Node(node, from.data, Nil, Nil);
      if there == Sentinel {
        assert Find(shape, node) == leaf;
        assert node in Ids(shape);
      } else {
        FindFacts(s0, there);
        Leaf(node, from.data);
        AttachCut(s0, there, i, leaf);
        FindPresent(shape, node);
      }
      copy := CopyChildren(from, node);
      assert forall y :: y in Ids(copy) ==> y == node || node < y;
      assert forall y :: y in Ids(s0) ==> y < node;
      if there != Sentinel {
        ghost var linked := SetChild(Find(s0, there), i, leaf);
        assert node in Ids(linked);
        ReplaceNested(s0, there, linked, node, copy);
        assert node !in Ids(Child(Find(s0, there), Other(i)));
      }
      r := Some(node);
    }

    /**
     * `rotate(that, direction)`: refused unless `that`'s child `R` has a
     * child `L` (where `L` is the direction and `R` the other one);
     * otherwise rotates `that` in direction `L`, linking the node that
     * moves up from the parent of `that`. The symmetric order of the
     * nodes, and with it the leftmost and rightmost nodes, stays.
     */
    method Rotate(node: nat, direction: nat) returns (ok: bool)
      requires Valid() && direction < 2 && (node == Sentinel || node in Ids(shape))
      modifies this
      ensures Valid()
      ensures ok <==> Child(Child(Find(old(shape), node), Other(direction)), direction).Node?
      ensures !ok ==> unchanged(this)
      ensures ok ==> shape == Replace(old(shape), node, Rotation(Find(old(shape), node), direction))
      ensures InOrder(shape) == InOrder(old(shape)) && Ids(shape) == Ids(old(shape))
    {
      var L := direction;
      var R := Other(L);
      var that := Find(shape, node);
      var right := Child(that, R);
      var rightLeft := Child(right, L);
      if rightLeft.Nil? {
        return false;
      }
      ghost var s := shape;
      if node == Sentinel {
        SentinelAbsent(s);
        FindAbsent(s, node);
        assert false;
      }
      FindFacts(s, node);
      RotationKeepsOrder(that, L);
      var rotated := Rotation(that, L);
      ReplaceInOrder(s, node, rotated);
      ReplaceIds(s, node, rotated);
      ReplaceUnique(s, node, rotated);
      ReplaceCount(s, node, rotated);
      ReplaceRoot(s, node, rotated);
      shape := Replace(shape, node, rotated);
      SameInOrderExtremum(s, shape, Left);
      SameInOrderExtremum(s, shape, Right);
      if node == root {
        root := right.id;
      }
      ok := true;
    }
  }
}
