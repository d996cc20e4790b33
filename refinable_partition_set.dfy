/**
 * The member interval of one set of Pastel's refinable partition
 * (`RefinablePartition::Set`): all sets share one member list, and each
 * set keeps iterators to the first and last node of its interval and to
 * the first unmarked node, with counts of its members and marked members.
 *
 * The member list is modelled as the sequence of its node identifiers,
 * an iterator as a node or the end position. A set's fields represent
 * its members when the members form a contiguous block of the list, the
 * marked ones first, with the fields pointing at the block's ends and at
 * the first unmarked node.
 */
module RefinablePartitionSets {
  import opened RefinablePartitions

  /** A list iterator: a node of the member list, or its end. */
  datatype Pos = Node(id: nat) | End

  /** The iterator at index k of L. */
  function PosAt(L: seq<nat>, k: nat): (p: Pos)
  {
    if k < |L| then Node(L[k]) else End
  }

  /** `std::next`. */
  function Next(L: seq<nat>, p: Pos): (r: Pos)
  {
    match p
    case End => End
    case Node(id) => if id in L then PosAt(L, IndexOf(L, id) + 1) else End
  }

  /** `std::prev`; the end position steps back to the last node. */
  function Prev(L: seq<nat>, p: Pos): (r: Pos)
  {
    match p
    case End => if L == [] then End else Node(L[|L| - 1])
    case Node(id) => if id in L && IndexOf(L, id) > 0 then Node(L[IndexOf(L, id) - 1]) else End
  }

  lemma IndexOfAt(L: seq<nat>, k: nat)
    requires Distinct(L) && k < |L|
    ensures IndexOf(L, L[k]) == k
  {
  }

  lemma NextAt(L: seq<nat>, k: nat)
    requires Distinct(L) && k < |L|
    ensures Next(L, PosAt(L, k)) == PosAt(L, k + 1)
  {
    IndexOfAt(L, k);
  }

  lemma PrevAt(L: seq<nat>, k: nat)
    requires Distinct(L) && 0 < k <= |L|
    ensures Prev(L, PosAt(L, k)) == Node(L[k - 1])
  {
    if k < |L| {
      IndexOfAt(L, k);
    }
  }

  /** The fields of a set: `begin_`, `last_`, `unmarkedBegin_`, `elements_`, `marked_`. */
  datatype SetFields = SetFields(begin: Pos, last: Pos, unmarkedBegin: Pos, elements: nat, marked: nat)

  /** `cend()`: one past the last member. */
  function CEnd(L: seq<nat>, f: SetFields): (p: Pos)
  {
    if f.elements > 0 then Next(L, f.last) else f.last
  }

  /**
   * The fields represent the members ms, which occupy L from index i on:
   * the block's first and last nodes, the first unmarked node (or the
   * position after the block) and the counts; an empty set points at the
   * end of the list.
   */
  ghost predicate Represents(L: seq<nat>, f: SetFields, ms: seq<nat>, i: nat)
  {
    Distinct(L) && i + |ms| <= |L| && L[i..i + |ms|] == ms &&
    f.elements == |ms| && f.marked <= |ms| &&
    (ms == [] ==> f.begin == End && f.last == End && f.unmarkedBegin == End) &&
    (ms != [] ==> f.begin == Node(L[i]) && f.last == Node(L[i + |ms| - 1]) && f.unmarkedBegin == PosAt(L, i + f.marked))
  }

  /** `cend()` of a represented non-empty set is the position after its block. */
  lemma CEndAt(L: seq<nat>, f: SetFields, ms: seq<nat>, i: nat)
    requires Represents(L, f, ms, i) && ms != []
    ensures CEnd(L, f) == PosAt(L, i + |ms|)
  {
    NextAt(L, i + |ms| - 1);
  }

  // ---------------------------------------------------------------
  // Marking.
  // ---------------------------------------------------------------

  /** `moveToMarked`: the first unmarked node joins the marked front (the node contents are swapped, not modelled here). */
  function MoveToMarked(L: seq<nat>, f: SetFields): (g: SetFields)
  {
    f.(unmarkedBegin := Next(L, f.unmarkedBegin), marked := f.marked + 1)
  }

  /** `moveToUnmarked`: the last marked node leaves the marked front. */
  function MoveToUnmarked(L: seq<nat>, f: SetFields): (g: SetFields)
    requires f.marked > 0
  {
    f.(unmarkedBegin := Prev(L, f.unmarkedBegin), marked := f.marked - 1)
  }

  lemma MoveToMarkedKeeps(L: seq<nat>, f: SetFields, ms: seq<nat>, i: nat)
    requires Represents(L, f, ms, i) && f.marked < f.elements
    ensures Represents(L, MoveToMarked(L, f), ms, i)
  {
    NextAt(L, i + f.marked);
  }

  lemma MoveToUnmarkedKeeps(L: seq<nat>, f: SetFields, ms: seq<nat>, i: nat)
    requires Represents(L, f, ms, i) && f.marked > 0
    ensures Represents(L, MoveToUnmarked(L, f), ms, i)
  {
    PrevAt(L, i + f.marked);
  }

  // ---------------------------------------------------------------
  // Splitting.
  // ---------------------------------------------------------------

  /** `shrinkToUnmarked`: the set keeps only its unmarked part, all unmarked. */
  function ShrinkToUnmarked(f: SetFields): (g: SetFields)
    requires f.marked < f.elements
  {
    f.(begin := f.unmarkedBegin, elements := f.elements - f.marked, marked := 0)
  }

  /** `shrinkToMarked`: the set keeps only its marked part, now counted as unmarked. */
  function ShrinkToMarked(L: seq<nat>, f: SetFields): (g: SetFields)
    requires f.marked > 0
  {
    if f.marked < f.elements then
      f.(last := Prev(L, f.unmarkedBegin), elements := f.marked, unmarkedBegin := f.begin, marked := 0)
    else
      f.(unmarkedBegin := f.begin, marked := 0)
  }

  /** The `Set(begin, end, split, elements, type, data)` constructor, for a new set over [begin, end). */
  function NewSet(L: seq<nat>, begin: Pos, end: Pos, elements: nat): (g: SetFields)
  {
    SetFields(begin, if elements > 0 then Prev(L, end) else end, begin, elements, 0)
  }

  /** After `shrinkToUnmarked` the set represents its former unmarked part, with nothing marked. */
  lemma ShrinkToUnmarkedKeeps(L: seq<nat>, f: SetFields, ms: seq<nat>, i: nat)
    requires Represents(L, f, ms, i) && f.marked < f.elements
    ensures Represents(L, ShrinkToUnmarked(f), ms[f.marked..], i + f.marked)
  {
    var m := f.marked;
    assert L[i + m..i + m + |ms[m..]|] == ms[m..] by {
      assert L[i + m..i + |ms|] == L[i..i + |ms|][m..];
    }
  }

  /** After `shrinkToMarked` the set represents its former marked part, with nothing marked. */
  lemma ShrinkToMarkedKeeps(L: seq<nat>, f: SetFields, ms: seq<nat>, i: nat)
    requires Represents(L, f, ms, i) && f.marked > 0
    ensures Represents(L, ShrinkToMarked(L, f), ms[..f.marked], i)
  {
    var m := f.marked;
    assert L[i..i + m] == L[i..i + |ms|][..m];
    if m < f.elements {
      PrevAt(L, i + m);
    }
  }

  /** The set that `split()` creates from the marked part represents that part. */
  lemma NewMarkedPart(L: seq<nat>, f: SetFields, ms: seq<nat>, i: nat)
    requires Represents(L, f, ms, i) && 0 < f.marked
    ensures Represents(L, NewSet(L, f.begin, f.unmarkedBegin, f.marked), ms[..f.marked], i)
  {
    var m := f.marked;
    assert L[i..i + m] == L[i..i + |ms|][..m];
    PrevAt(L, i + m);
  }

  /** The set that `split()` creates from the unmarked part represents that part. */
  lemma NewUnmarkedPart(L: seq<nat>, f: SetFields, ms: seq<nat>, i: nat)
    requires Represents(L, f, ms, i) && f.marked < f.elements
    ensures Represents(L, NewSet(L, f.unmarkedBegin, CEnd(L, f), f.elements - f.marked), ms[f.marked..], i + f.marked)
  {
    var m := f.marked;
    CEndAt(L, f, ms, i);
    PrevAt(L, i + |ms|);
    assert L[i + m..i + |ms|] == L[i..i + |ms|][m..];
  }

  // ---------------------------------------------------------------
  // Erasing a member.
  // ---------------------------------------------------------------

  /** The member list without its node at index j. */
  function EraseAt(L: seq<nat>, j: nat): (r: seq<nat>)
    requires j < |L|
    ensures |r| == |L| - 1
  {
    L[..j] + L[j + 1..]
  }

  /** `Set::erase` as written: the first and last iterators follow the erased node, the first unmarked one does not. */
  function EraseAsWritten(L: seq<nat>, f: SetFields, n: nat): (g: SetFields)
    requires f.elements > 0
  {
    var elements := f.elements - 1;
    if elements == 0 then f.(begin := End, last := End, unmarkedBegin := End, elements := 0)
    else if Node(n) == f.begin then f.(begin := Next(L, f.begin), elements := elements)
    else if Node(n) == f.last then f.(last := Prev(L, f.last), elements := elements)
    else f.(elements := elements)
  }

  /** `Set::erase` with the first unmarked iterator also stepping past the erased node. */
  function Erase(L: seq<nat>, f: SetFields, n: nat): (g: SetFields)
    requires f.elements > 0
  {
    var g := EraseAsWritten(L, f, n);
    if g.elements > 0 && f.unmarkedBegin == Node(n) then g.(unmarkedBegin := Next(L, Node(n))) else g
  }

  lemma EraseAtDistinct(L: seq<nat>, j: nat)
    requires Distinct(L) && j < |L|
    ensures Distinct(EraseAt(L, j))
    ensures L[j] !in EraseAt(L, j)
  {
    var r := EraseAt(L, j);
    forall a, b | 0 <= a < b < |r| ensures r[a] != r[b] {
      assert r[a] == L[if a < j then a else a + 1];
      assert r[b] == L[if b < j then b else b + 1];
    }
    forall a | 0 <= a < |r| ensures r[a] != L[j] {
      assert r[a] == L[if a < j then a else a + 1];
    }
  }

  /**
   * Erasing an unmarked member (the partition unmarks an element before
   * erasing it) at index j keeps the representation, with the node gone
   * from both the list and the set's members.
   */
  lemma EraseKeeps(L: seq<nat>, f: SetFields, ms: seq<nat>, i: nat, j: nat)
    requires Represents(L, f, ms, i) && i + f.marked <= j < i + |ms|
    ensures Represents(EraseAt(L, j), Erase(L, f, L[j]), ms[..j - i] + ms[j - i + 1..], i)
  {
    var L', g, ms' := EraseAt(L, j), Erase(L, f, L[j]), ms[..j - i] + ms[j - i + 1..];
    EraseAtDistinct(L, j);
    assert L'[i..i + |ms'|] == ms' by {
      forall a | 0 <= a < |ms'| ensures L'[i + a] == ms'[a] {
        if a < j - i {
          assert L'[i + a] == L[i + a] == ms[a];
        } else {
          assert L'[i + a] == L[i + a + 1] == ms[a + 1];
        }
      }
    }
    if |ms| > 1 {
      var m := f.marked;
      NextAt(L, j);
      if j == i + |ms| - 1 && j != i {
        PrevAt(L, j);
      }
      assert L[j] != L[i + |ms| - 1] || j == i + |ms| - 1;
      assert L[j] != L[i] || j == i;
      assert L[j] != L[i + m] || j == i + m;
    }
  }

  /**
   * As written, erasing the first unmarked member of a set with other
   * members leaves the first unmarked iterator on the erased node.
   */
  lemma EraseAsWrittenDangles(L: seq<nat>, f: SetFields, ms: seq<nat>, i: nat)
    requires Represents(L, f, ms, i) && f.marked < |ms| && |ms| > 1
    ensures EraseAsWritten(L, f, L[i + f.marked]).unmarkedBegin == Node(L[i + f.marked])
    ensures L[i + f.marked] !in EraseAt(L, i + f.marked)
  {
    EraseAtDistinct(L, i + f.marked);
  }

  /** The two-member example: erasing the first of two unmarked members. */
  lemma EraseAsWrittenExample()
    ensures Represents([1, 2], SetFields(Node(1), Node(2), Node(1), 2, 0), [1, 2], 0)
    ensures EraseAsWritten([1, 2], SetFields(Node(1), Node(2), Node(1), 2, 0), 1)
      == SetFields(Node(2), Node(2), Node(1), 1, 0)
    ensures EraseAt([1, 2], 0) == [2]
  {
    NextAt([1, 2], 0);
  }

  // ---------------------------------------------------------------
  // Inserting a member.
  // ---------------------------------------------------------------

  /** `memberSet_.emplace(p, n)`: the new node goes before position p. */
  function InsertBefore(L: seq<nat>, p: Pos, n: nat): (r: seq<nat>)
    ensures |r| == |L| + 1
  {
    match p
    case End => L + [n]
    case Node(id) => if id in L then L[..IndexOf(L, id)] + [n] + L[IndexOf(L, id)..] else L + [n]
  }

  /** `insertOne`: the new node goes at `cUnmarkedEnd()`, which is `cend()`. */
  function InsertNode(L: seq<nat>, f: SetFields, n: nat): (r: seq<nat>)
    ensures |r| == |L| + 1
  {
    InsertBefore(L, CEnd(L, f), n)
  }

  /** `Set::insertUnmarked` as written: the first unmarked iterator stays unless the set was empty. */
  function InsertUnmarkedAsWritten(f: SetFields, n: nat): (g: SetFields)
  {
    if f.elements == 0 then SetFields(Node(n), Node(n), Node(n), 1, 0)
    else f.(last := Node(n), elements := f.elements + 1)
  }

  /** `Set::insertUnmarked` with the first unmarked iterator moved to the new node when everything was marked. */
  function InsertUnmarked(f: SetFields, n: nat): (g: SetFields)
  {
    var g := InsertUnmarkedAsWritten(f, n);
    if f.elements > 0 && f.marked == f.elements then g.(unmarkedBegin := Node(n)) else g
  }

  /** Where the new node lands: after the set's block, or at the end of the list for an empty set. */
  lemma InsertNodeAt(L: seq<nat>, f: SetFields, ms: seq<nat>, i: nat, n: nat)
    requires Represents(L, f, ms, i)
    ensures var k := if ms == [] then |L| else i + |ms|;
      InsertNode(L, f, n) == L[..k] + [n] + L[k..]
  {
    if ms != [] {
      CEndAt(L, f, ms, i);
      if i + |ms| < |L| {
        IndexOfAt(L, i + |ms|);
      }
    }
  }

  lemma InsertDistinct(L: seq<nat>, k: nat, n: nat)
    requires Distinct(L) && k <= |L| && n !in L
    ensures Distinct(L[..k] + [n] + L[k..])
  {
    var r := L[..k] + [n] + L[k..];
    forall a, b | 0 <= a < b < |r| ensures r[a] != r[b] {
      if a != k && b != k {
        assert r[a] == L[if a < k then a else a - 1];
        assert r[b] == L[if b < k then b else b - 1];
      } else if a == k {
        assert r[b] == L[b - 1];
      } else {
        assert r[a] == L[a];
      }
    }
  }

  /** Inserting a new node keeps the representation, with the node appended to the set's members. */
  lemma InsertUnmarkedKeeps(L: seq<nat>, f: SetFields, ms: seq<nat>, i: nat, n: nat)
    requires Represents(L, f, ms, i) && n !in L
    ensures Represents(InsertNode(L, f, n), InsertUnmarked(f, n), ms + [n], if ms == [] then |L| else i)
  {
    var k := if ms == [] then |L| else i + |ms|;
    var i' := if ms == [] then |L| else i;
    InsertNodeAt(L, f, ms, i, n);
    var L' := L[..k] + [n] + L[k..];
    InsertDistinct(L, k, n);
    assert L'[i'..i' + |ms| + 1] == ms + [n] by {
      forall a | 0 <= a <= |ms| ensures L'[i' + a] == (ms + [n])[a] {
        if a < |ms| {
          assert L'[i' + a] == L[i' + a];
        }
      }
    }
  }

  /**
   * As written, inserting into a non-empty set whose members are all
   * marked leaves the first unmarked iterator past the new node, so the
   * new member is counted as unmarked but lies in the marked front.
   */
  lemma InsertUnmarkedAsWrittenMisplaced(L: seq<nat>, f: SetFields, ms: seq<nat>, i: nat, n: nat)
    requires Represents(L, f, ms, i) && n !in L && ms != [] && f.marked == |ms|
    ensures !Represents(InsertNode(L, f, n), InsertUnmarkedAsWritten(f, n), ms + [n], i)
  {
    InsertNodeAt(L, f, ms, i, n);
    var k := i + |ms|;
    var L' := L[..k] + [n] + L[k..];
    assert L'[k] == n;
    assert PosAt(L', k) == Node(n);
    assert f.unmarkedBegin == PosAt(L, k);
    assert f.unmarkedBegin != Node(n);
  }

  /** The one-member example: the marked part that `split()` would cut now covers both nodes. */
  lemma InsertUnmarkedAsWrittenExample()
    ensures Represents([1], SetFields(Node(1), Node(1), End, 1, 1), [1], 0)
    ensures InsertNode([1], SetFields(Node(1), Node(1), End, 1, 1), 2) == [1, 2]
    ensures InsertUnmarkedAsWritten(SetFields(Node(1), Node(1), End, 1, 1), 2)
      == SetFields(Node(1), Node(2), End, 2, 1)
    ensures NewSet([1, 2], Node(1), End, 1) == SetFields(Node(1), Node(2), Node(1), 1, 0)
  {
    NextAt([1], 0);
  }
}
