/**
 * Pastel's refinable partition (`RefinablePartition<ElementData, SetData>`):
 * a partition of elements into sets, where elements can be marked and
 * `split()` separates the marked and unmarked elements of every set.
 *
 * Elements and sets are named by identifiers, which stand for the C++
 * list iterators; a fresh identifier stands for a newly allocated node.
 * The partition value records, for each element, its set and whether it
 * is marked; the member intervals of the C++ member list, which realise
 * the same information, are modelled separately (module
 * RefinablePartitionSets) at the level of the set's iterators.
 */
module RefinablePartitions {
  import opened Wrappers

  type ElementId = nat
  type SetId = nat

  // ---------------------------------------------------------------
  // Sequences of identifiers.
  // ---------------------------------------------------------------

  predicate Distinct(s: seq<nat>)
  {
    forall i, j :: 0 <= i < j < |s| ==> s[i] != s[j]
  }

  /** The position of x in s. */
  function IndexOf(s: seq<nat>, x: nat): (i: nat)
    requires x in s
    ensures i < |s| && s[i] == x && x !in s[..i]
  {
    if s[0] == x then 0
    else
      assert s[1..][IndexOf(s[1..], x)] == x;
      assert s[..IndexOf(s[1..], x) + 1] == [s[0]] + s[1..][..IndexOf(s[1..], x)];
      1 + IndexOf(s[1..], x)
  }

  /** s without x: a list erase of x's node. */
  function Remove(s: seq<nat>, x: nat): (r: seq<nat>)
    ensures |r| <= |s|
  {
    if s == [] then []
    else if s[0] == x then Remove(s[1..], x)
    else [s[0]] + Remove(s[1..], x)
  }

  lemma {:induction false} RemoveMembers(s: seq<nat>, x: nat, y: nat)
    ensures y in Remove(s, x) <==> y in s && y != x
  {
    if s != [] {
      RemoveMembers(s[1..], x, y);
      assert y in s <==> y == s[0] || y in s[1..];
    }
  }

  /** In a list without repetitions, erasing x removes exactly the entry at x's position. */
  lemma {:induction false} RemoveAt(s: seq<nat>, x: nat)
    requires Distinct(s) && x in s
    ensures Remove(s, x) == s[..IndexOf(s, x)] + s[IndexOf(s, x) + 1..]
  {
    if s[0] == x {
      assert x !in s[1..];
      RemoveAbsent(s[1..], x);
    } else {
      assert Distinct(s[1..]);
      RemoveAt(s[1..], x);
      assert s[..IndexOf(s, x)] == [s[0]] + s[1..][..IndexOf(s[1..], x)];
    }
  }

  lemma {:induction false} RemoveAbsent(s: seq<nat>, x: nat)
    requires x !in s
    ensures Remove(s, x) == s
  {
    if s != [] {
      assert s[0] != x && x !in s[1..];
      RemoveAbsent(s[1..], x);
    }
  }

  lemma {:induction false} RemoveDistinct(s: seq<nat>, x: nat)
    requires Distinct(s)
    ensures Distinct(Remove(s, x))
    ensures x in s ==> |Remove(s, x)| == |s| - 1
  {
    if s != [] {
      assert Distinct(s[1..]);
      RemoveDistinct(s[1..], x);
      if s[0] != x {
        var rest := Remove(s[1..], x);
        forall y
          ensures y in rest ==> y != s[0]
        {
          RemoveMembers(s[1..], x, y);
        }
        var r := [s[0]] + rest;
        forall i, j | 0 <= i < j < |r|
          ensures r[i] != r[j]
        {
          if i == 0 {
            assert r[j] == rest[j - 1] && r[j] in rest;
          } else {
            assert r[i] == rest[i - 1] && r[j] == rest[j - 1];
          }
        }
      } else {
        assert x !in s[1..];
        RemoveAbsent(s[1..], x);
      }
    }
  }


  /** xs without the entries in drop, in order. */
  function Keep(xs: seq<nat>, drop: set<nat>): (r: seq<nat>)
    ensures |r| <= |xs|
  {
    if xs == [] then []
    else if xs[0] in drop then Keep(xs[1..], drop)
    else [xs[0]] + Keep(xs[1..], drop)
  }

  lemma {:induction false} KeepMembers(xs: seq<nat>, drop: set<nat>, y: nat)
    ensures y in Keep(xs, drop) <==> y in xs && y !in drop
  {
    if xs != [] {
      KeepMembers(xs[1..], drop, y);
      assert y in xs <==> y == xs[0] || y in xs[1..];
    }
  }

  /** Erasing the entries one at a time ends in the same list as dropping them all. */
  lemma {:induction false} KeepMore(xs: seq<nat>, drop: set<nat>, x: nat)
    ensures Remove(Keep(xs, drop), x) == Keep(xs, drop + {x})
  {
    if xs != [] {
      KeepMore(xs[1..], drop, x);
    }
  }

  lemma {:induction false} KeepDistinct(xs: seq<nat>, drop: set<nat>)
    requires Distinct(xs)
    ensures Distinct(Keep(xs, drop))
  {
    if xs != [] {
      assert Distinct(xs[1..]);
      KeepDistinct(xs[1..], drop);
      if xs[0] !in drop {
        var rest := Keep(xs[1..], drop);
        forall y ensures y in rest ==> y != xs[0] {
          KeepMembers(xs[1..], drop, y);
        }
        var r := [xs[0]] + rest;
        forall i, j | 0 <= i < j < |r|
          ensures r[i] != r[j]
        {
          if i == 0 {
            assert r[j] == rest[j - 1] && r[j] in rest;
          } else {
            assert r[i] == rest[i - 1] && r[j] == rest[j - 1];
          }
        }
      }
    }
  }

  lemma DistinctAppend(s: seq<nat>, x: nat)
    requires Distinct(s) && x !in s
    ensures Distinct(s + [x])
  {
    var r := s + [x];
    forall i, j | 0 <= i < j < |r| ensures r[i] != r[j] {
      if j == |s| { assert r[i] == s[i]; }
      else { assert r[i] == s[i] && r[j] == s[j]; }
    }
  }

  lemma DistinctPrefix(s: seq<nat>)
    requires Distinct(s) && s != []
    ensures Distinct(s[..|s| - 1]) && s[|s| - 1] !in s[..|s| - 1]
  {
    var r := s[..|s| - 1];
    forall k | 0 <= k < |r| ensures r[k] != s[|s| - 1] {
      assert r[k] == s[k];
    }
    forall i, j | 0 <= i < j < |r| ensures r[i] != r[j] {
      assert r[i] == s[i] && r[j] == s[j];
    }
  }

  // ---------------------------------------------------------------
  // The partition as a value.
  // ---------------------------------------------------------------

  /** An element: the set it belongs to, whether it is marked, and its data. */
  datatype ElementRec<E> = ElementRec(owner: SetId, marked: bool, data: E)

  /**
   * `elementSet_`, `setSet_` and `splitSet_` in their list order, the
   * record of each element and the data of each set, and the next fresh
   * identifier.
   */
  datatype Partition<E, S> = Partition(
    elementSet: seq<ElementId>, elements: map<ElementId, ElementRec<E>>,
    setSet: seq<SetId>, sets: map<SetId, S>,
    splitSet: seq<SetId>,
    nextId: nat)

  function Empty<E, S>(): (p: Partition<E, S>)
  {
    Partition([], map[], [], map[], [], 0)
  }

  /** The members of set s. */
  function Members<E, S>(p: Partition<E, S>, s: SetId): set<ElementId>
  {
    set e | e in p.elements && p.elements[e].owner == s
  }

  /** The marked members of set s. */
  function MarkedMembers<E, S>(p: Partition<E, S>, s: SetId): set<ElementId>
  {
    set e | e in p.elements && p.elements[e].owner == s && p.elements[e].marked
  }

  /** The unmarked members of set s. */
  function UnmarkedMembers<E, S>(p: Partition<E, S>, s: SetId): set<ElementId>
  {
    set e | e in p.elements && p.elements[e].owner == s && !p.elements[e].marked
  }

  predicate Marked<E, S>(p: Partition<E, S>, e: ElementId)
  {
    e in p.elements && p.elements[e].marked
  }

  /** Elements x and y lie in the same set. */
  predicate SameSet<E, S>(p: Partition<E, S>, x: ElementId, y: ElementId)
    requires x in p.elements && y in p.elements
  {
    p.elements[x].owner == p.elements[y].owner
  }

  /** The elements are listed once each, each with a record naming an existing set. */
  ghost predicate ElementsWf<E, S>(p: Partition<E, S>)
  {
    Distinct(p.elementSet) &&
    (forall e :: e in p.elements <==> e in p.elementSet) &&
    (forall e :: e in p.elements ==> e < p.nextId && p.elements[e].owner in p.sets)
  }

  /** The sets are listed once each, each with its data. */
  ghost predicate SetsWf<E, S>(p: Partition<E, S>)
  {
    Distinct(p.setSet) &&
    (forall s :: s in p.sets <==> s in p.setSet) &&
    (forall s :: s in p.sets ==> s < p.nextId)
  }

  /** The split-set holds, once each, exactly the sets with a marked element. */
  ghost predicate SplitWf<E, S>(p: Partition<E, S>)
  {
    Distinct(p.splitSet) &&
    (forall s :: s in p.splitSet <==> s in p.sets && MarkedMembers(p, s) != {})
  }

  ghost predicate Wf<E, S>(p: Partition<E, S>)
  {
    ElementsWf(p) && SetsWf(p) && SplitWf(p)
  }

  lemma EmptyWf<E, S>()
    ensures Wf(Empty<E, S>())
    ensures Empty<E, S>().elementSet == [] && Empty<E, S>().setSet == []
  {
  }

  /** Outside the split-set, no element is marked. */
  lemma UnsplitUnmarked<E, S>(p: Partition<E, S>, e: ElementId)
    requires Wf(p) && e in p.elements && p.elements[e].owner !in p.splitSet
    ensures !p.elements[e].marked
  {
    var o := p.elements[e].owner;
    assert o in p.sets;
    assert MarkedMembers(p, o) == {};
    assert e !in MarkedMembers(p, o);
  }

  // ---------------------------------------------------------------
  // Sets and elements.
  // ---------------------------------------------------------------

  /** `addSet(setData)`: an empty set with the given data, at the back of the set-sequence. */
  function AddSetTo<E, S>(p: Partition<E, S>, data: S): (q: Partition<E, S>)
  {
    p.(setSet := p.setSet + [p.nextId], sets := p.sets[p.nextId := data], nextId := p.nextId + 1)
  }

  /** The new set is fresh and empty; no element changes set or mark. */
  lemma AddSetKeeps<E, S>(p: Partition<E, S>, data: S)
    requires Wf(p)
    ensures Wf(AddSetTo(p, data))
    ensures p.nextId !in p.sets && Members(AddSetTo(p, data), p.nextId) == {}
    ensures AddSetTo(p, data).setSet == p.setSet + [p.nextId] && AddSetTo(p, data).sets[p.nextId] == data
    ensures forall t :: t in p.sets ==> Members(AddSetTo(p, data), t) == Members(p, t)
    ensures forall x :: Marked(AddSetTo(p, data), x) == Marked(p, x)
  {
    var q := AddSetTo(p, data);
    assert p.nextId !in p.setSet;
    DistinctAppend(p.setSet, p.nextId);
    forall t ensures t in q.splitSet <==> t in q.sets && MarkedMembers(q, t) != {} {
      assert MarkedMembers(q, t) == MarkedMembers(p, t);
    }
    assert Members(q, p.nextId) == {} by {
      forall e | e in p.elements ensures p.elements[e].owner != p.nextId {
      }
    }
  }

  /** `insertOne(set, elementData)`: a new unmarked element at the back of the element-sequence. */
  function InsertOneInto<E, S>(p: Partition<E, S>, s: SetId, data: E): (q: Partition<E, S>)
    requires s in p.sets
  {
    p.(elementSet := p.elementSet + [p.nextId],
       elements := p.elements[p.nextId := ElementRec(s, false, data)],
       nextId := p.nextId + 1)
  }

  lemma InsertOneWf<E, S>(p: Partition<E, S>, s: SetId, data: E)
    requires Wf(p) && s in p.sets
    ensures Wf(InsertOneInto(p, s, data))
  {
    var q := InsertOneInto(p, s, data);
    assert p.nextId !in p.elementSet;
    DistinctAppend(p.elementSet, p.nextId);
    forall t ensures MarkedMembers(q, t) == MarkedMembers(p, t) {
    }
  }

  /** The new element is fresh, unmarked and a member of s; every other element keeps its set and mark. */
  lemma InsertOneKeeps<E, S>(p: Partition<E, S>, s: SetId, data: E)
    requires Wf(p) && s in p.sets
    ensures Wf(InsertOneInto(p, s, data))
    ensures p.nextId !in p.elements && !Marked(InsertOneInto(p, s, data), p.nextId)
    ensures Members(InsertOneInto(p, s, data), s) == Members(p, s) + {p.nextId}
    ensures forall t :: t != s ==> Members(InsertOneInto(p, s, data), t) == Members(p, t)
    ensures forall x :: x != p.nextId ==> Marked(InsertOneInto(p, s, data), x) == Marked(p, x)
    ensures InsertOneInto(p, s, data).elementSet == p.elementSet + [p.nextId]
    ensures InsertOneInto(p, s, data).setSet == p.setSet
  {
    InsertOneWf(p, s, data);
    InsertOneMembers(p, s, data);
  }

  lemma InsertOneMembers<E, S>(p: Partition<E, S>, s: SetId, data: E)
    requires s in p.sets && forall x :: x in p.elements ==> x < p.nextId
    ensures p.nextId !in p.elements
    ensures Members(InsertOneInto(p, s, data), s) == Members(p, s) + {p.nextId}
    ensures forall t :: t != s ==> Members(InsertOneInto(p, s, data), t) == Members(p, t)
  {
  }

  /** `insert(set, begin, end)`: the data items inserted into s one after the other. */
  function InsertAllInto<E, S>(p: Partition<E, S>, s: SetId, data: seq<E>): (q: Partition<E, S>)
    requires s in p.sets
    ensures q.sets == p.sets && q.setSet == p.setSet && q.splitSet == p.splitSet
    ensures q.nextId == p.nextId + |data|
  {
    if data == [] then p
    else InsertOneInto(InsertAllInto(p, s, data[..|data| - 1]), s, data[|data| - 1])
  }

  lemma {:induction false} InsertAllWf<E, S>(p: Partition<E, S>, s: SetId, data: seq<E>)
    requires Wf(p) && s in p.sets
    ensures Wf(InsertAllInto(p, s, data))
  {
    if data != [] {
      InsertAllWf(p, s, data[..|data| - 1]);
      InsertOneKeeps(InsertAllInto(p, s, data[..|data| - 1]), s, data[|data| - 1]);
    }
  }

  /**
   * Inserting a sequence of data items into s appends one fresh,
   * unmarked element of s per item, in order, and leaves every other
   * element as it was.
   */
  lemma {:induction false} InsertAllKeeps<E, S>(p: Partition<E, S>, s: SetId, data: seq<E>)
    requires s in p.sets && forall x :: x in p.elements ==> x < p.nextId
    ensures |InsertAllInto(p, s, data).elementSet| == |p.elementSet| + |data|
    ensures InsertAllInto(p, s, data).elementSet[..|p.elementSet|] == p.elementSet
    ensures forall i :: |p.elementSet| <= i < |InsertAllInto(p, s, data).elementSet| ==>
      InsertAllInto(p, s, data).elementSet[i] == p.nextId + (i - |p.elementSet|)
    ensures forall j :: 0 <= j < |data| ==>
      p.nextId + j in InsertAllInto(p, s, data).elements &&
      InsertAllInto(p, s, data).elements[p.nextId + j] == ElementRec(s, false, data[j])
    ensures forall x :: x in InsertAllInto(p, s, data).elements <==> x in p.elements || p.nextId <= x < p.nextId + |data|
    ensures forall x :: x in p.elements ==> InsertAllInto(p, s, data).elements[x] == p.elements[x]
  {
    if data != [] {
      var init := data[..|data| - 1];
      InsertAllKeeps(p, s, init);
      var r := InsertAllInto(p, s, init);
      var q := InsertAllInto(p, s, data);
      assert q.elementSet == r.elementSet + [r.nextId];
      assert q.elements == r.elements[r.nextId := ElementRec(s, false, data[|data| - 1])];
      assert q.elementSet[..|p.elementSet|] == r.elementSet[..|p.elementSet|];
      forall i | |p.elementSet| <= i < |q.elementSet|
        ensures q.elementSet[i] == p.nextId + (i - |p.elementSet|)
      {
        if i < |r.elementSet| {
          assert q.elementSet[i] == r.elementSet[i];
        }
      }
      forall j | 0 <= j < |data|
        ensures p.nextId + j in q.elements && q.elements[p.nextId + j] == ElementRec(s, false, data[j])
      {
        if j < |init| {
          assert init[j] == data[j];
        }
      }
    }
  }

  /**
   * `mark(element, markIt)`: nothing happens when the element already has
   * the requested mark; otherwise its mark changes, its set joins the back
   * of the split-set with its first marked element, and leaves the
   * split-set with its last.
   */
  function MarkIn<E, S>(p: Partition<E, S>, e: ElementId, markIt: bool): (q: Partition<E, S>)
    requires e in p.elements
  {
    var s := p.elements[e].owner;
    var q := p.(elements := p.elements[e := p.elements[e].(marked := markIt)]);
    if p.elements[e].marked == markIt then p
    else if markIt then
      (if MarkedMembers(p, s) == {} then q.(splitSet := p.splitSet + [s]) else q)
    else
      (if MarkedMembers(q, s) == {} then q.(splitSet := Remove(p.splitSet, s)) else q)
  }

  /** The split-set stays exact when only the marks of set s change. */
  lemma SplitWfAfterMarks<E, S>(p: Partition<E, S>, q: Partition<E, S>, s: SetId)
    requires SplitWf(p) && q.sets == p.sets
    requires forall t :: t != s ==> MarkedMembers(q, t) == MarkedMembers(p, t)
    requires MarkedMembers(p, s) == {} && MarkedMembers(q, s) != {} && s in p.sets ==> q.splitSet == p.splitSet + [s]
    requires MarkedMembers(p, s) != {} && MarkedMembers(q, s) == {} ==> q.splitSet == Remove(p.splitSet, s)
    requires (MarkedMembers(p, s) == {}) == (MarkedMembers(q, s) == {}) ==> q.splitSet == p.splitSet
    requires MarkedMembers(q, s) != {} ==> s in p.sets
    ensures SplitWf(q)
  {
    if MarkedMembers(p, s) == {} && MarkedMembers(q, s) != {} {
      DistinctAppend(p.splitSet, s);
    } else if MarkedMembers(p, s) != {} && MarkedMembers(q, s) == {} {
      RemoveDistinct(p.splitSet, s);
      forall t ensures t in q.splitSet <==> t in p.splitSet && t != s {
        RemoveMembers(p.splitSet, s, t);
      }
    }
  }

  lemma MarkWf<E, S>(p: Partition<E, S>, e: ElementId, markIt: bool)
    requires Wf(p) && e in p.elements
    ensures Wf(MarkIn(p, e, markIt))
  {
    MarkKeeps(p, e, markIt);
    var q := MarkIn(p, e, markIt);
    var s := p.elements[e].owner;
    if p.elements[e].marked != markIt {
      SplitWfAfterMarks(p, q, s);
    }
  }

  /**
   * After `mark(e, markIt)` the element has the requested mark, every
   * other element keeps its mark, set and data, and only e's set changes
   * its marked members; when the mark was already as requested, nothing
   * changes at all.
   */
  lemma MarkKeeps<E, S>(p: Partition<E, S>, e: ElementId, markIt: bool)
    requires e in p.elements
    ensures Marked(MarkIn(p, e, markIt), e) == markIt
    ensures forall x :: x != e ==> Marked(MarkIn(p, e, markIt), x) == Marked(p, x)
    ensures forall x :: x in MarkIn(p, e, markIt).elements <==> x in p.elements
    ensures forall x :: x in p.elements ==>
      MarkIn(p, e, markIt).elements[x].owner == p.elements[x].owner &&
      MarkIn(p, e, markIt).elements[x].data == p.elements[x].data
    ensures forall t :: Members(MarkIn(p, e, markIt), t) == Members(p, t)
    ensures forall t :: t != p.elements[e].owner ==> MarkedMembers(MarkIn(p, e, markIt), t) == MarkedMembers(p, t)
    ensures MarkedMembers(MarkIn(p, e, markIt), p.elements[e].owner) ==
      if markIt then MarkedMembers(p, p.elements[e].owner) + {e} else MarkedMembers(p, p.elements[e].owner) - {e}
    ensures MarkIn(p, e, markIt).elementSet == p.elementSet && MarkIn(p, e, markIt).setSet == p.setSet
    ensures MarkIn(p, e, markIt).sets == p.sets && MarkIn(p, e, markIt).nextId == p.nextId
    ensures Marked(p, e) == markIt ==> MarkIn(p, e, markIt) == p
  {
    var q := MarkIn(p, e, markIt);
    assert q.elements == if p.elements[e].marked == markIt then p.elements else p.elements[e := p.elements[e].(marked := markIt)];
  }

  /**
   * `erase(element)`: the element is unmarked, then removed from its set
   * and from the element-sequence; its set stays even when it becomes
   * empty.
   */
  function EraseElementFrom<E, S>(p: Partition<E, S>, e: ElementId): (q: Partition<E, S>)
    requires e in p.elements
  {
    var u := MarkIn(p, e, false);
    u.(elementSet := Remove(u.elementSet, e), elements := u.elements - {e})
  }

  /** The element following e in the element-sequence, which `erase(element)` returns. */
  function NextElement<E, S>(p: Partition<E, S>, e: ElementId): (next: Option<ElementId>)
    requires e in p.elementSet
  {
    var i := IndexOf(p.elementSet, e);
    if i + 1 < |p.elementSet| then Some(p.elementSet[i + 1]) else None
  }

  lemma EraseElementWf<E, S>(p: Partition<E, S>, e: ElementId)
    requires Wf(p) && e in p.elements
    ensures Wf(EraseElementFrom(p, e))
  {
    MarkWf(p, e, false);
    MarkKeeps(p, e, false);
    var u := MarkIn(p, e, false);
    EraseElementsWf(u, e);
    var q := EraseElementFrom(p, e);
    forall t ensures MarkedMembers(q, t) == MarkedMembers(u, t) {
    }
  }

  /** Removing an unmarked element's record and list entry keeps the element list exact. */
  lemma EraseElementsWf<E, S>(u: Partition<E, S>, e: ElementId)
    requires ElementsWf(u) && e in u.elements
    ensures ElementsWf(u.(elementSet := Remove(u.elementSet, e), elements := u.elements - {e}))
  {
    RemoveDistinct(u.elementSet, e);
    forall x ensures x in Remove(u.elementSet, e) <==> x in u.elementSet && x != e {
      RemoveMembers(u.elementSet, e, x);
    }
  }

  /** Erasing e takes it out of its set and changes no other element's set or mark. */
  lemma EraseElementEffect<E, S>(p: Partition<E, S>, e: ElementId)
    requires e in p.elements
    ensures e !in EraseElementFrom(p, e).elements
    ensures forall t :: Members(EraseElementFrom(p, e), t) == Members(p, t) - {e}
    ensures forall x :: x != e ==> Marked(EraseElementFrom(p, e), x) == Marked(p, x)
    ensures EraseElementFrom(p, e).setSet == p.setSet && EraseElementFrom(p, e).sets == p.sets
  {
    MarkKeeps(p, e, false);
  }

  /** Erasing e closes the gap in the element-sequence; the element after e is the one returned. */
  lemma EraseElementOrder<E, S>(p: Partition<E, S>, e: ElementId)
    requires e in p.elements && e in p.elementSet && Distinct(p.elementSet)
    ensures var i := IndexOf(p.elementSet, e);
      EraseElementFrom(p, e).elementSet == p.elementSet[..i] + p.elementSet[i + 1..] &&
      (NextElement(p, e).Some? <==> i < |EraseElementFrom(p, e).elementSet|) &&
      (NextElement(p, e).Some? ==> NextElement(p, e).value == EraseElementFrom(p, e).elementSet[i])
  {
    MarkKeeps(p, e, false);
    RemoveAt(p.elementSet, e);
  }

  /**
   * After `erase(e)` the element is gone from its set and from the
   * element-sequence, which keeps its order around the gap (so the
   * returned element is the one that followed e); every other element
   * keeps its set and mark, and no set is removed.
   */
  lemma EraseElementKeeps<E, S>(p: Partition<E, S>, e: ElementId)
    requires Wf(p) && e in p.elements
    ensures Wf(EraseElementFrom(p, e))
    ensures e !in EraseElementFrom(p, e).elements
    ensures forall t :: Members(EraseElementFrom(p, e), t) == Members(p, t) - {e}
    ensures forall x :: x != e ==> Marked(EraseElementFrom(p, e), x) == Marked(p, x)
    ensures EraseElementFrom(p, e).setSet == p.setSet && EraseElementFrom(p, e).sets == p.sets
    ensures var i := IndexOf(p.elementSet, e);
      EraseElementFrom(p, e).elementSet == p.elementSet[..i] + p.elementSet[i + 1..] &&
      (NextElement(p, e).Some? <==> i < |EraseElementFrom(p, e).elementSet|) &&
      (NextElement(p, e).Some? ==> NextElement(p, e).value == EraseElementFrom(p, e).elementSet[i])
  {
    EraseElementWf(p, e);
    EraseElementEffect(p, e);
    EraseElementOrder(p, e);
  }

  /**
   * `erase(set)` as it is meant to be: the set's members leave the
   * element-sequence, the set leaves the set-sequence, and the set also
   * leaves the split-set, which holds exactly the sets with a marked
   * element.
   */
  function EraseSetFrom<E, S>(p: Partition<E, S>, s: SetId): (q: Partition<E, S>)
    requires s in p.sets
  {
    p.(elementSet := Keep(p.elementSet, Members(p, s)),
       elements := map x | x in p.elements && p.elements[x].owner != s :: p.elements[x],
       setSet := Remove(p.setSet, s), sets := p.sets - {s},
       splitSet := Remove(p.splitSet, s))
  }

  /** `erase(set)` as written: the split-set is left as it was. */
  function EraseSetAsWritten<E, S>(p: Partition<E, S>, s: SetId): (q: Partition<E, S>)
    requires s in p.sets
  {
    EraseSetFrom(p, s).(splitSet := p.splitSet)
  }

  /** The set following s in the set-sequence, which `erase(set)` returns. */
  function NextSet<E, S>(p: Partition<E, S>, s: SetId): (next: Option<SetId>)
    requires s in p.setSet
  {
    var i := IndexOf(p.setSet, s);
    if i + 1 < |p.setSet| then Some(p.setSet[i + 1]) else None
  }

  lemma EraseSetWf<E, S>(p: Partition<E, S>, s: SetId)
    requires Wf(p) && s in p.sets
    ensures Wf(EraseSetFrom(p, s))
  {
    var q := EraseSetFrom(p, s);
    KeepDistinct(p.elementSet, Members(p, s));
    forall x ensures x in q.elementSet <==> x in q.elements {
      KeepMembers(p.elementSet, Members(p, s), x);
    }
    RemoveDistinct(p.setSet, s);
    RemoveDistinct(p.splitSet, s);
    forall t ensures (t in q.setSet <==> t in p.setSet && t != s) && (t in q.splitSet <==> t in p.splitSet && t != s) {
      RemoveMembers(p.setSet, s, t);
      RemoveMembers(p.splitSet, s, t);
    }
    forall t | t != s ensures MarkedMembers(q, t) == MarkedMembers(p, t) {
    }
    assert MarkedMembers(q, s) == {};
  }

  /**
   * After `erase(set)` the set and exactly its members are gone, the
   * set-sequence keeps its order around the gap (so the returned set is
   * the one that followed s), and every other set keeps its members and
   * marks.
   */
  lemma EraseSetKeeps<E, S>(p: Partition<E, S>, s: SetId)
    requires Wf(p) && s in p.sets
    ensures Wf(EraseSetFrom(p, s))
    ensures s !in EraseSetFrom(p, s).sets
    ensures forall x :: x in EraseSetFrom(p, s).elements <==> x in p.elements && x !in Members(p, s)
    ensures forall t :: t != s ==> Members(EraseSetFrom(p, s), t) == Members(p, t)
    ensures forall x :: x !in Members(p, s) ==> Marked(EraseSetFrom(p, s), x) == Marked(p, x)
    ensures var i := IndexOf(p.setSet, s);
      EraseSetFrom(p, s).setSet == p.setSet[..i] + p.setSet[i + 1..] &&
      (NextSet(p, s).Some? <==> i < |EraseSetFrom(p, s).setSet|) &&
      (NextSet(p, s).Some? ==> NextSet(p, s).value == EraseSetFrom(p, s).setSet[i])
  {
    EraseSetWf(p, s);
    RemoveAt(p.setSet, s);
  }

  /** The state of the `erase(set)` loop when the members in remaining are still to be erased. */
  function ErasingSet<E, S>(p: Partition<E, S>, s: SetId, remaining: set<ElementId>): (q: Partition<E, S>)
  {
    p.(elementSet := Keep(p.elementSet, Members(p, s) - remaining),
       elements := map x | x in p.elements && (p.elements[x].owner != s || x in remaining) :: p.elements[x])
  }

  lemma {:induction false} KeepNone(xs: seq<nat>)
    ensures Keep(xs, {}) == xs
  {
    if xs != [] {
      KeepNone(xs[1..]);
    }
  }

  /** Before the `erase(set)` loop, nothing has been erased. */
  lemma ErasingSetStart<E, S>(p: Partition<E, S>, s: SetId)
    ensures ErasingSet(p, s, Members(p, s)) == p
  {
    KeepNone(p.elementSet);
    assert Members(p, s) - Members(p, s) == {};
    assert ErasingSet(p, s, Members(p, s)).elements == p.elements;
  }

  /** Erasing one more member x of s takes x out of the element list and the records. */
  lemma ErasingSetStep<E, S>(p: Partition<E, S>, s: SetId, remaining: set<ElementId>, x: ElementId)
    requires remaining <= Members(p, s) && x in remaining
    ensures var q := ErasingSet(p, s, remaining);
      ErasingSet(p, s, remaining - {x}) == q.(elementSet := Remove(q.elementSet, x), elements := q.elements - {x})
  {
    KeepMore(p.elementSet, Members(p, s) - remaining, x);
    assert Members(p, s) - remaining + {x} == Members(p, s) - (remaining - {x});
  }

  /** While members remain, one of them is still a recorded member of s; once none remain, the set's elements are gone. */
  lemma ErasingSetRemaining<E, S>(p: Partition<E, S>, s: SetId, remaining: set<ElementId>)
    requires remaining <= Members(p, s)
    ensures (exists x :: x in ErasingSet(p, s, remaining).elements && ErasingSet(p, s, remaining).elements[x].owner == s) <==> remaining != {}
    ensures remaining == {} && s in p.sets ==>
      EraseSetFrom(p, s) == ErasingSet(p, s, {}).(setSet := Remove(p.setSet, s), sets := p.sets - {s}, splitSet := Remove(p.splitSet, s))
  {
    var q := ErasingSet(p, s, remaining);
    if remaining != {} {
      var x :| x in remaining;
      assert x in q.elements && q.elements[x].owner == s;
    }
    assert Members(p, s) - {} == Members(p, s);
  }

  /**
   * The split-set left by `erase(set)` as written still names the erased
   * set whenever it had a marked element, so the split-set no longer holds
   * only sets of the partition; for a set without marks the two agree.
   */
  lemma EraseSetAsWrittenStale<E, S>(p: Partition<E, S>, s: SetId)
    requires Wf(p) && s in p.sets
    ensures MarkedMembers(p, s) != {} ==> s in EraseSetAsWritten(p, s).splitSet && !SplitWf(EraseSetAsWritten(p, s))
    ensures MarkedMembers(p, s) == {} ==> EraseSetAsWritten(p, s) == EraseSetFrom(p, s)
  {
    if MarkedMembers(p, s) == {} {
      RemoveAbsent(p.splitSet, s);
    }
  }

  // ---------------------------------------------------------------
  // Splitting.
  // ---------------------------------------------------------------

  /** An element's record after its set s is split: members of s lose their mark, and the moved ones go to t. */
  function Settle<E>(r: ElementRec<E>, s: SetId, t: SetId, moveIt: bool): (r': ElementRec<E>)
  {
    if r.owner != s then r
    else ElementRec(if moveIt then t else s, false, r.data)
  }

  /**
   * One pass of `split()` over set s: a set whose members are all marked
   * only loses its marks; otherwise the smaller of its marked and unmarked
   * parts (the marked part on a tie) becomes a new set at the back of the
   * set-sequence, with a copy of s's data, and s keeps the rest.
   */
  function SplitSet<E, S>(p: Partition<E, S>, s: SetId): (q: Partition<E, S>)
    requires s in p.sets
  {
    var t := p.nextId;
    var moved := Moved(p, s);
    var u := p.(elements := map x | x in p.elements :: Settle(p.elements[x], s, t, x in moved));
    if UnmarkedMembers(p, s) == {} then u
    else u.(setSet := p.setSet + [t], sets := p.sets[t := p.sets[s]], nextId := t + 1)
  }

  /** The members of s that a split moves to the new set: none when all are marked, else the smaller part. */
  function Moved<E, S>(p: Partition<E, S>, s: SetId): (moved: set<ElementId>)
  {
    var marked := MarkedMembers(p, s);
    var unmarked := UnmarkedMembers(p, s);
    if unmarked == {} then {} else if |marked| <= |unmarked| then marked else unmarked
  }

  /** One iteration of the `split()` loop: the set at the back of the split-set is popped and split. */
  function SplitStep<E, S>(p: Partition<E, S>): (q: Partition<E, S>)
    requires Wf(p) && p.splitSet != []
  {
    var s := p.splitSet[|p.splitSet| - 1];
    SplitSet(p.(splitSet := p.splitSet[..|p.splitSet| - 1]), s)
  }

  /** The split-set is exact except that s, the set being split, has been popped from it. */
  ghost predicate WfPopped<E, S>(p: Partition<E, S>, s: SetId)
  {
    ElementsWf(p) && SetsWf(p) && s in p.sets && s !in p.splitSet && Distinct(p.splitSet) &&
    (forall t :: t != s ==> (t in p.splitSet <==> t in p.sets && MarkedMembers(p, t) != {}))
  }

  /** The records after a split, element by element. */
  lemma SplitSetRecords<E, S>(p: Partition<E, S>, s: SetId)
    requires s in p.sets
    ensures forall x :: x in SplitSet(p, s).elements <==> x in p.elements
    ensures forall x :: x in p.elements ==>
      SplitSet(p, s).elements[x] == Settle(p.elements[x], s, p.nextId, x in Moved(p, s))
    ensures SplitSet(p, s).splitSet == p.splitSet && SplitSet(p, s).elementSet == p.elementSet
    ensures UnmarkedMembers(p, s) == {} ==> SplitSet(p, s).setSet == p.setSet && SplitSet(p, s).sets == p.sets && Moved(p, s) == {}
    ensures UnmarkedMembers(p, s) != {} ==>
      SplitSet(p, s).setSet == p.setSet + [p.nextId] && SplitSet(p, s).sets == p.sets[p.nextId := p.sets[s]] &&
      SplitSet(p, s).nextId == p.nextId + 1
  {
  }

  lemma SplitSetWf<E, S>(p: Partition<E, S>, s: SetId)
    requires WfPopped(p, s)
    ensures Wf(SplitSet(p, s))
  {
    SplitSetRecords(p, s);
    var q := SplitSet(p, s);
    var t := p.nextId;
    assert t !in p.setSet;
    if UnmarkedMembers(p, s) != {} {
      DistinctAppend(p.setSet, t);
    }
    assert t !in p.splitSet;
    forall u | u != s && u != t ensures MarkedMembers(q, u) == MarkedMembers(p, u) {
    }
    assert MarkedMembers(q, s) == {};
    assert MarkedMembers(q, t) == {};
  }

  /**
   * A split refines the partition: two elements stay together exactly
   * when they were together and, if they were in s, had the same mark.
   */
  lemma SplitSetRefines<E, S>(p: Partition<E, S>, s: SetId)
    requires ElementsWf(p) && SetsWf(p) && s in p.sets
    ensures forall x, y :: x in p.elements && y in p.elements ==>
      (SplitSet(p, s).elements[x].owner == SplitSet(p, s).elements[y].owner <==>
       SameSet(p, x, y) && (p.elements[x].owner != s || p.elements[x].marked == p.elements[y].marked))
  {
    SplitSetRecords(p, s);
    var q := SplitSet(p, s);
    var t := p.nextId;
    forall x, y | x in p.elements && y in p.elements
      ensures q.elements[x].owner == q.elements[y].owner <==>
        SameSet(p, x, y) && (p.elements[x].owner != s || p.elements[x].marked == p.elements[y].marked)
    {
      if p.elements[x].owner == s && p.elements[y].owner == s {
        if UnmarkedMembers(p, s) == {} {
          assert x !in UnmarkedMembers(p, s) && y !in UnmarkedMembers(p, s);
        } else if |MarkedMembers(p, s)| <= |UnmarkedMembers(p, s)| {
          assert x in Moved(p, s) <==> p.elements[x].marked;
          assert y in Moved(p, s) <==> p.elements[y].marked;
        } else {
          assert x in Moved(p, s) <==> !p.elements[x].marked;
          assert y in Moved(p, s) <==> !p.elements[y].marked;
        }
      }
    }
  }

  /**
   * A split unmarks the members of s, leaves every other record as it
   * was, keeps every element's data and the data of every old set, and
   * gives each element a set with the data its set had.
   */
  lemma SplitSetKeepsData<E, S>(p: Partition<E, S>, s: SetId)
    requires ElementsWf(p) && SetsWf(p) && s in p.sets
    ensures forall x :: x in p.elements && p.elements[x].owner == s ==> !SplitSet(p, s).elements[x].marked
    ensures forall x :: x in p.elements && p.elements[x].owner != s ==> SplitSet(p, s).elements[x] == p.elements[x]
    ensures forall x :: x in p.elements ==>
      SplitSet(p, s).elements[x].data == p.elements[x].data &&
      SplitSet(p, s).elements[x].owner in SplitSet(p, s).sets &&
      SplitSet(p, s).sets[SplitSet(p, s).elements[x].owner] == p.sets[p.elements[x].owner]
    ensures forall u :: u in p.sets ==> u in SplitSet(p, s).sets && SplitSet(p, s).sets[u] == p.sets[u]
  {
    SplitSetRecords(p, s);
    assert p.nextId !in p.sets;
  }

  /**
   * When a split creates a set, the new set is no larger than what stays
   * in s, and it is the marked part exactly when that part is not the
   * larger one.
   */
  lemma SplitSetSmaller<E, S>(p: Partition<E, S>, s: SetId)
    requires ElementsWf(p) && SetsWf(p) && s in p.sets && UnmarkedMembers(p, s) != {}
    ensures Members(SplitSet(p, s), p.nextId) == Moved(p, s)
    ensures Members(SplitSet(p, s), s) == Members(p, s) - Moved(p, s)
    ensures |Members(SplitSet(p, s), p.nextId)| <= |Members(SplitSet(p, s), s)|
    ensures Moved(p, s) == if |MarkedMembers(p, s)| <= |UnmarkedMembers(p, s)| then MarkedMembers(p, s) else UnmarkedMembers(p, s)
  {
    SplitSetRecords(p, s);
    var q := SplitSet(p, s);
    var t := p.nextId;
    assert Members(q, t) == Moved(p, s);
    assert Members(q, s) == Members(p, s) - Moved(p, s);
    if |MarkedMembers(p, s)| <= |UnmarkedMembers(p, s)| {
      assert Members(p, s) - Moved(p, s) == UnmarkedMembers(p, s);
    } else {
      assert Members(p, s) - Moved(p, s) == MarkedMembers(p, s);
    }
  }

  /** Popping the back of an exact split-set leaves it exact for every other set. */
  lemma SplitStepPopped<E, S>(p: Partition<E, S>)
    requires Wf(p) && p.splitSet != []
    ensures WfPopped(p.(splitSet := p.splitSet[..|p.splitSet| - 1]), p.splitSet[|p.splitSet| - 1])
  {
    var s := p.splitSet[|p.splitSet| - 1];
    DistinctPrefix(p.splitSet);
    var pp := p.(splitSet := p.splitSet[..|p.splitSet| - 1]);
    forall t | t != s ensures t in pp.splitSet <==> t in p.splitSet {
      assert p.splitSet == pp.splitSet + [s];
    }
  }

  /**
   * How far `split()` has come from the partition orig to cur: the same
   * elements with the same data, each seeing the set data it saw, sets
   * still in the split-set untouched, and two elements together exactly
   * when they were together and either their set is still to be split or
   * they had the same mark.
   */
  ghost predicate SplitProgress<E, S>(orig: Partition<E, S>, cur: Partition<E, S>)
  {
    cur.elementSet == orig.elementSet &&
    (forall x :: x in cur.elements <==> x in orig.elements) &&
    (forall x :: x in orig.elements ==>
      cur.elements[x].data == orig.elements[x].data &&
      cur.elements[x].owner in cur.sets && orig.elements[x].owner in orig.sets &&
      cur.sets[cur.elements[x].owner] == orig.sets[orig.elements[x].owner]) &&
    (forall x :: x in orig.elements && cur.elements[x].owner in cur.splitSet ==> cur.elements[x] == orig.elements[x]) &&
    (forall x, y :: x in orig.elements && y in orig.elements ==>
      (cur.elements[x].owner == cur.elements[y].owner <==>
       SameSet(orig, x, y) && (cur.elements[x].owner in cur.splitSet || orig.elements[x].marked == orig.elements[y].marked))) &&
    |orig.setSet| <= |cur.setSet| && cur.setSet[..|orig.setSet|] == orig.setSet
  }

  lemma SplitProgressStart<E, S>(p: Partition<E, S>)
    requires Wf(p)
    ensures SplitProgress(p, p)
  {
    forall x, y | x in p.elements && y in p.elements && SameSet(p, x, y) && p.elements[x].owner !in p.splitSet
      ensures p.elements[x].marked == p.elements[y].marked
    {
      UnsplitUnmarked(p, x);
      UnsplitUnmarked(p, y);
    }
  }

  /** The pairing part of SplitProgress carries over a split of s, given what the split does element by element. */
  lemma SplitProgressPairs<E, S>(orig: Partition<E, S>, cur: Partition<E, S>, q: Partition<E, S>, s: SetId)
    requires forall x :: x in cur.elements <==> x in orig.elements
    requires forall x :: x in q.elements <==> x in orig.elements
    requires forall x :: x in orig.elements && cur.elements[x].owner in cur.splitSet ==> cur.elements[x] == orig.elements[x]
    requires forall x, y :: x in orig.elements && y in orig.elements ==>
      (cur.elements[x].owner == cur.elements[y].owner <==>
       SameSet(orig, x, y) && (cur.elements[x].owner in cur.splitSet || orig.elements[x].marked == orig.elements[y].marked))
    requires forall x, y :: x in cur.elements && y in cur.elements ==>
      (q.elements[x].owner == q.elements[y].owner <==>
       SameSet(cur, x, y) && (cur.elements[x].owner != s || cur.elements[x].marked == cur.elements[y].marked))
    requires forall x :: x in cur.elements && cur.elements[x].owner != s ==> q.elements[x] == cur.elements[x]
    requires forall x :: x in cur.elements && cur.elements[x].owner == s ==> q.elements[x].owner !in q.splitSet
    requires s in cur.splitSet && forall u :: u in q.splitSet <==> u in cur.splitSet && u != s
    ensures forall x :: x in orig.elements && q.elements[x].owner in q.splitSet ==> q.elements[x] == orig.elements[x]
    ensures forall x, y :: x in orig.elements && y in orig.elements ==>
      (q.elements[x].owner == q.elements[y].owner <==>
       SameSet(orig, x, y) && (q.elements[x].owner in q.splitSet || orig.elements[x].marked == orig.elements[y].marked))
  {
    forall x, y | x in orig.elements && y in orig.elements
      ensures q.elements[x].owner == q.elements[y].owner <==>
        SameSet(orig, x, y) && (q.elements[x].owner in q.splitSet || orig.elements[x].marked == orig.elements[y].marked)
    {
      if cur.elements[x].owner == s {
        assert cur.elements[x] == orig.elements[x];
        assert cur.elements[x].owner == cur.elements[y].owner ==> cur.elements[y] == orig.elements[y];
      } else {
        assert q.elements[x] == cur.elements[x];
      }
    }
  }

  /** One iteration of the `split()` loop keeps the partition well formed and pops the split-set. */
  lemma SplitStepWf<E, S>(cur: Partition<E, S>, s: SetId)
    requires Wf(cur) && cur.splitSet != [] && s == cur.splitSet[|cur.splitSet| - 1]
    ensures Wf(SplitStep(cur))
    ensures s in cur.splitSet && forall u :: u in SplitStep(cur).splitSet <==> u in cur.splitSet && u != s
    ensures |SplitStep(cur).splitSet| == |cur.splitSet| - 1
    ensures forall x :: x in cur.elements && cur.elements[x].owner == s ==> SplitStep(cur).elements[x].owner !in SplitStep(cur).splitSet
  {
    var pp := cur.(splitSet := cur.splitSet[..|cur.splitSet| - 1]);
    SplitStepPopped(cur);
    SplitSetWf(pp, s);
    SplitSetRecords(pp, s);
    assert cur.nextId !in pp.splitSet;
  }

  /** What one iteration of the `split()` loop does, element by element, to the set s at the back of the split-set. */
  lemma SplitStepEffect<E, S>(cur: Partition<E, S>, s: SetId)
    requires Wf(cur) && cur.splitSet != [] && s == cur.splitSet[|cur.splitSet| - 1]
    ensures SplitStep(cur).elementSet == cur.elementSet
    ensures forall x :: x in SplitStep(cur).elements <==> x in cur.elements
    ensures forall x, y :: x in cur.elements && y in cur.elements ==>
      (SplitStep(cur).elements[x].owner == SplitStep(cur).elements[y].owner <==>
       SameSet(cur, x, y) && (cur.elements[x].owner != s || cur.elements[x].marked == cur.elements[y].marked))
    ensures forall x :: x in cur.elements && cur.elements[x].owner != s ==> SplitStep(cur).elements[x] == cur.elements[x]
    ensures forall x :: x in cur.elements ==>
      SplitStep(cur).elements[x].data == cur.elements[x].data &&
      SplitStep(cur).elements[x].owner in SplitStep(cur).sets &&
      SplitStep(cur).sets[SplitStep(cur).elements[x].owner] == cur.sets[cur.elements[x].owner]
    ensures SplitStep(cur).setSet == cur.setSet || SplitStep(cur).setSet == cur.setSet + [cur.nextId]
  {
    var pp := cur.(splitSet := cur.splitSet[..|cur.splitSet| - 1]);
    assert ElementsWf(pp) && SetsWf(pp) && s in pp.sets;
    SplitSetRecords(pp, s);
    SplitSetRefines(pp, s);
    SplitSetKeepsData(pp, s);
  }

  lemma PrefixKept(orig: seq<nat>, cur: seq<nat>, next: seq<nat>, t: nat)
    requires |orig| <= |cur| && cur[..|orig|] == orig
    requires next == cur || next == cur + [t]
    ensures |orig| <= |next| && next[..|orig|] == orig
  {
    assert next[..|cur|] == cur;
    assert next[..|orig|] == cur[..|orig|];
  }

  /** One iteration of the `split()` loop keeps the partition well formed and makes progress. */
  lemma SplitProgressStep<E, S>(orig: Partition<E, S>, cur: Partition<E, S>)
    requires Wf(cur) && cur.splitSet != [] && SplitProgress(orig, cur)
    ensures Wf(SplitStep(cur)) && SplitProgress(orig, SplitStep(cur))
    ensures |SplitStep(cur).splitSet| == |cur.splitSet| - 1
    ensures SplitStep(cur).setSet == cur.setSet || SplitStep(cur).setSet == cur.setSet + [cur.nextId]
  {
    var s := cur.splitSet[|cur.splitSet| - 1];
    SplitStepWf(cur, s);
    SplitStepEffect(cur, s);
    SplitProgressPairs(orig, cur, SplitStep(cur), s);
    PrefixKept(orig.setSet, cur.setSet, SplitStep(cur).setSet, cur.nextId);
  }

  /** `split()`: the loop run until the split-set is empty. */
  function SplitAll<E, S>(p: Partition<E, S>): (q: Partition<E, S>)
    requires Wf(p)
    decreases |p.splitSet|
  {
    if p.splitSet == [] then p
    else
      SplitStepWf(p, p.splitSet[|p.splitSet| - 1]);
      SplitAll(SplitStep(p))
  }

  lemma {:induction false} SplitAllProgress<E, S>(orig: Partition<E, S>, cur: Partition<E, S>)
    requires Wf(cur) && SplitProgress(orig, cur)
    ensures Wf(SplitAll(cur)) && SplitProgress(orig, SplitAll(cur)) && SplitAll(cur).splitSet == []
    decreases |cur.splitSet|
  {
    if cur.splitSet != [] {
      SplitProgressStep(orig, cur);
      SplitAllProgress(orig, SplitStep(cur));
    }
  }

  /**
   * After `split()` the split-set is empty and no element is marked; the
   * elements, their order and their data are as before; two elements
   * share a set exactly when they shared one before and had the same
   * mark; every element sees the data of its old set; and the old sets
   * keep their places at the front of the set-sequence.
   */
  lemma SplitAllKeeps<E, S>(p: Partition<E, S>)
    requires Wf(p)
    ensures Wf(SplitAll(p)) && SplitAll(p).splitSet == []
    ensures SplitAll(p).elementSet == p.elementSet
    ensures forall x :: x in SplitAll(p).elements <==> x in p.elements
    ensures forall x :: x in p.elements ==> !SplitAll(p).elements[x].marked && SplitAll(p).elements[x].data == p.elements[x].data
    ensures forall x, y :: x in p.elements && y in p.elements ==>
      (SplitAll(p).elements[x].owner == SplitAll(p).elements[y].owner <==>
       SameSet(p, x, y) && p.elements[x].marked == p.elements[y].marked)
    ensures forall x :: x in p.elements ==>
      SplitAll(p).elements[x].owner in SplitAll(p).sets &&
      SplitAll(p).sets[SplitAll(p).elements[x].owner] == p.sets[p.elements[x].owner]
    ensures |p.setSet| <= |SplitAll(p).setSet| && SplitAll(p).setSet[..|p.setSet|] == p.setSet
  {
    SplitProgressStart(p);
    SplitAllProgress(p, p);
    SplitDoneUnmarked(SplitAll(p));
  }

  /** When the split-set is empty, no element is marked. */
  lemma SplitDoneUnmarked<E, S>(p: Partition<E, S>)
    requires Wf(p) && p.splitSet == []
    ensures forall x :: x in p.elements ==> !p.elements[x].marked
  {
    forall x | x in p.elements ensures !p.elements[x].marked {
      UnsplitUnmarked(p, x);
    }
  }

  // ---------------------------------------------------------------
  // Copying.
  // ---------------------------------------------------------------

  /** The members of set s, in the order of the element-sequence es. */
  function MemberList<E>(es: seq<ElementId>, els: map<ElementId, ElementRec<E>>, s: SetId): (ms: seq<ElementId>)
    ensures forall e :: e in ms ==> e in els && els[e].owner == s
    decreases |es|
  {
    if es == [] then []
    else
      var e := es[|es| - 1];
      MemberList(es[..|es| - 1], els, s) + (if e in els && els[e].owner == s then [e] else [])
  }

  /** The marks and data of set s's members, in the order of the element-sequence. */
  function Profile<E, S>(p: Partition<E, S>, s: SetId): seq<(bool, E)>
  {
    ProfileOf(p.elementSet, p.elements, s)
  }

  function ProfileOf<E>(es: seq<ElementId>, els: map<ElementId, ElementRec<E>>, s: SetId): seq<(bool, E)>
    decreases |es|
  {
    if es == [] then []
    else
      var e := es[|es| - 1];
      ProfileOf(es[..|es| - 1], els, s) + (if e in els && els[e].owner == s then [(els[e].marked, els[e].data)] else [])
  }

  /** The marks and data of the listed elements of p, in order. */
  function Records<E, S>(p: Partition<E, S>, ms: seq<ElementId>): seq<(bool, E)>
    requires forall e :: e in ms ==> e in p.elements
  {
    if ms == [] then []
    else
      var e := ms[|ms| - 1];
      Records(p, ms[..|ms| - 1]) + [(p.elements[e].marked, p.elements[e].data)]
  }

  /** The profile of a set lists the records of its member list. */
  lemma {:induction false} ProfileIsRecords<E, S>(p: Partition<E, S>, es: seq<ElementId>, s: SetId)
    ensures ProfileOf(es, p.elements, s) == Records(p, MemberList(es, p.elements, s))
    decreases |es|
  {
    if es != [] {
      var e := es[|es| - 1];
      var init := es[..|es| - 1];
      ProfileIsRecords(p, init, s);
      var m := MemberList(init, p.elements, s);
      if e in p.elements && p.elements[e].owner == s {
        assert (m + [e])[..|m + [e]| - 1] == m;
      } else {
        assert MemberList(es, p.elements, s) == m;
      }
    }
  }

  /** A profile depends only on the records of the listed elements. */
  lemma {:induction false} ProfileFrame<E>(es: seq<ElementId>, a: map<ElementId, ElementRec<E>>, b: map<ElementId, ElementRec<E>>, s: SetId)
    requires forall e :: e in es ==> (e in a <==> e in b) && (e in a ==> a[e] == b[e])
    ensures ProfileOf(es, a, s) == ProfileOf(es, b, s)
    decreases |es|
  {
    if es != [] {
      ProfileFrame(es[..|es| - 1], a, b, s);
    }
  }

  /** A set that no element belongs to has an empty profile. */
  lemma {:induction false} ProfileNone<E>(es: seq<ElementId>, els: map<ElementId, ElementRec<E>>, s: SetId)
    requires forall e :: e in els ==> els[e].owner != s
    ensures ProfileOf(es, els, s) == []
    decreases |es|
  {
    if es != [] {
      ProfileNone(es[..|es| - 1], els, s);
    }
  }

  /** Appending an element to the sequence adds its record to its own set's profile only. */
  lemma ProfileAppend<E>(es: seq<ElementId>, els: map<ElementId, ElementRec<E>>, x: ElementId, r: ElementRec<E>, s: SetId)
    requires x !in es
    ensures ProfileOf(es + [x], els[x := r], s) ==
      ProfileOf(es, els, s) + (if r.owner == s then [(r.marked, r.data)] else [])
  {
    assert (es + [x])[..|es + [x]| - 1] == es;
    ProfileFrame(es, els[x := r], els, s);
  }

  /**
   * One member of the copied set: `insertOne(copySet, data)`, then
   * `mark(copyElement)` when the original element is marked.
   */
  function CopyMember<E, S>(q: Partition<E, S>, t: SetId, r: ElementRec<E>): (u: Partition<E, S>)
    requires t in q.sets
    ensures u.sets == q.sets && u.setSet == q.setSet && u.nextId == q.nextId + 1
  {
    var v := InsertOneInto(q, t, r.data);
    if r.marked then MarkIn(v, q.nextId, true) else v
  }

  /** The inner loop of the copy constructor: the members ms copied into t, one after the other. */
  function CopyMembers<E, S>(p: Partition<E, S>, q: Partition<E, S>, t: SetId, ms: seq<ElementId>): (r: Partition<E, S>)
    requires t in q.sets && forall e :: e in ms ==> e in p.elements
    ensures r.sets == q.sets && r.setSet == q.setSet && r.nextId == q.nextId + |ms|
  {
    if ms == [] then q
    else CopyMember(CopyMembers(p, q, t, ms[..|ms| - 1]), t, p.elements[ms[|ms| - 1]])
  }

  /** Every listed set has its data. */
  predicate SetsListed<E, S>(p: Partition<E, S>)
  {
    forall j :: 0 <= j < |p.setSet| ==> p.setSet[j] in p.sets
  }

  /** The outer loop of the copy constructor: the first k sets of p added and filled, in order. */
  function CopySets<E, S>(p: Partition<E, S>, k: nat): (q: Partition<E, S>)
    requires k <= |p.setSet| && SetsListed(p)
    ensures |q.setSet| == k
  {
    if k == 0 then Empty()
    else
      var q := CopySets(p, k - 1);
      var s := p.setSet[k - 1];
      CopyMembers(p, AddSetTo(q, p.sets[s]), q.nextId, MemberList(p.elementSet, p.elements, s))
  }

  /** The partition the copy constructor builds from p. */
  function CopyOf<E, S>(p: Partition<E, S>): Partition<E, S>
    requires SetsListed(p)
  {
    CopySets(p, |p.setSet|)
  }

  /** Copying one member appends one element, with the member's mark and data, to the element-sequence. */
  lemma CopyMemberShape<E, S>(q: Partition<E, S>, t: SetId, r: ElementRec<E>)
    requires t in q.sets
    ensures CopyMember(q, t, r).elementSet == q.elementSet + [q.nextId]
    ensures CopyMember(q, t, r).elements == q.elements[q.nextId := ElementRec(t, r.marked, r.data)]
  {
  }

  /** Copying one member keeps the partition well formed. */
  lemma CopyMemberWf<E, S>(q: Partition<E, S>, t: SetId, r: ElementRec<E>)
    requires Wf(q) && t in q.sets
    ensures Wf(CopyMember(q, t, r))
  {
    InsertOneKeeps(q, t, r.data);
    if r.marked {
      MarkWf(InsertOneInto(q, t, r.data), q.nextId, true);
    }
  }

  /** Copying one member appends its mark and data to t's profile and leaves every other profile alone. */
  lemma CopyMemberKeeps<E, S>(q: Partition<E, S>, t: SetId, r: ElementRec<E>)
    requires Wf(q) && t in q.sets
    ensures Wf(CopyMember(q, t, r))
    ensures Profile(CopyMember(q, t, r), t) == Profile(q, t) + [(r.marked, r.data)]
    ensures forall u :: u != t ==> Profile(CopyMember(q, t, r), u) == Profile(q, u)
  {
    CopyMemberWf(q, t, r);
    assert q.nextId !in q.elementSet;
    CopyMemberProfiles(q, t, r);
  }

  lemma CopyMemberProfiles<E, S>(q: Partition<E, S>, t: SetId, r: ElementRec<E>)
    requires t in q.sets && q.nextId !in q.elementSet
    ensures Profile(CopyMember(q, t, r), t) == Profile(q, t) + [(r.marked, r.data)]
    ensures forall u :: u != t ==> Profile(CopyMember(q, t, r), u) == Profile(q, u)
  {
    CopyMemberShape(q, t, r);
    forall u ensures Profile(CopyMember(q, t, r), u) == Profile(q, u) + (if u == t then [(r.marked, r.data)] else []) {
      ProfileAppend(q.elementSet, q.elements, q.nextId, ElementRec(t, r.marked, r.data), u);
    }
  }

  /** The inner loop copies the listed members, in order, into t's profile. */
  lemma {:induction false} CopyMembersKeeps<E, S>(p: Partition<E, S>, q: Partition<E, S>, t: SetId, ms: seq<ElementId>)
    requires Wf(q) && t in q.sets && forall e :: e in ms ==> e in p.elements
    ensures Wf(CopyMembers(p, q, t, ms))
    ensures Profile(CopyMembers(p, q, t, ms), t) == Profile(q, t) + Records(p, ms)
    ensures forall u :: u != t ==> Profile(CopyMembers(p, q, t, ms), u) == Profile(q, u)
  {
    if ms != [] {
      var init := ms[..|ms| - 1];
      CopyMembersKeeps(p, q, t, init);
      CopyMemberKeeps(CopyMembers(p, q, t, init), t, p.elements[ms[|ms| - 1]]);
    }
  }

  /** The first k sets of q carry the data of the first k sets of p, in
      the same order, each with the marks and data of the original's
      members in the original's element order. */
  ghost predicate CopiedPrefix<E, S>(p: Partition<E, S>, q: Partition<E, S>, k: nat)
  {
    k <= |p.setSet| && |q.setSet| == k &&
    forall j :: 0 <= j < k ==>
      p.setSet[j] in p.sets && q.setSet[j] in q.sets &&
      q.sets[q.setSet[j]] == p.sets[p.setSet[j]] && Profile(q, q.setSet[j]) == Profile(p, p.setSet[j])
  }

  /** One round of the outer loop extends the copied prefix by set k. */
  lemma CopySetStep<E, S>(p: Partition<E, S>, q: Partition<E, S>, k: nat)
    requires SetsListed(p) && Wf(q) && k < |p.setSet| && CopiedPrefix(p, q, k)
    ensures var s := p.setSet[k];
      Wf(CopyMembers(p, AddSetTo(q, p.sets[s]), q.nextId, MemberList(p.elementSet, p.elements, s))) &&
      CopiedPrefix(p, CopyMembers(p, AddSetTo(q, p.sets[s]), q.nextId, MemberList(p.elementSet, p.elements, s)), k + 1)
  {
    var s := p.setSet[k];
    var t := q.nextId;
    AddSetKeeps(q, p.sets[s]);
    var a := AddSetTo(q, p.sets[s]);
    ProfileNone(a.elementSet, a.elements, t);
    var ms := MemberList(p.elementSet, p.elements, s);
    CopyMembersKeeps(p, a, t, ms);
    ProfileIsRecords(p, p.elementSet, s);
    var r := CopyMembers(p, a, t, ms);
    assert forall j :: 0 <= j < k ==> q.setSet[j] != t by {
      forall j | 0 <= j < k ensures q.setSet[j] != t {
        assert q.setSet[j] in q.sets;
      }
    }
    CopySetPrefix(p, q, k, r);
  }

  /** The prefix part of one round: the new set comes last with set k's
      data and profile, and the earlier sets are left alone. */
  lemma CopySetPrefix<E, S>(p: Partition<E, S>, q: Partition<E, S>, k: nat, r: Partition<E, S>)
    requires SetsListed(p) && k < |p.setSet| && CopiedPrefix(p, q, k)
    requires forall j :: 0 <= j < k ==> q.setSet[j] != q.nextId
    requires r.setSet == q.setSet + [q.nextId] && r.sets == q.sets[q.nextId := p.sets[p.setSet[k]]]
    requires Profile(r, q.nextId) == Profile(p, p.setSet[k])
    requires forall u :: u != q.nextId ==> Profile(r, u) == Profile(q, u)
    ensures CopiedPrefix(p, r, k + 1)
  {
    forall j | 0 <= j < k + 1
      ensures p.setSet[j] in p.sets && r.setSet[j] in r.sets
      ensures r.sets[r.setSet[j]] == p.sets[p.setSet[j]] && Profile(r, r.setSet[j]) == Profile(p, p.setSet[j])
    {
      if j < k {
        assert r.setSet[j] == q.setSet[j];
      }
    }
  }

  /** After k rounds of the outer loop the copy is well formed and holds the copied prefix of k sets. */
  lemma {:induction false} CopySetsKeeps<E, S>(p: Partition<E, S>, k: nat)
    requires SetsListed(p) && k <= |p.setSet|
    ensures Wf(CopySets(p, k)) && CopiedPrefix(p, CopySets(p, k), k)
  {
    if k == 0 {
      EmptyWf<E, S>();
    } else {
      CopySetsKeeps(p, k - 1);
      CopySetStep(p, CopySets(p, k - 1), k - 1);
    }
  }

  /**
   * The copy constructor's result: well formed, with the same number of
   * sets in the same order, each with its data and with its members'
   * marks and data in the original element order.
   */
  lemma CopyOfKeeps<E, S>(p: Partition<E, S>)
    requires Wf(p)
    ensures Wf(CopyOf(p)) && |CopyOf(p).setSet| == |p.setSet|
    ensures forall j :: 0 <= j < |p.setSet| ==>
      CopyOf(p).sets[CopyOf(p).setSet[j]] == p.sets[p.setSet[j]] &&
      Profile(CopyOf(p), CopyOf(p).setSet[j]) == Profile(p, p.setSet[j])
  {
    assert SetsListed(p);
    CopySetsKeeps(p, |p.setSet|);
  }


  // ---------------------------------------------------------------
  // The partition object.
  // ---------------------------------------------------------------

  /**
   * `RefinablePartition`: the element-, set- and split-sequences and the
   * records, updated in place by the operations; each operation is
   * specified by the function on Partition values that it realises.
   */
  class RefinablePartition<E, S> {
    var elementSet: seq<ElementId>
    var elements: map<ElementId, ElementRec<E>>
    var setSet: seq<SetId>
    var sets: map<SetId, S>
    var splitSet: seq<SetId>
    var nextId: nat

    function State(): Partition<E, S>
      reads this
    {
      Partition(elementSet, elements, setSet, sets, splitSet, nextId)
    }

    ghost predicate Valid()
      reads this
    {
      Wf(State())
    }

    /** The default constructor: no elements and no sets. */
    constructor ()
      ensures Valid() && State() == Empty()
    {
      elementSet, elements, setSet, sets, splitSet, nextId := [], map[], [], map[], [], 0;
    }

    /**
     * The copy constructor: rebuilds the partition set by set, inserting
     * each member into the copied set and marking it when the original
     * is marked.
     */
    constructor Copy(that: RefinablePartition<E, S>)
      requires that.Valid()
      ensures Valid() && State() == CopyOf(that.State())
    {
      elementSet, elements, setSet, sets, splitSet, nextId := [], map[], [], map[], [], 0;
      new;
      ghost var p := that.State();
      EmptyWf<E, S>();
      for k := 0 to |that.setSet|
        invariant Valid() && State() == CopySets(p, k) && that.State() == p
      {
        var s := that.setSet[k];
        var t := AddSet(that.sets[s]);
        CopyMembersFrom(that, t, MemberList(that.elementSet, that.elements, s));
      }
    }

    /** The inner loop of the copy constructor: each listed member of `that` inserted into t and marked like the original. */
    method CopyMembersFrom(that: RefinablePartition<E, S>, t: SetId, ms: seq<ElementId>)
      requires Valid() && t in sets && that != this && forall e :: e in ms ==> e in that.elements
      modifies this
      ensures Valid() && State() == CopyMembers(that.State(), old(State()), t, ms)
    {
      ghost var a := State();
      for i := 0 to |ms|
        invariant Valid() && State() == CopyMembers(that.State(), a, t, ms[..i])
      {
        var e := InsertOne(t, that.elements[ms[i]].data);
        if that.elements[ms[i]].marked {
          Mark(e, true);
        }
        assert ms[..i + 1][..i] == ms[..i];
      }
      assert ms[..|ms|] == ms;
    }

    /** `clear()`: removes all elements and sets. */
    method Clear()
      modifies this
      ensures Valid() && elementSet == [] && elements == map[] && setSet == [] && sets == map[] && splitSet == []
    {
      elementSet, elements, setSet, sets, splitSet := [], map[], [], map[], [];
    }

    /** Replaces the whole state at once. */
    method Become(q: Partition<E, S>)
      modifies this
      ensures State() == q
    {
      elementSet, elements, setSet, sets, splitSet, nextId :=
        q.elementSet, q.elements, q.setSet, q.sets, q.splitSet, q.nextId;
    }

    /** `addSet(setData)`: returns the new, empty set. */
    method AddSet(data: S) returns (s: SetId)
      requires Valid()
      modifies this
      ensures Valid() && State() == AddSetTo(old(State()), data) && s == old(nextId)
    {
      AddSetKeeps(State(), data);
      s := nextId;
      Become(AddSetTo(State(), data));
    }

    /** `insertOne(set, elementData)`: returns the new element. */
    method InsertOne(s: SetId, data: E) returns (e: ElementId)
      requires Valid() && s in sets
      modifies this
      ensures Valid() && State() == InsertOneInto(old(State()), s, data) && e == old(nextId)
    {
      InsertOneKeeps(State(), s, data);
      e := nextId;
      Become(InsertOneInto(State(), s, data));
    }

    /** `insert(set, begin, end)`: one new element of s per data item, in order. */
    method Insert(s: SetId, data: seq<E>)
      requires Valid() && s in sets
      modifies this
      ensures Valid() && State() == InsertAllInto(old(State()), s, data)
    {
      ghost var p0 := State();
      for k := 0 to |data|
        invariant State() == InsertAllInto(p0, s, data[..k])
      {
        InsertAllWf(p0, s, data[..k]);
        var _ := InsertOne(s, data[k]);
        assert data[..k + 1][..k] == data[..k];
      }
      assert data[..|data|] == data;
      InsertAllWf(p0, s, data);
    }

    /** `mark(element, markIt)`. */
    method Mark(e: ElementId, markIt: bool)
      requires Valid() && e in elements
      modifies this
      ensures Valid() && State() == MarkIn(old(State()), e, markIt)
    {
      MarkWf(State(), e, markIt);
      Become(MarkIn(State(), e, markIt));
    }

    /** `erase(element)`: returns the element that followed it. */
    method EraseElement(e: ElementId) returns (next: Option<ElementId>)
      requires Valid() && e in elements
      modifies this
      ensures Valid() && State() == EraseElementFrom(old(State()), e) && next == NextElement(old(State()), e)
    {
      EraseElementWf(State(), e);
      next := NextElement(State(), e);
      Become(EraseElementFrom(State(), e));
    }
  
    /**
     * `erase(set)`: erases the members one by one, then the set; returns
     * the set that followed it. The set also leaves the split-set, which
     * `erase(set)` as written does not do (see EraseSetAsWrittenStale).
     */
    method EraseSet(s: SetId) returns (next: Option<SetId>)
      requires Valid() && s in sets
      modifies this
      ensures Valid() && State() == EraseSetFrom(old(State()), s) && next == NextSet(old(State()), s)
    {
      ghost var p0 := State();
      EraseSetWf(p0, s);
      next := NextSet(State(), s);
      EraseMembers(s);
      ErasingSetRemaining(p0, s, {});
      setSet := Remove(setSet, s);
      sets := sets - {s};
      splitSet := Remove(splitSet, s);
      assert State() == EraseSetFrom(p0, s);
    }

    /** The loop of `erase(set)`: erases the members of s one at a time, in no particular order. */
    method EraseMembers(s: SetId)
      modifies this
      ensures State() == ErasingSet(old(State()), s, {})
    {
      ghost var p0 := State();
      ghost var remaining := Members(p0, s);
      ErasingSetStart(p0, s);
      ErasingSetRemaining(p0, s, remaining);
      while exists x :: x in elements && elements[x].owner == s
        invariant remaining <= Members(p0, s)
        invariant State() == ErasingSet(p0, s, remaining)
        decreases |remaining|
      {
        var x :| x in elements && elements[x].owner == s;
        ErasingSetRemaining(p0, s, remaining);
        ErasingSetStep(p0, s, remaining, x);
        elementSet := Remove(elementSet, x);
        elements := elements - {x};
        remaining := remaining - {x};
      }
      ErasingSetRemaining(p0, s, remaining);
    }

    /**
     * `split()`: splits every set in the split-set, from the back, and
     * returns the first set it created, if any.
     */
    method Split() returns (first: Option<SetId>)
      requires Valid()
      modifies this
      ensures Valid() && State() == SplitAll(old(State()))
      ensures first.Some? <==> |setSet| > |old(setSet)|
      ensures first.Some? ==> first.value == setSet[|old(setSet)|]
    {
      ghost var orig := State();
      first := None;
      while splitSet != []
        invariant Valid() && SplitAll(State()) == SplitAll(orig)
        invariant |orig.setSet| <= |setSet| && setSet[..|orig.setSet|] == orig.setSet
        invariant first.Some? <==> |setSet| > |orig.setSet|
        invariant first.Some? ==> first.value == setSet[|orig.setSet|]
        decreases |splitSet|
      {
        ghost var cur := State();
        var s := splitSet[|splitSet| - 1];
        SplitStepWf(cur, s);
        SplitSetRecords(cur.(splitSet := cur.splitSet[..|cur.splitSet| - 1]), s);
        PrefixKept(orig.setSet, cur.setSet, SplitStep(cur).setSet, cur.nextId);
        var t := nextId;
        splitSet := splitSet[..|splitSet| - 1];
        var grows := UnmarkedMembers(State(), s) != {};
        Become(SplitSet(State(), s));
        if grows && first == None {
          first := Some(t);
        }
      }
    }
  }
}
