/**
 * Pastel's doubly linked list FastList (pastel/sys/fastlist.hpp, with the
 * contracts documented in pastel/sys/fastlist.h).
 *
 * The list is the sequence of its elements; an iterator is a position in
 * it, and end() is the position |elements|.  Orderings compare elements by
 * an integer key: `compare(a, b)` is `key(a) < key(b)`, which makes every
 * comparison a strict weak order as the C++ library requires.
 */
module FastLists {

  /** The elements are in non-decreasing key order: no element is less than the one before it. */
  ghost predicate Sorted<T>(s: seq<T>, key: T -> int) {
    forall i :: 0 < i < |s| ==> key(s[i - 1]) <= key(s[i])
  }

  /** In a sorted list every element is at most every later one. */
  lemma {:induction false} SortedOrdered<T>(s: seq<T>, key: T -> int)
    requires Sorted(s, key)
    ensures forall i, j :: 0 <= i < j < |s| ==> key(s[i]) <= key(s[j])
  {
    if s != [] {
      SortedTail(s, key);
      SortedOrdered(s[1..], key);
      forall i, j | 0 <= i < j < |s|
        ensures key(s[i]) <= key(s[j])
      {
        if 0 < i {
          assert s[i] == s[1..][i - 1] && s[j] == s[1..][j - 1];
        } else if 1 < j {
          assert s[1] == s[1..][0] && s[j] == s[1..][j - 1];
        }
      }
    }
  }

  lemma SortedCons<T>(x: T, s: seq<T>, key: T -> int)
    requires Sorted(s, key) && (s != [] ==> key(x) <= key(s[0]))
    ensures Sorted([x] + s, key)
  {
    var r := [x] + s;
    forall i | 0 < i < |r|
      ensures key(r[i - 1]) <= key(r[i])
    {
      if i > 1 {
        assert r[i - 1] == s[i - 2] && r[i] == s[i - 1];
      }
    }
  }

  /** The elements of s whose key is k, in their order in s. */
  function WithKey<T>(s: seq<T>, key: T -> int, k: int): (r: seq<T>)
    ensures |r| <= |s|
  {
    if s == [] then []
    else (if key(s[0]) == k then [s[0]] else []) + WithKey(s[1..], key, k)
  }

  /** r is s stably sorted: r is sorted and equal keys keep their order from s. */
  ghost predicate StablySorted<T>(r: seq<T>, s: seq<T>, key: T -> int) {
    Sorted(r, key) && forall k :: WithKey(r, key, k) == WithKey(s, key, k)
  }

  lemma {:induction false} WithKeyAppend<T>(s: seq<T>, t: seq<T>, key: T -> int, k: int)
    ensures WithKey(s + t, key, k) == WithKey(s, key, k) + WithKey(t, key, k)
  {
    if s == [] {
      assert s + t == t;
    } else {
      var u := s + t;
      assert u != [] && u[0] == s[0] && u[1..] == s[1..] + t;
      WithKeyAppend(s[1..], t, key, k);
      var h := if key(s[0]) == k then [s[0]] else [];
      assert WithKey(u, key, k) == h + WithKey(u[1..], key, k);
      assert WithKey(s, key, k) == h + WithKey(s[1..], key, k);
      Assoc(h, WithKey(s[1..], key, k), WithKey(t, key, k));
    }
  }

  /** How often x occurs in s is how often it occurs among the elements with its key. */
  lemma {:induction false} WithKeyCount<T>(s: seq<T>, key: T -> int, x: T)
    ensures multiset(WithKey(s, key, key(x)))[x] == multiset(s)[x]
  {
    if s != [] {
      WithKeyCount(s[1..], key, x);
      assert s == [s[0]] + s[1..];
    }
  }

  /** A stable sort is a permutation. */
  lemma StablySortedPermutes<T>(r: seq<T>, s: seq<T>, key: T -> int)
    requires StablySorted(r, s, key)
    ensures multiset(r) == multiset(s)
  {
    forall x
      ensures multiset(r)[x] == multiset(s)[x]
    {
      WithKeyCount(r, key, x);
      WithKeyCount(s, key, x);
    }
  }

  /**
   * merge(): the reference merge.  An element of `b` goes first only when
   * its key is less than the head of `a`, so on equal keys `a` comes first.
   */
  function Merged<T>(a: seq<T>, b: seq<T>, key: T -> int): (r: seq<T>)
    ensures |r| == |a| + |b|
    decreases |a| + |b|
  {
    if a == [] then b
    else if b == [] then a
    else if key(b[0]) < key(a[0]) then [b[0]] + Merged(a, b[1..], key)
    else [a[0]] + Merged(a[1..], b, key)
  }

  lemma {:induction false} MergedHead<T>(a: seq<T>, b: seq<T>, key: T -> int)
    requires Merged(a, b, key) != []
    ensures (a != [] && Merged(a, b, key)[0] == a[0]) || (b != [] && Merged(a, b, key)[0] == b[0])
  {
  }

  /** Merging two sorted lists gives a sorted list. */
  lemma {:induction false} MergedSorted<T>(a: seq<T>, b: seq<T>, key: T -> int)
    requires Sorted(a, key) && Sorted(b, key)
    ensures Sorted(Merged(a, b, key), key)
    decreases |a| + |b|
  {
    if a != [] && b != [] {
      if key(b[0]) < key(a[0]) {
        SortedTail(b, key);
        MergedSorted(a, b[1..], key);
        var rest := Merged(a, b[1..], key);
        if rest != [] {
          MergedHead(a, b[1..], key);
          if |b| > 1 {
            assert b[1..][0] == b[1];
          }
        }
        SortedCons(b[0], rest, key);
      } else {
        SortedTail(a, key);
        MergedSorted(a[1..], b, key);
        var rest := Merged(a[1..], b, key);
        if rest != [] {
          MergedHead(a[1..], b, key);
          if |a| > 1 {
            assert a[1..][0] == a[1];
          }
        }
        SortedCons(a[0], rest, key);
      }
    }
  }

  /** Merging keeps each list's order, and the elements of `a` before the equal ones of `b`. */
  lemma {:induction false} MergedStable<T>(a: seq<T>, b: seq<T>, key: T -> int, k: int)
    requires Sorted(a, key)
    ensures WithKey(Merged(a, b, key), key, k) == WithKey(a, key, k) + WithKey(b, key, k)
    decreases |a| + |b|
  {
    if a == [] {
    } else if b == [] {
    } else if key(b[0]) < key(a[0]) {
      var m := Merged(a, b[1..], key);
      MergedStable(a, b[1..], key, k);
      assert Merged(a, b, key) == [b[0]] + m;
      WithKeyAppend([b[0]], m, key, k);
      assert b == [b[0]] + b[1..];
      WithKeyAppend([b[0]], b[1..], key, k);
      var h := WithKey([b[0]], key, k);
      if h != [] {
        // a is sorted and starts above k, so it holds no element with key k.
        WithKeyAbove(a, key, k);
      }
    } else {
      var m := Merged(a[1..], b, key);
      SortedTail(a, key);
      MergedStable(a[1..], b, key, k);
      assert Merged(a, b, key) == [a[0]] + m;
      WithKeyAppend([a[0]], m, key, k);
      assert a == [a[0]] + a[1..];
      WithKeyAppend([a[0]], a[1..], key, k);
    }
  }

  lemma SortedTail<T>(a: seq<T>, key: T -> int)
    requires Sorted(a, key) && a != []
    ensures Sorted(a[1..], key)
  {
    forall i | 0 < i < |a| - 1
      ensures key(a[1..][i - 1]) <= key(a[1..][i])
    {
      assert a[1..][i - 1] == a[i] && a[1..][i] == a[i + 1];
    }
  }

  /** A sorted list whose head is above k holds no element with key k. */
  lemma {:induction false} WithKeyAbove<T>(a: seq<T>, key: T -> int, k: int)
    requires Sorted(a, key) && a != [] && k < key(a[0])
    ensures WithKey(a, key, k) == []
  {
    if |a| > 1 {
      assert key(a[0]) <= key(a[1]);
      SortedTail(a, key);
      WithKeyAbove(a[1..], key, k);
    }
  }

  /** Merging two stable sorts of consecutive stretches stably sorts the whole stretch. */
  lemma MergedStablySorted<T>(a: seq<T>, sa: seq<T>, b: seq<T>, sb: seq<T>, key: T -> int)
    requires StablySorted(a, sa, key) && StablySorted(b, sb, key)
    ensures StablySorted(Merged(a, b, key), sa + sb, key)
  {
    MergedSorted(a, b, key);
    forall k
      ensures WithKey(Merged(a, b, key), key, k) == WithKey(sa + sb, key, k)
    {
      MergedStable(a, b, key, k);
      WithKeyAppend(sa, sb, key, k);
    }
  }

  /** One step of merge(): the head of this list is not greater, so it stays. */
  lemma MergeStepThis<T>(s: seq<T>, rest: seq<T>, c: nat, key: T -> int)
    requires c < |s| && rest != [] && !(key(rest[0]) < key(s[c]))
    ensures s[..c] + Merged(s[c..], rest, key) == s[..c + 1] + Merged(s[c + 1..], rest, key)
  {
    var t := s[c..];
    assert t != [] && t[0] == s[c] && t[1..] == s[c + 1..];
    var m := Merged(s[c + 1..], rest, key);
    assert Merged(t, rest, key) == [s[c]] + m;
    Assoc(s[..c], [s[c]], m);
    assert s[..c + 1] == s[..c] + [s[c]];
  }

  lemma Assoc<T>(a: seq<T>, b: seq<T>, c: seq<T>)
    ensures a + (b + c) == (a + b) + c
  {
  }

  /** One step of merge(): the head of `that` is less, so it is spliced in before position c. */
  lemma MergeStepThat<T>(s: seq<T>, rest: seq<T>, c: nat, key: T -> int)
    requires c < |s| && rest != [] && key(rest[0]) < key(s[c])
    ensures var t := s[..c] + rest[0..1] + s[c..];
      s[..c] + Merged(s[c..], rest, key) == t[..c + 1] + Merged(t[c + 1..], rest[..0] + rest[1..], key)
  {
    var t := s[..c] + rest[0..1] + s[c..];
    assert rest[0..1] == [rest[0]] && rest[..0] + rest[1..] == rest[1..];
    assert s[c..] != [] && s[c..][0] == s[c];
    var m := Merged(s[c..], rest[1..], key);
    assert Merged(s[c..], rest, key) == [rest[0]] + m;
    Assoc(s[..c], [rest[0]], m);
    assert t[..c + 1] == s[..c] + [rest[0]];
    assert t[c + 1..] == s[c..];
  }

  /** The end of merge(): one list is used up, and the rest of `that` is appended. */
  lemma MergeTail<T>(s: seq<T>, rest: seq<T>, c: nat, key: T -> int)
    requires c <= |s| && (rest == [] || c == |s|)
    ensures s[..c] + Merged(s[c..], rest, key) == s + rest
  {
    if c == |s| {
      MergeTailThat(s, rest, key);
    } else {
      MergeTailThis(s, c, key);
    }
  }

  lemma MergeTailThat<T>(s: seq<T>, rest: seq<T>, key: T -> int)
    ensures s[..|s|] + Merged(s[|s|..], rest, key) == s + rest
  {
    assert s[|s|..] == [] && s[..|s|] == s;
  }

  lemma MergeTailThis<T>(s: seq<T>, c: nat, key: T -> int)
    requires c <= |s|
    ensures s[..c] + Merged(s[c..], [], key) == s + []
  {
    assert s[..c] + s[c..] == s + [];
  }

  /** splice(end(), that, that.begin(), that.end()) appends `that`. */
  lemma SpliceAtEnd<T>(a: seq<T>, b: seq<T>)
    ensures a[..|a|] + b[0..|b|] + a[|a|..] == a + b
  {
    assert a[..|a|] == a && b[0..|b|] == b && a[|a|..] == [];
  }

  /** One step of remove_if(): the element at `current` is the next one of the original list. */
  lemma RemoveIfStep<T>(original: seq<T>, done: nat, p: T -> bool, s: seq<T>, current: nat)
    requires done < |original| && s == Kept(original[..done], p) + original[done..]
    requires current == |Kept(original[..done], p)|
    ensures current < |s| && s[current] == original[done]
    ensures p(s[current]) ==> s[..current] + s[current + 1..] == Kept(original[..done + 1], p) + original[done + 1..]
    ensures p(s[current]) ==> current == |Kept(original[..done + 1], p)|
    ensures !p(s[current]) ==> s == Kept(original[..done + 1], p) + original[done + 1..]
    ensures !p(s[current]) ==> current + 1 == |Kept(original[..done + 1], p)|
  {
    var k := Kept(original[..done], p);
    var x := original[done];
    Advance(original, done);
    assert Kept(original[..done + 1], p) == k + (if p(x) then [] else [x]);
    PickOut(k, x, original[done + 1..]);
  }

  /** One step of unique(): the element at `next` is compared with the last one retained. */
  lemma UniqueStep<T>(original: seq<T>, done: nat, equal: (T, T) -> bool, s: seq<T>, next: nat)
    requires 1 <= done < |original| && s == Uniqued(original[..done], equal) + original[done..]
    requires next == |Uniqued(original[..done], equal)|
    ensures 0 < next < |s| && s[next] == original[done]
    ensures equal(s[next], s[next - 1]) ==> s[..next] + s[next + 1..] == Uniqued(original[..done + 1], equal) + original[done + 1..]
    ensures equal(s[next], s[next - 1]) ==> next == |Uniqued(original[..done + 1], equal)|
    ensures !equal(s[next], s[next - 1]) ==> s == Uniqued(original[..done + 1], equal) + original[done + 1..]
    ensures !equal(s[next], s[next - 1]) ==> next + 1 == |Uniqued(original[..done + 1], equal)|
  {
    var u := Uniqued(original[..done], equal);
    var x := original[done];
    Advance(original, done);
    PickOut(u, x, original[done + 1..]);
    assert Uniqued(original[..done + 1], equal) == if equal(x, u[|u| - 1]) then u else u + [x];
  }

  /** Moving one element from the rest of a list to the part already done. */
  lemma Advance<T>(s: seq<T>, i: nat)
    requires i < |s|
    ensures s[..i + 1][..i] == s[..i] && s[..i + 1][i] == s[i] && |s[..i + 1]| == i + 1
    ensures s[i..] == [s[i]] + s[i + 1..]
  {
  }

  /** The element between k and rest, and the list without it. */
  lemma PickOut<T>(k: seq<T>, x: T, rest: seq<T>)
    ensures var s := k + [x] + rest;
      s == k + ([x] + rest) && s[|k|] == x && s[..|k|] + s[|k| + 1..] == k + rest
      && s == (k + [x]) + rest
  {
    var s := k + [x] + rest;
    assert s[..|k|] == k && s[|k| + 1..] == rest;
  }

  /** remove_if(): the elements that fail the predicate, in order. */
  function Kept<T>(s: seq<T>, p: T -> bool): (r: seq<T>)
    ensures |r| <= |s|
  {
    if s == [] then []
    else Kept(s[..|s| - 1], p) + (if p(s[|s| - 1]) then [] else [s[|s| - 1]])
  }

  /** remove_if() keeps exactly the elements that fail the predicate. */
  lemma {:induction false} KeptMembers<T>(s: seq<T>, p: T -> bool)
    ensures forall i :: 0 <= i < |Kept(s, p)| ==> Kept(s, p)[i] in s && !p(Kept(s, p)[i])
    ensures forall i :: 0 <= i < |s| && !p(s[i]) ==> s[i] in Kept(s, p)
  {
    if s != [] {
      var init := s[..|s| - 1];
      var x := s[|s| - 1];
      KeptMembers(init, p);
      var k := Kept(init, p);
      var r := Kept(s, p);
      assert s == init + [x];
      assert r == k + (if p(x) then [] else [x]);
      forall i | 0 <= i < |r|
        ensures r[i] in s && !p(r[i])
      {
        if i < |k| {
          assert r[i] == k[i];
        }
      }
      forall i | 0 <= i < |s| && !p(s[i])
        ensures s[i] in r
      {
        if i < |init| {
          assert s[i] == init[i];
        }
      }
    }
  }

  /** reverse(): the elements in the opposite order. */
  function Reversed<T>(s: seq<T>): (r: seq<T>)
    ensures |r| == |s|
  {
    if s == [] then [] else [s[|s| - 1]] + Reversed(s[..|s| - 1])
  }

  /** Element k of the reversed list is element |s| - 1 - k of the list. */
  lemma ReversedIndex<T>(s: seq<T>)
    ensures forall k :: 0 <= k < |s| ==> Reversed(s)[k] == s[|s| - 1 - k]
  {
    forall k | 0 <= k < |s|
      ensures Reversed(s)[k] == s[|s| - 1 - k]
    {
      ReversedAt(s, k);
    }
  }

  /** One element of the reversed list, by induction on the list. */
  lemma {:induction false} ReversedAt<T>(s: seq<T>, k: nat)
    requires k < |s|
    ensures Reversed(s)[k] == s[|s| - 1 - k]
    decreases |s|
  {
    if k > 0 {
      var init := s[..|s| - 1];
      assert Reversed(s) == [s[|s| - 1]] + Reversed(init);
      ReversedAt(init, k - 1);
    }
  }

  /** Reversing twice restores the list. */
  lemma ReversedTwice<T>(s: seq<T>)
    ensures Reversed(Reversed(s)) == s
  {
    ReversedIndex(s);
    ReversedIndex(Reversed(s));
  }

  /**
   * The loop of reverse() as written: the `;` right after the loop
   * condition is the whole body, so an iteration leaves `current` where
   * it was.  Nodes 0 .. |s| - 1 hold the elements; node |s| is the end.
   */
  function ReverseLoopAsWritten(current: nat, iterations: nat): (r: nat)
    ensures r == current
  {
    if iterations == 0 then current else ReverseLoopAsWritten(current, iterations - 1)
  }

  /**
   * reverse() as written never leaves its loop on a non-empty list: after
   * any number of iterations `current` is still the first node, not the
   * end node.
   */
  lemma {:induction false} ReverseAsWrittenNeverEnds<T>(s: seq<T>, iterations: nat)
    requires s != []
    ensures ReverseLoopAsWritten(0, iterations) == 0 != |s|
  {
    if iterations > 0 {
      ReverseAsWrittenNeverEnds(s, iterations - 1);
    }
  }

  /**
   * unique(): the first element, then every element that is not equal to
   * the element retained before it.
   */
  function Uniqued<T>(s: seq<T>, equal: (T, T) -> bool): (r: seq<T>)
    ensures |r| <= |s| && (|s| > 0 <==> |r| > 0)
    ensures |s| > 0 ==> r[0] == s[0]
  {
    if |s| <= 1 then s
    else
      var u := Uniqued(s[..|s| - 1], equal);
      if equal(s[|s| - 1], u[|u| - 1]) then u else u + [s[|s| - 1]]
  }

  /** No element of r is equal to the one before it. */
  ghost predicate NoAdjacentEqual<T>(r: seq<T>, equal: (T, T) -> bool) {
    forall i :: 0 < i < |r| ==> !equal(r[i], r[i - 1])
  }

  /** No retained element is equal to the one retained before it. */
  lemma {:induction false} UniquedAdjacent<T>(s: seq<T>, equal: (T, T) -> bool)
    ensures NoAdjacentEqual(Uniqued(s, equal), equal)
  {
    if |s| > 1 {
      var u := Uniqued(s[..|s| - 1], equal);
      UniquedAdjacent(s[..|s| - 1], equal);
      var last := s[|s| - 1];
      if equal(last, u[|u| - 1]) {
        assert Uniqued(s, equal) == u;
      } else {
        var r := u + [last];
        assert Uniqued(s, equal) == r;
        forall i | 0 < i < |r|
          ensures !equal(r[i], r[i - 1])
        {
          if i < |u| {
            assert r[i] == u[i] && r[i - 1] == u[i - 1];
          } else {
            assert r[i] == last && r[i - 1] == u[|u| - 1];
          }
        }
      }
    }
  }

  /** The relation unique() uses when given none (std::equal_to). */
  predicate Same<T(==)>(x: T, y: T) {
    x == y
  }

  /** With equality as the relation, unique() drops only repeated elements. */
  lemma {:induction false} UniquedElements<T>(s: seq<T>)
    ensures forall x :: x in Uniqued(s, Same) <==> x in s
  {
    if |s| > 1 {
      var init := s[..|s| - 1];
      UniquedElements(init);
      assert s == init + [s[|s| - 1]];
      var u := Uniqued(init, Same);
      var last := s[|s| - 1];
      var r := Uniqued(s, Same);
      if Same(last, u[|u| - 1]) {
        assert r == u;
        assert last in u;
      } else {
        assert r == u + [last];
      }
      forall x
        ensures x in r <==> x in s
      {
        assert x in s <==> x in init || x == last;
        assert x in r <==> x in u || x == last;
      }
    }
  }

  /** Lexicographic order of the key sequences (std::lexicographical_compare). */
  function LexLess<T>(a: seq<T>, b: seq<T>, key: T -> int): bool
  {
    if b == [] then false
    else if a == [] then true
    else if key(a[0]) < key(b[0]) then true
    else if key(b[0]) < key(a[0]) then false
    else LexLess(a[1..], b[1..], key)
  }

  /** operator< on lists is a strict order: irreflexive ... */
  lemma {:induction false} LexLessIrreflexive<T>(a: seq<T>, key: T -> int)
    ensures !LexLess(a, a, key)
  {
    if a != [] {
      LexLessIrreflexive(a[1..], key);
    }
  }

  /** ... and transitive. */
  lemma {:induction false} LexLessTransitive<T>(a: seq<T>, b: seq<T>, c: seq<T>, key: T -> int)
    requires LexLess(a, b, key) && LexLess(b, c, key)
    ensures LexLess(a, c, key)
  {
    if a != [] && key(a[0]) == key(b[0]) && key(b[0]) == key(c[0]) {
      LexLessTransitive(a[1..], b[1..], c[1..], key);
    }
  }

  /** No two lists precede each other. */
  lemma {:induction false} LexLessAsymmetric<T>(a: seq<T>, b: seq<T>, key: T -> int)
    ensures LexLess(a, b, key) ==> !LexLess(b, a, key)
  {
    if a != [] && b != [] && key(a[0]) == key(b[0]) {
      LexLessAsymmetric(a[1..], b[1..], key);
    }
  }

  /** A proper prefix precedes the list. */
  lemma {:induction false} LexLessPrefix<T>(a: seq<T>, n: nat, key: T -> int)
    requires n < |a|
    ensures LexLess(a[..n], a, key)
  {
    if n > 0 {
      assert a[..n][1..] == a[1..][..n - 1];
      LexLessPrefix(a[1..], n - 1, key);
    }
  }

  /** splice() of [first, last) of a list to before `there` in the same list. */
  function Moved<T>(s: seq<T>, there: nat, first: nat, last: nat): (r: seq<T>)
    requires first <= last <= |s| && there <= |s| && (there <= first || last <= there)
    ensures multiset(r) == multiset(s)
  {
    if there <= first then
      SwapMiddle(s, there, first, last);
      s[..there] + s[first..last] + s[there..first] + s[last..]
    else
      SwapMiddle(s, first, last, there);
      s[..first] + s[last..there] + s[first..last] + s[there..]
  }

  /** Exchanging the two middle pieces of a list cut at i <= j <= k keeps its elements. */
  lemma SwapMiddle<T>(s: seq<T>, i: nat, j: nat, k: nat)
    requires i <= j <= k <= |s|
    ensures multiset(s[..i] + s[j..k] + s[i..j] + s[k..]) == multiset(s)
  {
    assert s[..k] == s[..i] + s[i..j] + s[j..k];
    assert s == s[..k] + s[k..];
  }

  /** The number of bins of sort(). */
  const MaxBins: nat := 25

  /** The concatenation segs[|segs| - 1] + ... + segs[0]. */
  ghost function Stacked<T>(segs: seq<seq<T>>): seq<T> {
    if segs == [] then [] else Stacked(segs[1..]) + segs[0]
  }

  /** Leading empty segments add nothing. */
  lemma {:induction false} StackedSkip<T>(segs: seq<seq<T>>, n: nat)
    requires n <= |segs| && forall j :: 0 <= j < n ==> segs[j] == []
    ensures Stacked(segs) == Stacked(segs[n..])
  {
    if n > 0 {
      assert segs[1..][n - 1..] == segs[n..];
      StackedSkip(segs[1..], n - 1);
      assert Stacked(segs) == Stacked(segs[1..]) + [];
    }
  }

  /** Peeling segment n off the low end of Stacked(segs[n..]). */
  lemma StackedPeel<T>(segs: seq<seq<T>>, n: nat)
    requires n < |segs|
    ensures Stacked(segs[n..]) == Stacked(segs[n + 1..]) + segs[n]
  {
    assert segs[n..][1..] == segs[n + 1..];
  }

  class FastList<T(==)> {
    var elements: seq<T>

    /** FastList(): the empty list. */
    constructor ()
      ensures elements == []
    {
      elements := [];
    }

    /** FastList(count, value): count copies of the value. */
    constructor Fill(count: nat, value: T)
      ensures elements == seq(count, _ => value)
    {
      elements := [];
      new;
      InsertFill(0, count, value);
    }

    /** FastList(first, last) and the copy constructor: the elements of the range, in order. */
    constructor FromRange(s: seq<T>)
      ensures elements == s
    {
      elements := [];
      new;
      InsertRange(0, s);
    }

    function Size(): nat
      reads this
    {
      |elements|
    }

    function IsEmpty(): (r: bool)
      reads this
      ensures r <==> |elements| == 0
    {
      elements == []
    }

    /** operator==: the same number of elements, equal one by one. */
    function Equal(that: FastList<T>): (r: bool)
      reads this, that
      ensures r <==> elements == that.elements
    {
      |elements| == |that.elements| && forall i :: 0 <= i < |elements| ==> elements[i] == that.elements[i]
    }

    /** operator<: lexicographic comparison. */
    function Less(that: FastList<T>, key: T -> int): (r: bool)
      reads this, that
      ensures r ==> !LexLess(that.elements, elements, key)
      ensures elements == that.elements ==> !r
    {
      LexLessIrreflexive(elements, key);
      LexLessAsymmetric(elements, that.elements, key);
      LexLess(elements, that.elements, key)
    }

    function Front(): (r: T)
      reads this
      requires elements != []
      ensures r in elements
    {
      elements[0]
    }

    function Back(): (r: T)
      reads this
      requires elements != []
      ensures r in elements
    {
      elements[|elements| - 1]
    }

    /** insert(there, value): the value before position `there`; returns its position. */
    method Insert(there: nat, value: T) returns (r: nat)
      requires there <= |elements|
      modifies this
      ensures elements == old(elements[..there]) + [value] + old(elements[there..])
      ensures r == there && elements[r] == value
    {
      elements := elements[..there] + [value] + elements[there..];
      r := there;
    }

    /** erase(there): removes the element; returns the position of the next one. */
    method Erase(there: nat) returns (r: nat)
      requires there < |elements|
      modifies this
      ensures elements == old(elements[..there]) + old(elements[there + 1..])
      ensures r == there
    {
      elements := elements[..there] + elements[there + 1..];
      r := there;
    }

    method PushFront(value: T)
      modifies this
      ensures elements == [value] + old(elements) && Front() == value
    {
      var _ := Insert(0, value);
    }

    method PushBack(value: T)
      modifies this
      ensures elements == old(elements) + [value] && Back() == value
    {
      var _ := Insert(|elements|, value);
      assert elements[..|elements| - 1] == old(elements);
    }

    method PopFront()
      requires elements != []
      modifies this
      ensures elements == old(elements[1..])
    {
      var _ := Erase(0);
    }

    method PopBack()
      requires elements != []
      modifies this
      ensures elements == old(elements[..|elements| - 1])
    {
      var _ := Erase(|elements| - 1);
    }

    /** insert(there, count, value): count copies of the value before `there`. */
    method InsertFill(there: nat, count: nat, value: T)
      requires there <= |elements|
      modifies this
      ensures elements == old(elements[..there]) + seq(count, _ => value) + old(elements[there..])
    {
      InsertRange(there, seq(count, _ => value));
    }

    /** insert(there, first, last): the range, in order, before `there`. */
    method InsertRange(there: nat, s: seq<T>)
      requires there <= |elements|
      modifies this
      ensures elements == old(elements[..there]) + s + old(elements[there..])
    {
      var at := there;
      for i := 0 to |s|
        invariant at == there + i
        invariant elements == old(elements[..there]) + s[..i] + old(elements[there..])
      {
        var _ := Insert(at, s[i]);
        assert s[..i + 1] == s[..i] + [s[i]];
        at := at + 1;
      }
      assert s[..|s|] == s;
    }

    /** erase(first, last): erases [first, last) one element at a time; returns the position after them. */
    method EraseRange(first: nat, last: nat) returns (r: nat)
      requires first <= last <= |elements|
      modifies this
      ensures elements == old(elements[..first]) + old(elements[last..])
      ensures r == first
    {
      ghost var original := elements;
      var remaining: nat := last - first;
      assert elements == elements[..first] + elements[first..];
      while remaining > 0
        invariant remaining <= last - first
        invariant elements == original[..first] + original[last - remaining..]
      {
        var _ := Erase(first);
        remaining := remaining - 1;
      }
      r := first;
    }

    /** clear(): erases every element. */
    method Clear()
      modifies this
      ensures elements == []
    {
      var _ := EraseRange(0, |elements|);
    }

    /** assign(first, last): appends the range, then erases the old elements. */
    method Assign(s: seq<T>)
      modifies this
      ensures elements == s
    {
      var oldSize := |elements|;
      InsertRange(|elements|, s);
      var _ := EraseRange(0, oldSize);
    }

    /** assign(count, value) */
    method AssignFill(count: nat, value: T)
      modifies this
      ensures elements == seq(count, _ => value)
    {
      Assign(seq(count, _ => value));
    }

    /** resize(n, value): pops from the back, or pushes copies of the value, until the size is n. */
    method Resize(n: nat, value: T)
      modifies this
      ensures |elements| == n
      ensures n <= |old(elements)| ==> elements == old(elements)[..n]
      ensures n > |old(elements)| ==> elements == old(elements) + seq(n - |old(elements)|, _ => value)
    {
      while n < |elements|
        invariant |elements| <= |old(elements)| && elements == old(elements)[..|elements|]
        invariant n <= |old(elements)| ==> n <= |elements|
        invariant n >= |old(elements)| ==> elements == old(elements)
        decreases |elements|
      {
        PopBack();
      }
      ghost var grown := elements;
      while n > |elements|
        invariant |grown| <= |elements| && (|grown| <= n ==> |elements| <= n)
        invariant elements == grown + seq(|elements| - |grown|, _ => value)
        decreases n - |elements|
      {
        PushBack(value);
      }
    }

    method Swap(that: FastList<T>)
      modifies this, that
      ensures elements == old(that.elements) && that.elements == old(elements)
    {
      elements, that.elements := that.elements, elements;
    }

    /** remove_if(predicate): erases exactly the elements that satisfy it, keeping the order of the rest. */
    method RemoveIf(p: T -> bool)
      modifies this
      ensures elements == Kept(old(elements), p)
    {
      ghost var original := elements;
      var current := 0;
      ghost var done := 0;
      while current != |elements|
        invariant done <= |original| && current <= |elements|
        invariant elements == Kept(original[..done], p) + original[done..]
        invariant current == |Kept(original[..done], p)|
        decreases |elements| - current
      {
        RemoveIfStep(original, done, p, elements, current);
        if p(elements[current]) {
          current := Erase(current);
        } else {
          current := current + 1;
        }
        done := done + 1;
      }
      PrefixAll(original);
    }

    /** remove(value): erases every element equal to the value. */
    method Remove(value: T)
      modifies this
      ensures elements == Kept(old(elements), x => x == value)
      ensures value !in elements
    {
      RemoveIf(x => x == value);
      KeptMembers(old(elements), x => x == value);
    }

    /**
     * unique(equal): erases each element equal (by `equal(next, current)`)
     * to the last retained element; the first of equal elements stays.
     */
    method Unique(equal: (T, T) -> bool)
      modifies this
      ensures elements == Uniqued(old(elements), equal)
    {
      if elements == [] {
        return;
      }
      ghost var original := elements;
      var current := 0;
      var next := 1;
      ghost var done := 1;
      ghost var kept := Uniqued(original[..done], equal);
      while next != |elements|
        invariant 1 <= done <= |original| && next <= |elements|
        invariant kept == Uniqued(original[..done], equal)
        invariant elements == kept + original[done..]
        invariant next == current + 1 == |kept|
        decreases |elements| - next
      {
        UniqueStep(original, done, equal, elements, next);
        if equal(elements[next], elements[current]) {
          next := Erase(next);
        } else {
          current := next;
          next := next + 1;
        }
        done := done + 1;
        kept := Uniqued(original[..done], equal);
      }
      PrefixAll(original);
    }

    /** unique(): unique(equal) with equality; every value stays, and no two neighbours are equal. */
    method UniqueEqual()
      modifies this
      ensures elements == Uniqued(old(elements), Same)
      ensures forall x :: x in elements <==> x in old(elements)
      ensures forall i :: 0 < i < |elements| ==> elements[i] != elements[i - 1]
    {
      Unique(Same);
      UniquedElements(old(elements));
      UniquedAdjacent(old(elements), Same);
    }

    /**
     * reverse(), corrected: each element in turn is relinked in front of
     * the ones already moved, so the list ends up in the opposite order.
     */
    method Reverse()
      modifies this
      ensures elements == Reversed(old(elements))
    {
      var i := 0;
      while i < |elements|
        invariant i <= |elements| == |old(elements)|
        invariant elements == Reversed(old(elements)[..i]) + old(elements)[i..]
      {
        var s := old(elements);
        assert s[..i + 1][..i] == s[..i];
        elements := [elements[i]] + elements[..i] + elements[i + 1..];
        i := i + 1;
      }
      assert old(elements)[..i] == old(elements);
    }

    /** splice(there, that): moves every element of `that` to before `there`. */
    method Splice(there: nat, that: FastList<T>)
      requires there <= |elements| && that != this
      modifies this, that
      ensures elements == old(elements[..there]) + old(that.elements) + old(elements[there..])
      ensures that.elements == []
    {
      SpliceRange(there, that, 0, |that.elements|);
    }

    /** splice(there, that, i): moves the element at position i of `that` to before `there`. */
    method SpliceOne(there: nat, that: FastList<T>, i: nat)
      requires there <= |elements| && i < |that.elements|
      requires that == this ==> there <= i || i + 1 <= there
      modifies this, that
      ensures that != this ==> elements == old(elements[..there]) + [old(that.elements[i])] + old(elements[there..])
      ensures that != this ==> that.elements == old(that.elements[..i]) + old(that.elements[i + 1..])
      ensures that == this ==> elements == Moved(old(elements), there, i, i + 1)
    {
      SpliceRange(there, that, i, i + 1);
    }

    /**
     * splice(there, that, first, last): moves [first, last) of `that` to
     * before `there`; within one list `there` must lie outside the range.
     */
    method SpliceRange(there: nat, that: FastList<T>, first: nat, last: nat)
      requires there <= |elements| && first <= last <= |that.elements|
      requires that == this ==> there <= first || last <= there
      modifies this, that
      ensures that != this ==> elements == old(elements[..there]) + old(that.elements[first..last]) + old(elements[there..])
      ensures that != this ==> that.elements == old(that.elements[..first]) + old(that.elements[last..])
      ensures that == this ==> elements == Moved(old(elements), there, first, last)
    {
      if that == this {
        elements := Moved(elements, there, first, last);
      } else {
        var moved := that.elements[first..last];
        that.elements := that.elements[..first] + that.elements[last..];
        elements := elements[..there] + moved + elements[there..];
      }
    }

    /**
     * merge(that, compare): splices each element of `that` in front of the
     * first element of this list that it is less than, then appends the
     * rest of `that`.
     */
    method Merge(that: FastList<T>, key: T -> int)
      requires that != this
      modifies this, that
      ensures elements == Merged(old(elements), old(that.elements), key)
      ensures that.elements == []
    {
      ghost var target := Merged(elements, that.elements, key);
      var thisCurrent := 0;
      assert elements[..0] + elements[0..] == elements;
      while that.elements != [] && thisCurrent != |elements|
        invariant thisCurrent <= |elements|
        invariant elements[..thisCurrent] + Merged(elements[thisCurrent..], that.elements, key) == target
        decreases |elements| - thisCurrent + |that.elements|
      {
        ghost var before, rest := elements, that.elements;
        if key(that.elements[0]) < key(elements[thisCurrent]) {
          MergeStepThat(before, rest, thisCurrent, key);
          SpliceRange(thisCurrent, that, 0, 1);
        } else {
          MergeStepThis(before, rest, thisCurrent, key);
        }
        thisCurrent := thisCurrent + 1;
      }
      MergeTail(elements, that.elements, thisCurrent, key);
      SpliceAtEnd(elements, that.elements);
      SpliceRange(|elements|, that, 0, |that.elements|);
    }

    /**
     * sort(compare): the bin-based merge sort.  Elements are taken from the
     * front one at a time and carried through the bins (AddToBins); at the
     * end the bins are merged from the lowest up (MergeBins).  The sort is
     * stable, and therefore a permutation.
     */
    method Sort(key: T -> int)
      modifies this
      ensures StablySorted(elements, old(elements), key)
      ensures multiset(elements) == multiset(old(elements))
    {
      if |elements| < 2 {
        ShortSorted(elements, key);
        StablySortedPermutes(elements, old(elements), key);
        return;
      }
      elements := BinSort(elements, key);
      StablySortedPermutes(elements, old(elements), key);
    }
  }

  /**
   * The body of sort() for two or more elements: the elements are taken
   * from the front of the list one at a time (the splice into tempList)
   * and carried through the bins; then the bins are merged upwards and the
   * result is spliced back.
   */
  method BinSort<T>(s: seq<T>, key: T -> int) returns (r: seq<T>)
    requires |s| >= 2
    ensures StablySorted(r, s, key)
  {
    var bins, segs, maxBin := FillBins(s, key);
    r := MergeBins(bins, segs, maxBin, key);
  }

  /** The main loop of sort(): every element is added to the bins in turn. */
  method FillBins<T>(s: seq<T>, key: T -> int) returns (bins: seq<seq<T>>, ghost segs: seq<seq<T>>, maxBin: nat)
    requires s != []
    ensures Binned(bins, segs, maxBin, s, key)
  {
    bins := EmptyBins();
    segs := EmptyBins();
    maxBin := 0;
    EmptyBinsValid(bins, s, key);
    for i := 0 to |s|
      invariant Binned(bins, segs, maxBin, s[..i], key)
    {
      PrefixStep(s, i);
      bins, segs, maxBin := AddToBins(bins, segs, maxBin, s[..i], s[i], key);
    }
    PrefixAll(s);
  }

  lemma PrefixAll<T>(s: seq<T>)
    ensures s[..|s|] == s
  {
  }

  lemma EmptyMiddle<T>(a: seq<T>, b: seq<T>, c: seq<T>)
    requires b == []
    ensures a + b + c == a + c
  {
  }

  lemma PrefixStep<T>(s: seq<T>, i: nat)
    requires i < |s|
    ensures s[..i + 1] == s[..i] + [s[i]]
  {
  }

  /** binList: MaxBins + 1 empty lists. */
  function EmptyBins<T>(): (r: seq<seq<T>>)
    ensures |r| == MaxBins + 1 && forall j :: 0 <= j < |r| ==> r[j] == []
  {
    seq(MaxBins + 1, _ => [])
  }

  lemma EmptyBinsValid<T>(bins: seq<seq<T>>, s: seq<T>, key: T -> int)
    requires bins == EmptyBins()
    ensures Binned(bins, bins, 0, s[..0], key)
  {
    StackedSkip(bins, MaxBins + 1);
  }

  /**
   * The bins of sort(): bin j holds a stable sort of the stretch segs[j]
   * of the input, and the bins from maxBin up are empty.
   */
  ghost predicate Bins<T>(bins: seq<seq<T>>, segs: seq<seq<T>>, maxBin: nat, key: T -> int) {
    |bins| == |segs| == MaxBins + 1 && maxBin <= MaxBins &&
    forall j :: 0 <= j < |bins| ==>
      StablySorted(bins[j], segs[j], key) && (maxBin <= j ==> bins[j] == [] && segs[j] == [])
  }

  /** Bins stay valid when one bin is replaced by a stable sort of a new stretch. */
  lemma BinsSet<T>(bins: seq<seq<T>>, segs: seq<seq<T>>, maxBin: nat, j: nat,
                   b: seq<T>, seg: seq<T>, maxBin': nat, key: T -> int)
    requires Bins(bins, segs, maxBin, key) && j <= MaxBins && maxBin <= maxBin' <= MaxBins
    requires StablySorted(b, seg, key) && (j < maxBin' || (b == [] && seg == []))
    ensures Bins(bins[j := b], segs[j := seg], maxBin', key)
  {
  }

  /** The state of the main loop of sort(): the bins hold the elements taken so far. */
  ghost predicate Binned<T>(bins: seq<seq<T>>, segs: seq<seq<T>>, maxBin: nat, taken: seq<T>, key: T -> int) {
    Bins(bins, segs, maxBin, key) && Stacked(segs) == taken && (taken != [] ==> maxBin > 0)
  }

  /**
   * The state of the inner loop of sort(): the bins below `bin` have been
   * emptied into temp, and temp stably sorts what they held plus the new
   * element.
   */
  ghost predicate Carrying<T>(bins: seq<seq<T>>, segs: seq<seq<T>>, maxBin: nat, bin: nat,
                              temp: seq<T>, segTemp: seq<T>, target: seq<T>, key: T -> int) {
    Bins(bins, segs, maxBin, key) && bin <= maxBin &&
    (forall j :: 0 <= j < bin ==> bins[j] == [] && segs[j] == []) &&
    StablySorted(temp, segTemp, key) &&
    Stacked(segs[bin..]) + segTemp == target
  }

  /** binList[bin].merge(tempList); binList[bin].swap(tempList) keeps the loop state. */
  lemma CarryStep<T>(bins: seq<seq<T>>, segs: seq<seq<T>>, maxBin: nat, bin: nat,
                     temp: seq<T>, segTemp: seq<T>, target: seq<T>, key: T -> int)
    requires Carrying(bins, segs, maxBin, bin, temp, segTemp, target, key) && bin < maxBin
    ensures Carrying(bins[bin := []], segs[bin := []], maxBin, bin + 1,
                     Merged(bins[bin], temp, key), segs[bin] + segTemp, target, key)
  {
    MergedStablySorted(bins[bin], segs[bin], temp, segTemp, key);
    StackedPeel(segs, bin);
    BinsSet(bins, segs, maxBin, bin, [], [], maxBin, key);
    assert segs[bin := []][bin + 1..] == segs[bin + 1..];
  }

  /** All MaxBins bins were full: the carried elements are merged into the last bin. */
  lemma PlaceLast<T>(bins: seq<seq<T>>, segs: seq<seq<T>>, maxBin: nat,
                     temp: seq<T>, segTemp: seq<T>, target: seq<T>, key: T -> int)
    requires Carrying(bins, segs, maxBin, MaxBins, temp, segTemp, target, key)
    ensures Bins(bins[MaxBins - 1 := Merged(bins[MaxBins - 1], temp, key)],
                 segs[MaxBins - 1 := segs[MaxBins - 1] + segTemp], maxBin, key)
    ensures Stacked(segs[MaxBins - 1 := segs[MaxBins - 1] + segTemp]) == target
  {
    var bin := MaxBins - 1;
    MergedStablySorted(bins[bin], segs[bin], temp, segTemp, key);
    StackedPlace(segs, bin, segTemp);
    assert segs[bin] == [];
    EmptyMiddle(Stacked(segs[bin + 1..]), segs[bin], segTemp);
    BinsSet(bins, segs, maxBin, bin, Merged(bins[bin], temp, key), segs[bin] + segTemp, maxBin, key);
  }

  /** The carried elements land in the first empty bin. */
  lemma PlaceEmpty<T>(bins: seq<seq<T>>, segs: seq<seq<T>>, maxBin: nat, bin: nat,
                      temp: seq<T>, segTemp: seq<T>, target: seq<T>, key: T -> int)
    requires Carrying(bins, segs, maxBin, bin, temp, segTemp, target, key)
    requires bin < MaxBins && (bin == maxBin || bins[bin] == [])
    ensures Bins(bins[bin := temp], segs[bin := segTemp], if bin == maxBin then maxBin + 1 else maxBin, key)
    ensures Stacked(segs[bin := segTemp]) == target
  {
    StablySortedPermutes(bins[bin], segs[bin], key);
    assert |segs[bin]| == 0;
    StackedPeel(segs, bin);
    StackedPlace(segs, bin, segTemp);
    assert segs[bin] + segTemp == segTemp;
    BinsSet(bins, segs, maxBin, bin, temp, segTemp, if bin == maxBin then maxBin + 1 else maxBin, key);
  }

  /**
   * The inner loop of sort(): the new element is merged with every full
   * bin from the lowest up, and lands in the first empty bin (or in the
   * last bin once all MaxBins bins are in use).
   */
  method AddToBins<T>(bins: seq<seq<T>>, ghost segs: seq<seq<T>>, maxBin: nat, ghost taken: seq<T>, x: T, key: T -> int)
    returns (bins': seq<seq<T>>, ghost segs': seq<seq<T>>, maxBin': nat)
    requires Binned(bins, segs, maxBin, taken, key)
    ensures Binned(bins', segs', maxBin', taken + [x], key)
  {
    bins', segs' := bins, segs;
    var temp := [x];
    ghost var segTemp := [x];
    ghost var target := taken + [x];
    ShortSorted(temp, key);
    var bin := 0;
    assert segs'[0..] == segs';
    while bin < maxBin && bins'[bin] != []
      invariant Carrying(bins', segs', maxBin, bin, temp, segTemp, target, key)
    {
      CarryStep(bins', segs', maxBin, bin, temp, segTemp, target, key);
      temp := Merged(bins'[bin], temp, key);
      segTemp := segs'[bin] + segTemp;
      bins' := bins'[bin := []];
      segs' := segs'[bin := []];
      bin := bin + 1;
    }
    if bin == MaxBins {
      PlaceLast(bins', segs', maxBin, temp, segTemp, target, key);
      bins' := bins'[bin - 1 := Merged(bins'[bin - 1], temp, key)];
      segs' := segs'[bin - 1 := segs'[bin - 1] + segTemp];
      maxBin' := maxBin;
    } else {
      PlaceEmpty(bins', segs', maxBin, bin, temp, segTemp, target, key);
      bins' := bins'[bin := temp];
      segs' := segs'[bin := segTemp];
      maxBin' := if bin == maxBin then maxBin + 1 else maxBin;
    }
  }

  /** The state of the final loop of sort(): the bins below bin - 1 have been merged upwards. */
  ghost predicate MergingUp<T>(bins: seq<seq<T>>, segs: seq<seq<T>>, maxBin: nat, bin: nat,
                               whole: seq<T>, key: T -> int) {
    Bins(bins, segs, maxBin, key) && 1 <= bin <= maxBin &&
    Stacked(segs) == whole &&
    forall j :: 0 <= j < bin - 1 ==> segs[j] == []
  }

  /** binList[bin].merge(binList[bin - 1]) keeps the loop state. */
  lemma MergeUpStep<T>(bins: seq<seq<T>>, segs: seq<seq<T>>, maxBin: nat, bin: nat,
                       whole: seq<T>, key: T -> int)
    requires MergingUp(bins, segs, maxBin, bin, whole, key) && bin < maxBin
    ensures MergingUp(bins[bin := Merged(bins[bin], bins[bin - 1], key)][bin - 1 := []],
                      segs[bin := segs[bin] + segs[bin - 1]][bin - 1 := []], maxBin, bin + 1, whole, key)
  {
    MergedStablySorted(bins[bin], segs[bin], bins[bin - 1], segs[bin - 1], key);
    StackedShift(segs, bin);
    var b1, s1 := bins[bin := Merged(bins[bin], bins[bin - 1], key)], segs[bin := segs[bin] + segs[bin - 1]];
    BinsSet(bins, segs, maxBin, bin, b1[bin], s1[bin], maxBin, key);
    BinsSet(b1, s1, maxBin, bin - 1, [], [], maxBin, key);
  }

  /** Once every bin is merged upwards, the top bin holds the stably sorted whole. */
  lemma MergeUpDone<T>(bins: seq<seq<T>>, segs: seq<seq<T>>, maxBin: nat, whole: seq<T>, key: T -> int)
    requires MergingUp(bins, segs, maxBin, maxBin, whole, key)
    ensures StablySorted(bins[maxBin - 1], whole, key)
  {
    StackedSkip(segs, maxBin - 1);
    StackedPeel(segs, maxBin - 1);
    var upper := segs[maxBin..];
    StackedSkip(upper, |upper|);
    assert upper[|upper|..] == [];
    assert Stacked(segs) == [] + segs[maxBin - 1];
    assert whole == segs[maxBin - 1];
    assert StablySorted(bins[maxBin - 1], segs[maxBin - 1], key);
  }

  /** The final loop of sort(): each bin is merged into the next one up. */
  method MergeBins<T>(bins: seq<seq<T>>, ghost segs: seq<seq<T>>, maxBin: nat, key: T -> int)
    returns (r: seq<T>)
    requires Bins(bins, segs, maxBin, key) && 0 < maxBin
    ensures StablySorted(r, Stacked(segs), key)
  {
    var bins' := bins;
    ghost var segs' := segs;
    for bin := 1 to maxBin
      invariant MergingUp(bins', segs', maxBin, bin, Stacked(segs), key)
    {
      MergeUpStep(bins', segs', maxBin, bin, Stacked(segs), key);
      bins' := bins'[bin := Merged(bins'[bin], bins'[bin - 1], key)][bin - 1 := []];
      segs' := segs'[bin := segs'[bin] + segs'[bin - 1]][bin - 1 := []];
    }
    MergeUpDone(bins', segs', maxBin, Stacked(segs), key);
    r := bins'[maxBin - 1];
  }

  /** Adding seg to the lowest nonempty segment appends it to the stack. */
  lemma StackedPlace<T>(segs: seq<seq<T>>, bin: nat, seg: seq<T>)
    requires bin < |segs| && forall j :: 0 <= j < bin ==> segs[j] == []
    ensures Stacked(segs[bin := segs[bin] + seg]) == Stacked(segs[bin + 1..]) + segs[bin] + seg
  {
    var t := segs[bin := segs[bin] + seg];
    StackedSkip(t, bin);
    StackedPeel(t, bin);
    assert t[bin + 1..] == segs[bin + 1..];
  }

  /** Moving segment bin - 1 onto segment bin leaves the stack as it was. */
  lemma StackedShift<T>(segs: seq<seq<T>>, bin: nat)
    requires 0 < bin < |segs| && forall j :: 0 <= j < bin - 1 ==> segs[j] == []
    ensures Stacked(segs[bin := segs[bin] + segs[bin - 1]][bin - 1 := []]) == Stacked(segs)
  {
    var t := segs[bin := segs[bin] + segs[bin - 1]][bin - 1 := []];
    StackedSkip(t, bin);
    StackedPeel(t, bin);
    StackedSkip(segs, bin - 1);
    StackedPeel(segs, bin - 1);
    StackedPeel(segs, bin);
    assert t[bin + 1..] == segs[bin + 1..];
  }

  lemma ShortSorted<T>(s: seq<T>, key: T -> int)
    requires |s| < 2
    ensures StablySorted(s, s, key)
  {
  }
}
