/**
 * The start and final sets of Pastel's automata: a list of states in the
 * order they were marked, each state at most once.  A state records its
 * own position in the list, so marking and unmarking are O(1); here the
 * list is a sequence and a state's position is where it occurs in it.
 */
module AutomatonMarks {

  /** No state is listed twice. */
  predicate Distinct(s: seq<nat>) {
    forall i, j :: 0 <= i < j < |s| ==> s[i] != s[j]
  }

  /** addStart/addFinal: append the state unless it is already marked. */
  function Marked(s: seq<nat>, x: nat): (r: seq<nat>)
    ensures x in r
    ensures forall y :: y in r <==> y in s || y == x
  {
    if x in s then s else s + [x]
  }

  /** removeStart/removeFinal: erase the state's entry, keeping the order of the rest. */
  function Unmarked(s: seq<nat>, x: nat): (r: seq<nat>)
    ensures x !in r
    ensures forall y :: y in r <==> y in s && y != x
    ensures |r| <= |s| && (x in s ==> |r| < |s|)
  {
    if |s| == 0 then []
    else if s[0] == x then Unmarked(s[1..], x)
    else [s[0]] + Unmarked(s[1..], x)
  }

  /** A list of distinct states, all of them in `states`. */
  ghost predicate Marks(s: seq<nat>, states: set<nat>) {
    Distinct(s) && forall x :: x in s ==> x in states
  }

  /** The lists of two automata with disjoint states append to a list of the merged automaton. */
  lemma MarksAppend(s: seq<nat>, t: seq<nat>, ss: set<nat>, ts: set<nat>)
    requires Marks(s, ss) && Marks(t, ts) && ss !! ts
    ensures Marks(s + t, ss + ts)
  {
    DistinctAppend(s, t);
  }

  /** Lists of states from two different automata join without repetition. */
  lemma DistinctAppend(s: seq<nat>, t: seq<nat>)
    requires Distinct(s) && Distinct(t)
    requires forall x :: x in s ==> x !in t
    ensures Distinct(s + t)
  {
    forall i, j | 0 <= i < j < |s + t|
      ensures (s + t)[i] != (s + t)[j]
    {
      if i < |s| && j >= |s| {
        assert (s + t)[i] in s && (s + t)[j] in t;
      }
    }
  }

  /** Marking an already marked state changes nothing. */
  lemma MarkedIdempotent(s: seq<nat>, x: nat)
    ensures Marked(Marked(s, x), x) == Marked(s, x)
  {
  }

  lemma MarkedDistinct(s: seq<nat>, x: nat)
    requires Distinct(s)
    ensures Distinct(Marked(s, x))
  {
  }

  /** Unmarking a state that is not marked changes nothing. */
  lemma {:induction false} UnmarkedAbsent(s: seq<nat>, x: nat)
    requires x !in s
    ensures Unmarked(s, x) == s
  {
    if |s| > 0 {
      UnmarkedAbsent(s[1..], x);
    }
  }

  /** Unmarking removes exactly one entry from a list without repetitions. */
  lemma {:induction false} UnmarkedDistinct(s: seq<nat>, x: nat)
    requires Distinct(s)
    ensures Distinct(Unmarked(s, x))
    ensures x in s ==> |Unmarked(s, x)| == |s| - 1
  {
    if |s| > 0 {
      assert Distinct(s[1..]);
      UnmarkedDistinct(s[1..], x);
      if s[0] == x {
        UnmarkedAbsent(s[1..], x);
      } else {
        var rest := Unmarked(s[1..], x);
        assert s[0] !in rest by {
          assert forall k :: 0 <= k < |s[1..]| ==> s[1..][k] == s[k + 1];
        }
        assert Unmarked(s, x) == [s[0]] + rest;
      }
    }
  }

  /** Unmarking undoes marking a state that was not marked. */
  lemma UnmarkMarked(s: seq<nat>, x: nat)
    requires x !in s
    ensures Unmarked(Marked(s, x), x) == s
  {
    UnmarkedAppend(s, x);
  }

  lemma {:induction false} UnmarkedAppend(s: seq<nat>, x: nat)
    requires x !in s
    ensures Unmarked(s + [x], x) == s
  {
    if |s| == 0 {
      assert Unmarked([x], x) == Unmarked([], x);
    } else {
      assert (s + [x])[1..] == s[1..] + [x];
      UnmarkedAppend(s[1..], x);
      assert s == [s[0]] + s[1..];
    }
  }

  /** The start and final loops of the copy constructor: marking each state in turn rebuilds the list. */
  method CopyMarks(marks: seq<nat>) returns (r: seq<nat>)
    requires Distinct(marks)
    ensures r == marks
  {
    r := [];
    for i := 0 to |marks|
      invariant r == marks[..i]
    {
      assert marks[i] !in r;
      r := Marked(r, marks[i]);
      assert marks[..i + 1] == marks[..i] + [marks[i]];
    }
    assert marks[..|marks|] == marks;
  }
}
