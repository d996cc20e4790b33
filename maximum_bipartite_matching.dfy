/**
 * Hopcroft-Karp maximum bipartite matching, as Pastel's
 * `MaximumBipartiteMatching::Algorithm` runs it: the input edges are
 * turned into integer-indexed vertices (index 0 being a sentinel that
 * stands for "unmatched"), then rounds of a breadth-first search that
 * assigns levels and a depth-first flipping of augmenting paths repeat
 * while the search reaches the sentinel.
 */
module MaximumBipartiteMatchings {
  import opened Wrappers

  /** The vertex that every unmatched vertex is paired with. */
  const Sentinel: nat := 0

  // ---------------------------------------------------------------
  // The graph and the matching.
  // ---------------------------------------------------------------

  /**
   * The graph that `initialize` builds: vertex x has the neighbours
   * adj[x]; left and right vertices alternate along every edge; the
   * sentinel is a right-hand vertex without edges.
   */
  ghost predicate GraphOk(adj: seq<seq<nat>>, isLeft: seq<bool>)
  {
    |adj| == |isLeft| && |adj| >= 1 && !isLeft[Sentinel] && adj[Sentinel] == [] &&
    forall x, j :: 0 <= x < |adj| && 0 <= j < |adj[x]| ==> 0 < adj[x][j] < |adj| && isLeft[adj[x][j]] != isLeft[x]
  }

  /** Every pair index names a vertex. */
  ghost predicate PairsInRange(pair: seq<nat>)
  {
    forall x :: 0 <= x < |pair| ==> pair[x] < |pair|
  }

  /** Vertex x is unmatched, or matched along one of its edges to a vertex of the other side that is matched back. */
  ghost predicate PairOk(adj: seq<seq<nat>>, isLeft: seq<bool>, pair: seq<nat>, x: nat)
    requires GraphOk(adj, isLeft) && |pair| == |adj| && PairsInRange(pair) && x < |adj|
  {
    pair[x] == Sentinel ||
    (pair[pair[x]] == x && isLeft[pair[x]] != isLeft[x] && (isLeft[x] ==> pair[x] in adj[x]))
  }

  /** A matching except possibly at vertex p, whose pair may be stale. */
  ghost predicate MatchingExcept(adj: seq<seq<nat>>, isLeft: seq<bool>, pair: seq<nat>, p: nat)
  {
    GraphOk(adj, isLeft) && |pair| == |adj| && PairsInRange(pair) && pair[Sentinel] == Sentinel &&
    forall x :: 0 < x < |pair| && x != p ==> PairOk(adj, isLeft, pair, x)
  }

  /** The pairs form a matching of the graph's edges. */
  ghost predicate Matching(adj: seq<seq<nat>>, isLeft: seq<bool>, pair: seq<nat>)
  {
    MatchingExcept(adj, isLeft, pair, Sentinel)
  }

  /** The matched vertices. */
  function Matched(pair: seq<nat>): (s: set<nat>)
    ensures forall x :: x in s <==> 0 <= x < |pair| && pair[x] != Sentinel
  {
    set x | 0 <= x < |pair| && pair[x] != Sentinel
  }

  // ---------------------------------------------------------------
  // Layered augmenting paths.
  // ---------------------------------------------------------------

  /** Sizes and ranges that the level and path reasoning needs. */
  ghost predicate Shape(adj: seq<seq<nat>>, pair: seq<nat>, level: seq<int>)
  {
    |pair| == |adj| && |level| == |adj| && PairsInRange(pair) &&
    forall x, j :: 0 <= x < |adj| && 0 <= j < |adj[x]| ==> adj[x][j] < |adj|
  }

  /**
   * From vertex v a path leads to the sentinel through edges whose far
   * ends' partners lie exactly one level deeper each time: the paths
   * that `flipPossibleAugmentingPath` follows. Levels at or above `top`
   * have no such continuation.
   */
  ghost predicate Reach(adj: seq<seq<nat>>, pair: seq<nat>, level: seq<int>, top: int, v: nat)
    requires Shape(adj, pair, level) && v < |adj|
    decreases top - level[v]
  {
    v == Sentinel ||
    (0 <= level[v] < top &&
     exists i :: 0 <= i < |adj[v]| && level[pair[adj[v][i]]] == level[v] + 1 &&
       Reach(adj, pair, level, top, pair[adj[v][i]]))
  }

  /** Level changes from level0 to level1 only unvisit vertices from which no layered path led to the sentinel. */
  ghost predicate Unvisits(adj: seq<seq<nat>>, pair: seq<nat>, level0: seq<int>, level1: seq<int>, top: int)
    requires Shape(adj, pair, level0)
  {
    |level1| == |level0| &&
    forall x :: 0 <= x < |level0| && level1[x] != level0[x] ==> level1[x] == -1 && !Reach(adj, pair, level0, top, x)
  }

  /** Unvisiting dead ends keeps every layered path. */
  lemma {:induction false} UnvisitsKeepReach(adj: seq<seq<nat>>, pair: seq<nat>, level0: seq<int>, level1: seq<int>, top: int, x: nat)
    requires Shape(adj, pair, level0) && Unvisits(adj, pair, level0, level1, top) && x < |adj|
    requires Reach(adj, pair, level0, top, x)
    ensures Shape(adj, pair, level1) && Reach(adj, pair, level1, top, x)
    decreases top - level0[x]
  {
    if x != Sentinel {
      var i :| 0 <= i < |adj[x]| && level0[pair[adj[x][i]]] == level0[x] + 1 &&
        Reach(adj, pair, level0, top, pair[adj[x][i]]);
      var t := pair[adj[x][i]];
      UnvisitsKeepReach(adj, pair, level0, level1, top, t);
      assert level1[x] == level0[x] && level1[t] == level0[t];
    }
  }

  lemma UnvisitsChain(adj: seq<seq<nat>>, pair: seq<nat>, level0: seq<int>, level1: seq<int>, level2: seq<int>, top: int)
    requires Shape(adj, pair, level0) && Unvisits(adj, pair, level0, level1, top)
    requires Shape(adj, pair, level1) && Unvisits(adj, pair, level1, level2, top)
    ensures Unvisits(adj, pair, level0, level2, top)
  {
    forall x | 0 <= x < |level0| && level2[x] != level0[x]
      ensures level2[x] == -1 && !Reach(adj, pair, level0, top, x)
    {
      if level1[x] == level0[x] && Reach(adj, pair, level0, top, x) {
        UnvisitsKeepReach(adj, pair, level0, level1, top, x);
      }
    }
  }

  /** No edge of v leads one level deeper to a vertex with a layered path. */
  ghost predicate DeadEnd(adj: seq<seq<nat>>, pair: seq<nat>, level: seq<int>, top: int, v: nat)
    requires Shape(adj, pair, level) && v < |adj|
  {
    forall k :: 0 <= k < |adj[v]| ==>
      !(level[pair[adj[v][k]]] == level[v] + 1 && Reach(adj, pair, level, top, pair[adj[v][k]]))
  }

  // ---------------------------------------------------------------
  // Frames of one flip.
  // ---------------------------------------------------------------

  /** Levels change only by unvisiting vertices at depth d or deeper. */
  ghost predicate LevelFrame(level0: seq<int>, level1: seq<int>, d: int)
  {
    |level1| == |level0| &&
    forall x :: 0 <= x < |level0| && level1[x] != level0[x] ==> level1[x] == -1 && level0[x] >= d
  }

  /**
   * Pairs change only on the path below depth d: left vertices at depth
   * d or deeper, and right vertices that were unmatched or matched to a
   * vertex deeper than d.
   */
  ghost predicate PairFrame(isLeft: seq<bool>, pair0: seq<nat>, pair1: seq<nat>, level: seq<int>, d: int)
    requires |pair0| == |isLeft| == |level| && PairsInRange(pair0)
  {
    |pair1| == |pair0| &&
    forall x :: 0 <= x < |pair0| && pair1[x] != pair0[x] ==>
      (isLeft[x] && level[x] >= d) || (!isLeft[x] && (pair0[x] == Sentinel || level[pair0[x]] > d))
  }

  /** Matched vertices stay matched. */
  ghost predicate Grows(pair0: seq<nat>, pair1: seq<nat>)
  {
    |pair1| == |pair0| && forall x :: 0 <= x < |pair0| && pair0[x] != Sentinel ==> pair1[x] != Sentinel
  }

  /**
   * What a successful flip from v leaves: a matching except at v's
   * former partner p, which still points at v, while v is matched anew.
   */
  ghost predicate Flipped(adj: seq<seq<nat>>, isLeft: seq<bool>, pair0: seq<nat>, pair1: seq<nat>, level: seq<int>, v: nat)
    requires GraphOk(adj, isLeft) && |pair0| == |adj| == |level| && PairsInRange(pair0) && v < |adj|
  {
    var p := pair0[v];
    MatchingExcept(adj, isLeft, pair1, p) && (p != Sentinel ==> pair1[p] == v) &&
    pair1[v] != Sentinel && pair1[v] != p &&
    Grows(pair0, pair1) && PairFrame(isLeft, pair0, pair1, level, level[v])
  }

  /** A failed recursive flip from next leaves only unvisits, and next had no layered path to begin with. */
  lemma FailedEdge(adj: seq<seq<nat>>, pair: seq<nat>, level0: seq<int>, level1: seq<int>, level2: seq<int>,
                   top: int, next: nat, d: int)
    requires Shape(adj, pair, level0) && Shape(adj, pair, level1) && next < |adj|
    requires Unvisits(adj, pair, level0, level1, top) && Unvisits(adj, pair, level1, level2, top)
    requires LevelFrame(level0, level1, d) && LevelFrame(level1, level2, level1[next]) && level1[next] == d
    requires !Reach(adj, pair, level1, top, next)
    ensures Unvisits(adj, pair, level0, level2, top) && LevelFrame(level0, level2, d)
    ensures !Reach(adj, pair, level0, top, next)
  {
    UnvisitsChain(adj, pair, level0, level1, level2, top);
    if Reach(adj, pair, level0, top, next) {
      UnvisitsKeepReach(adj, pair, level0, level1, top, next);
    }
  }

  /** The unvisits between a flip's start and its recursive call are deeper than the flipped vertex. */
  lemma LevelFrameKeeps(level0: seq<int>, level1: seq<int>, d: int, x: nat)
    requires LevelFrame(level0, level1, d) && x < |level0| && level1[x] >= 0
    ensures level0[x] == level1[x]
  {
  }

  /**
   * Once the recursive flip from `next` (the partner of v's neighbour r)
   * succeeded, pairing r with v extends the augmenting path to v.
   */
  lemma AugmentStep(adj: seq<seq<nat>>, isLeft: seq<bool>, pair0: seq<nat>, pair1: seq<nat>,
                    level0: seq<int>, level1: seq<int>, v: nat, i: nat)
    requires Matching(adj, isLeft, pair0) && |level0| == |adj|
    requires 0 < v < |adj| && isLeft[v] && i < |adj[v]|
    requires -1 <= level0[v] && LevelFrame(level0, level1, level0[v] + 1)
    requires var next := pair0[adj[v][i]];
      level1[next] == level1[v] + 1 &&
      (next == Sentinel ==> pair1 == pair0) &&
      (next != Sentinel ==> Flipped(adj, isLeft, pair0, pair1, level1, next))
    ensures Flipped(adj, isLeft, pair0, pair1[adj[v][i] := v][v := adj[v][i]], level0, v)
  {
    var r, next := adj[v][i], pair0[adj[v][i]];
    var pair2 := pair1[r := v][v := r];
    assert level1[v] == level0[v];
    assert !isLeft[r] && r != Sentinel;
    assert PairOk(adj, isLeft, pair0, r);
    if next != Sentinel {
      assert pair0[next] == r && isLeft[next];
    }
    var q := pair0[v];
    assert pair1[v] == q;
    assert PairOk(adj, isLeft, pair0, v);
    assert q != r;
    if q != Sentinel {
      assert pair0[q] == v && !isLeft[q];
      assert pair1[q] == v;
    }
    forall x | 0 < x < |pair2| && x != q
      ensures PairOk(adj, isLeft, pair2, x)
    {
      if x != v && x != r && pair1[x] != Sentinel {
        assert x != pair0[next] || next == Sentinel;
        assert PairOk(adj, isLeft, pair1, x);
        var y := pair1[x];
        assert y != r;
      }
    }
    assert PairFrame(isLeft, pair0, pair2, level0, level0[v]) by {
      forall x | 0 <= x < |pair0| && pair2[x] != pair0[x]
        ensures (isLeft[x] && level0[x] >= level0[v]) ||
                (!isLeft[x] && (pair0[x] == Sentinel || level0[pair0[x]] > level0[v]))
      {
        if x == r {
          if next != Sentinel {
            LevelFrameKeeps(level0, level1, level0[v] + 1, next);
          }
        } else if x != v {
          assert next != Sentinel;
          if isLeft[x] {
            LevelFrameKeeps(level0, level1, level0[v] + 1, x);
          } else if pair0[x] != Sentinel {
            LevelFrameKeeps(level0, level1, level0[v] + 1, pair0[x]);
          }
        }
      }
    }
  }

  // ---------------------------------------------------------------
  // The breadth-first search.
  // ---------------------------------------------------------------

  /** Every level lies between -1 (unvisited) and top. */
  ghost predicate Levels(level: seq<int>, top: int)
  {
    0 <= top && forall x :: 0 <= x < |level| ==> -1 <= level[x] <= top
  }

  /** The search queue holds visited left vertices. */
  ghost predicate Queued(adj: seq<seq<nat>>, isLeft: seq<bool>, level: seq<int>, queue: seq<nat>)
    requires |isLeft| == |adj| == |level|
  {
    forall k :: 0 <= k < |queue| ==> queue[k] < |adj| && isLeft[queue[k]] && level[queue[k]] >= 0
  }

  /** The vertices with a negative level. */
  ghost function UnvisitedOf(level: seq<int>): (u: set<nat>)
  {
    set x | 0 <= x < |level| && level[x] < 0
  }

  /** Visiting an unvisited vertex removes exactly it from the unvisited ones. */
  lemma VisitOne(level: seq<int>, x: nat, d: int)
    requires x < |level| && level[x] < 0 && d >= 0
    ensures |UnvisitedOf(level[x := d])| == |UnvisitedOf(level)| - 1
  {
    assert UnvisitedOf(level[x := d]) == UnvisitedOf(level) - {x};
  }

  /** Vertex x was reached from the left vertex p one level up, through p's edge j. */
  ghost predicate HasParent(adj: seq<seq<nat>>, isLeft: seq<bool>, pair: seq<nat>, level: seq<int>, x: nat)
    requires Shape(adj, pair, level) && |isLeft| == |adj| && x < |adj|
  {
    exists p, j :: 0 <= p < |adj| && isLeft[p] && 0 <= j < |adj[p]| && level[p] == level[x] - 1 && pair[adj[p][j]] == x
  }

  /** Visited left vertices and the sentinel are unmatched roots at level 0 or have a parent. */
  ghost predicate Rooted(adj: seq<seq<nat>>, isLeft: seq<bool>, pair: seq<nat>, level: seq<int>)
    requires Shape(adj, pair, level) && |isLeft| == |adj|
  {
    forall x {:trigger Visited(level, x)} :: 0 <= x < |adj| && (isLeft[x] || x == Sentinel) && Visited(level, x) ==>
      (level[x] == 0 && isLeft[x] && pair[x] == Sentinel) || (level[x] > 0 && HasParent(adj, isLeft, pair, level, x))
  }

  /** The search has given x a level. */
  predicate Visited(level: seq<int>, x: nat)
    requires x < |level|
  {
    level[x] >= 0
  }

  /** Visiting a new vertex at one level below a visited left vertex keeps every vertex rooted. */
  lemma ParentsKept(adj: seq<seq<nat>>, isLeft: seq<bool>, pair: seq<nat>, level0: seq<int>, level1: seq<int>,
                    next: nat, l: nat, e: nat)
    requires Shape(adj, pair, level0) && |isLeft| == |adj| && Rooted(adj, isLeft, pair, level0)
    requires next < |adj| && level0[next] < 0 && l < |adj| && isLeft[l] && level0[l] >= 0
    requires e < |adj[l]| && pair[adj[l][e]] == next && level1 == level0[next := level0[l] + 1]
    ensures Shape(adj, pair, level1) && Rooted(adj, isLeft, pair, level1)
  {
    forall x | 0 <= x < |adj| && (isLeft[x] || x == Sentinel) && Visited(level1, x)
      ensures (level1[x] == 0 && isLeft[x] && pair[x] == Sentinel) || (level1[x] > 0 && HasParent(adj, isLeft, pair, level1, x))
    {
      if x == next {
        assert level1[l] == level1[x] - 1;
      } else {
        assert Visited(level0, x);
      }
      if x != next && level0[x] > 0 {
        var p, j :| 0 <= p < |adj| && isLeft[p] && 0 <= j < |adj[p]| && level0[p] == level0[x] - 1 && pair[adj[p][j]] == x;
        assert level1[p] == level1[x] - 1;
      }
    }
  }

  /** One visit of the search, on the state's values. */
  lemma VisitStep(adj: seq<seq<nat>>, isLeft: seq<bool>, pair: seq<nat>, level: seq<int>, top: int,
                  queue: seq<nat>, l: nat, e: nat, level': seq<int>, top': int, queue': seq<nat>)
    requires Shape(adj, pair, level) && |isLeft| == |adj| && Levels(level, top)
    requires Queued(adj, isLeft, level, queue) && Rooted(adj, isLeft, pair, level)
    requires l < |adj| && isLeft[l] && level[l] >= 0 && e < |adj[l]| && level[pair[adj[l][e]]] < 0
    requires isLeft[pair[adj[l][e]]] || pair[adj[l][e]] == Sentinel
    requires level' == level[pair[adj[l][e]] := level[l] + 1]
    requires top' == if level[l] + 1 > top then level[l] + 1 else top
    requires queue' == if pair[adj[l][e]] != Sentinel then queue + [pair[adj[l][e]]] else queue
    ensures Shape(adj, pair, level') && Levels(level', top')
    ensures Queued(adj, isLeft, level', queue') && Rooted(adj, isLeft, pair, level')
    ensures |UnvisitedOf(level')| + |queue'| <= |UnvisitedOf(level)| + |queue| && level'[l] == level[l]
  {
    var next, depth := pair[adj[l][e]], level[l] + 1;
    VisitOne(level, next, depth);
    ParentsKept(adj, isLeft, pair, level, level', next, l, e);
  }

  /** Following parents up from a visited vertex with a layered path ends at an unmatched left vertex with one. */
  lemma {:induction false} SentinelReached(adj: seq<seq<nat>>, isLeft: seq<bool>, pair: seq<nat>, level: seq<int>, top: int, x: nat)
    requires Shape(adj, pair, level) && |isLeft| == |adj| && Rooted(adj, isLeft, pair, level)
    requires x < |adj| && (isLeft[x] || x == Sentinel) && 0 <= level[x] <= top && Reach(adj, pair, level, top, x)
    ensures exists v :: 0 <= v < |adj| && isLeft[v] && pair[v] == Sentinel && Reach(adj, pair, level, top, v)
    decreases level[x]
  {
    assert Visited(level, x);
    if level[x] > 0 {
      var p, j :| 0 <= p < |adj| && isLeft[p] && 0 <= j < |adj[p]| && level[p] == level[x] - 1 && pair[adj[p][j]] == x;
      assert Reach(adj, pair, level, top, p);
      SentinelReached(adj, isLeft, pair, level, top, p);
    }
  }

  // ---------------------------------------------------------------
  // The algorithm's state.
  // ---------------------------------------------------------------

  /**
   * The vertex table of `MaximumBipartiteMatching::Algorithm`: the
   * adjacency and sides fixed by `initialize`, and per vertex its pair
   * and its search level (-1 = unvisited).
   */
  class Matcher {
    const adj: seq<seq<nat>>
    const isLeft: seq<bool>
    const leftSet: seq<nat>
    var pair: seq<nat>
    var level: seq<int>
    /** An upper bound of every level, which bounds the depth of the flipping recursion. */
    ghost var top: int

    ghost predicate Inv()
      reads this
    {
      GraphOk(adj, isLeft) && Shape(adj, pair, level) && pair[Sentinel] == Sentinel &&
      (forall k :: 0 <= k < |leftSet| ==> leftSet[k] < |adj| && isLeft[leftSet[k]]) &&
      Levels(level, top)
    }

    /** `leftSet_` lists every left vertex. */
    ghost predicate Listed()
    {
      forall x :: 0 <= x < |adj| && x < |isLeft| && isLeft[x] ==> x in leftSet
    }

    /** Every vertex starts unmatched, as the `Vertex` constructor sets it. */
    constructor (adj: seq<seq<nat>>, isLeft: seq<bool>, leftSet: seq<nat>)
      requires GraphOk(adj, isLeft)
      requires forall k :: 0 <= k < |leftSet| ==> leftSet[k] < |adj| && isLeft[leftSet[k]]
      requires forall x :: 0 <= x < |adj| && isLeft[x] ==> x in leftSet
      ensures Inv() && Listed() && Matching(adj, isLeft, pair) && Matched(pair) == {}
      ensures this.adj == adj && this.isLeft == isLeft && this.leftSet == leftSet
    {
      this.adj, this.isLeft, this.leftSet := adj, isLeft, leftSet;
      pair := seq(|adj|, _ => Sentinel);
      level := seq(|adj|, _ => 0);
      top := 0;
    }

    /** `right.setPair(left)` followed by `left.setPair(right)`. */
    method SetPairs(right: nat, left: nat)
      requires Inv() && right < |adj| && left < |adj| && right != Sentinel && left != Sentinel
      modifies this
      ensures pair == old(pair)[right := left][left := right] && level == old(level) && top == old(top)
      ensures Inv()
    {
      pair := pair[right := left];
      pair := pair[left := right];
    }

    /**
     * `flipPossibleAugmentingPath(v)`: searches depth-first, one level
     * deeper at each step, for a path to the sentinel and flips the pairs
     * along it. On success v is matched anew (its former partner is left
     * for the caller to re-pair); on failure the pairs are untouched, v
     * had no layered path and is unvisited, and so are only other dead
     * ends deeper than v.
     */
    method Flip(v: nat) returns (ok: bool)
      requires Inv() && Matching(adj, isLeft, pair) && v < |adj| && (v == Sentinel || isLeft[v])
      modifies this
      decreases top - level[v], 1
      ensures Inv() && top == old(top)
      ensures LevelFrame(old(level), level, old(level[v]))
      ensures v == Sentinel ==> ok && pair == old(pair) && level == old(level)
      ensures ok && v != Sentinel ==> Flipped(adj, isLeft, old(pair), pair, old(level), v)
      ensures !ok ==> pair == old(pair) && Unvisits(adj, pair, old(level), level, top)
      ensures !ok ==> !Reach(adj, pair, old(level), top, v)
    {
      if v == Sentinel {
        return true;
      }
      ok := FlipEdges(v);
      if !ok {
        ghost var level1 := level;
        level := level[v := -1];
        assert Unvisits(adj, pair, old(level), level, top) by {
          forall x | 0 <= x < |level| && level[x] != old(level)[x]
            ensures level[x] == -1 && !Reach(adj, pair, old(level), top, x)
          {
            if x != v {
              assert level1[x] != old(level)[x];
            }
          }
        }
      }
    }

    /** The loop of `flipPossibleAugmentingPath` over v's edges, in order. */
    method FlipEdges(v: nat) returns (ok: bool)
      requires Inv() && Matching(adj, isLeft, pair) && 0 < v < |adj| && isLeft[v]
      modifies this
      decreases top - level[v], 0
      ensures Inv() && top == old(top)
      ensures LevelFrame(old(level), level, old(level[v]) + 1)
      ensures ok ==> Flipped(adj, isLeft, old(pair), pair, old(level), v)
      ensures !ok ==> pair == old(pair) && Unvisits(adj, pair, old(level), level, top)
      ensures !ok ==> DeadEnd(adj, pair, old(level), top, v)
    {
      ghost var pair0, level0 := pair, level;
      var i := 0;
      while i < |adj[v]|
        invariant 0 <= i <= |adj[v]|
        invariant Inv() && top == old(top) && pair == pair0
        invariant LevelFrame(level0, level, level0[v] + 1)
        invariant Unvisits(adj, pair, level0, level, top)
        invariant forall k :: 0 <= k < i ==>
          !(level0[pair0[adj[v][k]]] == level0[v] + 1 && Reach(adj, pair0, level0, top, pair0[adj[v][k]]))
      {
        var r := adj[v][i];
        var next := pair[r];
        if level[next] == level[v] + 1 {
          ghost var level1 := level;
          assert isLeft[next] || next == Sentinel by {
            assert PairOk(adj, isLeft, pair, r);
          }
          var found := Flip(next);
          if found {
            AugmentStep(adj, isLeft, pair0, pair, level0, level1, v, i);
            SetPairs(r, v);
            return true;
          }
          FailedEdge(adj, pair, level0, level1, level, top, next, level0[v] + 1);
        } else if level0[next] == level0[v] + 1 {
          assert level[next] != level0[next];
        }
        i := i + 1;
      }
      ok := false;
    }

    /**
     * One round of the outer loop of `work`: a flip from every unmatched
     * left vertex, in `leftSet_` order. The matching never shrinks, and
     * when an augmenting path existed at the start it grows.
     */
    method FlipAll()
      requires Inv() && Listed() && Matching(adj, isLeft, pair)
      modifies this
      ensures Inv() && Matching(adj, isLeft, pair) && top == old(top)
      ensures Grows(old(pair), pair)
      ensures old(Augmentable()) ==> exists w :: 0 <= w < |adj| && old(pair)[w] == Sentinel && pair[w] != Sentinel
    {
      ghost var pair0, level0 := pair, level;
      ghost var grown := false;
      ghost var w: nat := 0;
      for i := 0 to |leftSet|
        invariant Inv() && Matching(adj, isLeft, pair) && top == old(top) && Grows(pair0, pair)
        invariant grown ==> w < |adj| && pair0[w] == Sentinel && pair[w] != Sentinel
        invariant !grown ==> pair == pair0 && Unvisits(adj, pair0, level0, level, top)
        invariant !grown ==> forall k :: 0 <= k < i && pair0[leftSet[k]] == Sentinel ==>
          !Reach(adj, pair0, level0, top, leftSet[k])
      {
        var l := leftSet[i];
        if pair[l] == Sentinel {
          ghost var level1 := level;
          var ok := Flip(l);
          if ok {
            if !grown {
              grown, w := true, l;
            }
          } else if !grown {
            UnvisitsChain(adj, pair0, level0, level1, level, top);
            if Reach(adj, pair0, level0, top, l) {
              UnvisitsKeepReach(adj, pair0, level0, level1, top, l);
            }
          }
        }
      }
      assert !grown ==> !old(Augmentable()) by {
        if !grown {
          forall v | 0 <= v < |adj| && isLeft[v] && pair0[v] == Sentinel
            ensures !Reach(adj, pair0, level0, top, v)
          {
            var k :| 0 <= k < |leftSet| && leftSet[k] == v;
          }
        }
      }
    }

    /** The vertices the search has not visited. */
    ghost function Unvisited(): (u: set<nat>)
      reads this
    {
      UnvisitedOf(level)
    }

    /**
     * What the breadth-first search keeps: the queue holds visited left
     * vertices; the visited left vertices at level 0 are the unmatched
     * ones, and every other visited left vertex or the sentinel was
     * reached from a vertex one level up.
     */
    ghost predicate Searching(queue: seq<nat>)
      requires Inv()
      reads this
    {
      Queued(adj, isLeft, level, queue) && Rooted(adj, isLeft, pair, level)
    }

    /**
     * `findAugmentingPaths`: levels every left vertex by the length of
     * the shortest alternating path from an unmatched left vertex, and
     * reports whether the sentinel was reached; if it was, an augmenting
     * layered path exists.
     */
    method FindAugmentingPaths() returns (found: bool)
      requires Inv() && Listed() && Matching(adj, isLeft, pair)
      modifies this
      ensures Inv() && pair == old(pair)
      ensures found <==> level[Sentinel] >= 0
      ensures found ==> Augmentable()
    {
      var queue := ResetLevels();
      while queue != []
        invariant Inv() && pair == old(pair) && Searching(queue)
        decreases |Unvisited()| + |queue|
      {
        var l := queue[0];
        queue := VisitEdges(l, queue[1..]);
      }
      found := level[Sentinel] >= 0;
      if found {
        SentinelReached(adj, isLeft, pair, level, top, Sentinel);
      }
    }

    /** The inner loop of `findAugmentingPaths`: visits the partners of l's neighbours and queues the new left ones. */
    method VisitEdges(l: nat, queue0: seq<nat>) returns (queue: seq<nat>)
      requires Inv() && Matching(adj, isLeft, pair) && Searching(queue0)
      requires l < |adj| && isLeft[l] && level[l] >= 0
      modifies this
      ensures Inv() && pair == old(pair) && Searching(queue)
      ensures |Unvisited()| + |queue| <= old(|Unvisited()|) + |queue0|
    {
      queue := queue0;
      var e := 0;
      while e < |adj[l]|
        invariant Inv() && pair == old(pair) && 0 <= e <= |adj[l]| && level[l] >= 0
        invariant Searching(queue)
        invariant |Unvisited()| + |queue| <= old(|Unvisited()|) + |queue0|
      {
        var next := pair[adj[l][e]];
        if level[next] < 0 {
          assert PairOk(adj, isLeft, pair, adj[l][e]);
          queue := Visit(l, e, queue);
        }
        e := e + 1;
      }
    }

    /** `nextLeft.visit(left.level() + 1)`, queueing nextLeft unless it is the sentinel. */
    method Visit(l: nat, e: nat, queue0: seq<nat>) returns (queue: seq<nat>)
      requires Inv() && Searching(queue0)
      requires l < |adj| && isLeft[l] && level[l] >= 0 && e < |adj[l]| && level[pair[adj[l][e]]] < 0
      requires isLeft[pair[adj[l][e]]] || pair[adj[l][e]] == Sentinel
      modifies this
      ensures Inv() && pair == old(pair) && Searching(queue)
      ensures |Unvisited()| + |queue| <= old(|Unvisited()|) + |queue0|
      ensures level[l] == old(level[l])
    {
      var next := pair[adj[l][e]];
      var depth := level[l] + 1;
      var level' := level[next := depth];
      ghost var top' := if depth > top then depth else top;
      queue := if next != Sentinel then queue0 + [next] else queue0;
      VisitStep(adj, isLeft, pair, level, top, queue0, l, e, level', top', queue);
      level, top := level', top';
    }

    /** The start of `findAugmentingPaths`: unmatched left vertices at level 0 and queued, all else unvisited. */
    method ResetLevels() returns (queue: seq<nat>)
      requires Inv() && Listed() && Matching(adj, isLeft, pair)
      modifies this
      ensures Inv() && pair == old(pair) && top == old(top) && Searching(queue)
    {
      level := level[Sentinel := -1];
      queue := [];
      for i := 0 to |leftSet|
        invariant Inv() && pair == old(pair) && top == old(top) && level[Sentinel] == -1
        invariant forall k :: 0 <= k < i ==> level[leftSet[k]] == if pair[leftSet[k]] == Sentinel then 0 else -1
        invariant forall k :: 0 <= k < |queue| ==> queue[k] < |adj| && isLeft[queue[k]] && level[queue[k]] >= 0
        invariant forall k :: 0 <= k < |queue| ==> pair[queue[k]] == Sentinel
      {
        var l := leftSet[i];
        ghost var level0 := level;
        if pair[l] == Sentinel {
          level := level[l := 0];
          queue := queue + [l];
        } else {
          level := level[l := -1];
        }
        forall k | 0 <= k <= i
          ensures level[leftSet[k]] == if pair[leftSet[k]] == Sentinel then 0 else -1
        {
          if leftSet[k] != l {
            assert level[leftSet[k]] == level0[leftSet[k]];
          }
        }
      }
      forall x | 0 <= x < |adj| && (isLeft[x] || x == Sentinel)
        ensures level[x] == -1 || (level[x] == 0 && isLeft[x] && pair[x] == Sentinel)
      {
        if x != Sentinel {
          var k :| 0 <= k < |leftSet| && leftSet[k] == x;
        }
      }
    }

    /** The layered paths of the current state. */
    ghost predicate Reaches(v: nat)
      requires Inv() && v < |adj|
      reads this
    {
      Reach(adj, pair, level, top, v)
    }

    /** Some unmatched left vertex has a layered path to the sentinel: an augmenting path. */
    ghost predicate Augmentable()
      requires Inv()
      reads this
    {
      exists v :: 0 <= v < |adj| && isLeft[v] && pair[v] == Sentinel && Reach(adj, pair, level, top, v)
    }
  }

  // ---------------------------------------------------------------
  // The outer loop.
  // ---------------------------------------------------------------

  lemma {:induction false} CardBound(s: set<nat>, n: nat)
    requires forall x :: x in s ==> x < n
    ensures |s| <= n
  {
    if n > 0 {
      CardBound(s - {n - 1}, n - 1);
    } else {
      assert s == {};
    }
  }

  lemma {:induction false} SubsetCard(a: set<nat>, b: set<nat>)
    requires a <= b
    ensures |a| <= |b|
    decreases |a|
  {
    if a != {} {
      var x :| x in a;
      SubsetCard(a - {x}, b - {x});
    }
  }

  /** A round that matches a new vertex and unmatches none matches strictly more vertices. */
  lemma MatchedGrows(pair0: seq<nat>, pair1: seq<nat>, w: nat)
    requires Grows(pair0, pair1) && w < |pair0| && pair0[w] == Sentinel && pair1[w] != Sentinel
    ensures |Matched(pair0)| < |Matched(pair1)|
  {
    SubsetCard(Matched(pair0), Matched(pair1) - {w});
  }

  /**
   * The loop of `work`: rounds of search and flipping while the search
   * reaches the sentinel. Each round matches more vertices, so the loop
   * ends, with a matching of the graph's edges.
   */
  method Run(adj: seq<seq<nat>>, isLeft: seq<bool>, leftSet: seq<nat>) returns (m: Matcher)
    requires GraphOk(adj, isLeft)
    requires forall k :: 0 <= k < |leftSet| ==> leftSet[k] < |adj| && isLeft[leftSet[k]]
    requires forall x :: 0 <= x < |adj| && isLeft[x] ==> x in leftSet
    ensures m.adj == adj && m.isLeft == isLeft && m.leftSet == leftSet
    ensures m.Inv() && Matching(adj, isLeft, m.pair) && m.level[Sentinel] < 0
  {
    m := new Matcher(adj, isLeft, leftSet);
    var found := m.FindAugmentingPaths();
    while found
      invariant m.adj == adj && m.isLeft == isLeft && m.leftSet == leftSet
      invariant m.Inv() && m.Listed() && Matching(adj, isLeft, m.pair)
      invariant found ==> m.Augmentable()
      invariant found <==> m.level[Sentinel] >= 0
      decreases |adj| - |Matched(m.pair)|
    {
      ghost var pair0 := m.pair;
      CardBound(Matched(m.pair), |adj|);
      m.FlipAll();
      ghost var w :| 0 <= w < |adj| && pair0[w] == Sentinel && m.pair[w] != Sentinel;
      MatchedGrows(pair0, m.pair, w);
      CardBound(Matched(m.pair), |adj|);
      found := m.FindAugmentingPaths();
    }
  }

  // ---------------------------------------------------------------
  // Building the graph: identification of the input objects.
  // ---------------------------------------------------------------

  /**
   * The integer ids `initialize` gives the input's objects: left and
   * right objects are identified by separate maps, so an object may
   * appear on both sides and still be two vertices.
   */
  datatype Ids<L, R> = Ids(leftMap: map<L, nat>, rightMap: map<R, nat>,
                           inverseLeft: map<nat, L>, inverseRight: map<nat, R>,
                           leftSet: seq<nat>, vertices: nat)

  /** The left map and its inverse agree, on ids 1 .. vertices-1. */
  ghost predicate LeftIds<L, R>(ids: Ids<L, R>)
  {
    (forall a :: a in ids.leftMap ==> ids.leftMap[a] in ids.inverseLeft && ids.inverseLeft[ids.leftMap[a]] == a) &&
    (forall i :: i in ids.inverseLeft ==> 0 < i < ids.vertices && ids.inverseLeft[i] in ids.leftMap && ids.leftMap[ids.inverseLeft[i]] == i)
  }

  /** The right map and its inverse agree, on ids 1 .. vertices-1. */
  ghost predicate RightIds<L, R>(ids: Ids<L, R>)
  {
    (forall b :: b in ids.rightMap ==> ids.rightMap[b] in ids.inverseRight && ids.inverseRight[ids.rightMap[b]] == b) &&
    (forall i :: i in ids.inverseRight ==> 0 < i < ids.vertices && ids.inverseRight[i] in ids.rightMap && ids.rightMap[ids.inverseRight[i]] == i)
  }

  /**
   * Every id but the sentinel's belongs to exactly one left or right
   * object, and leftSet lists the left ids once each.
   */
  ghost predicate IdsOk<L, R>(ids: Ids<L, R>)
  {
    ids.vertices >= 1 && LeftIds(ids) && RightIds(ids) &&
    (forall i :: i in ids.inverseLeft ==> i !in ids.inverseRight) &&
    (forall i :: 0 < i < ids.vertices ==> i in ids.inverseLeft || i in ids.inverseRight) &&
    (forall k, l :: 0 <= k < l < |ids.leftSet| ==> ids.leftSet[k] != ids.leftSet[l]) &&
    (forall i :: i in ids.inverseLeft <==> i in ids.leftSet)
  }

  /** The first n input pairs have ids, and edgeSet holds their edges in both directions. */
  ghost predicate Identified<L, R>(input: seq<(L, R)>, n: nat, ids: Ids<L, R>, edgeSet: seq<(nat, nat)>)
    requires n <= |input|
  {
    |edgeSet| == 2 * n &&
    forall t :: 0 <= t < n ==>
      input[t].0 in ids.leftMap && input[t].1 in ids.rightMap &&
      edgeSet[2 * t] == (ids.leftMap[input[t].0], ids.rightMap[input[t].1]) &&
      edgeSet[2 * t + 1] == (ids.rightMap[input[t].1], ids.leftMap[input[t].0])
  }

  /** Some edge leaves vertex i. */
  ghost predicate Source(edgeSet: seq<(nat, nat)>, i: nat)
  {
    exists t :: 0 <= t < |edgeSet| && edgeSet[t].0 == i
  }

  lemma SourceGrows(edgeSet: seq<(nat, nat)>, more: seq<(nat, nat)>, i: nat)
    requires Source(edgeSet, i)
    ensures Source(edgeSet + more, i)
  {
    var t :| 0 <= t < |edgeSet| && edgeSet[t].0 == i;
    assert (edgeSet + more)[t] == edgeSet[t];
  }

  /** The vertices are induced by the edges: every vertex but the sentinel has one. */
  ghost predicate Used(vertices: nat, edgeSet: seq<(nat, nat)>)
  {
    forall i :: 0 < i < vertices ==> Source(edgeSet, i)
  }

  /** `identify` of a left object: its id, a new one if it is seen for the first time. */
  method IdentifyLeft<L, R>(ids0: Ids<L, R>, left: L) returns (ids: Ids<L, R>, i: nat)
    requires IdsOk(ids0)
    ensures IdsOk(ids) && left in ids.leftMap && ids.leftMap[left] == i && 0 < i < ids.vertices
    ensures left in ids0.leftMap ==> ids == ids0
    ensures left !in ids0.leftMap ==> i == ids0.vertices && ids.vertices == ids0.vertices + 1
    ensures forall a :: a in ids0.leftMap ==> a in ids.leftMap && ids.leftMap[a] == ids0.leftMap[a]
    ensures ids.rightMap == ids0.rightMap && ids.inverseRight == ids0.inverseRight
  {
    ids := ids0;
    if left in ids.leftMap {
      i := ids.leftMap[left];
    } else {
      i := ids.vertices;
      assert i !in ids.inverseLeft && i !in ids.inverseRight;
      assert i !in ids.leftSet;
      ids := ids.(leftMap := ids.leftMap[left := i], inverseLeft := ids.inverseLeft[i := left],
                  leftSet := ids.leftSet + [i], vertices := ids.vertices + 1);
    }
  }

  /** `identify` of a right object: its id, a new one if it is seen for the first time. */
  method IdentifyRight<L, R>(ids0: Ids<L, R>, right: R) returns (ids: Ids<L, R>, j: nat)
    requires IdsOk(ids0)
    ensures IdsOk(ids) && right in ids.rightMap && ids.rightMap[right] == j && 0 < j < ids.vertices
    ensures right in ids0.rightMap ==> ids == ids0
    ensures right !in ids0.rightMap ==> j == ids0.vertices && ids.vertices == ids0.vertices + 1
    ensures forall b :: b in ids0.rightMap ==> b in ids.rightMap && ids.rightMap[b] == ids0.rightMap[b]
    ensures ids.leftMap == ids0.leftMap && ids.inverseLeft == ids0.inverseLeft
  {
    ids := ids0;
    if right in ids.rightMap {
      j := ids.rightMap[right];
    } else {
      j := ids.vertices;
      assert j !in ids.inverseRight && j !in ids.inverseLeft;
      ids := ids.(rightMap := ids.rightMap[right := j], inverseRight := ids.inverseRight[j := right],
                  vertices := ids.vertices + 1);
    }
  }

  /**
   * The identification loop of `initialize`: a left object seen for the
   * first time gets the next id and is listed in leftSet, then a right
   * object seen for the first time gets the next id, and the edge is
   * recorded in both directions.
   */
  method Identify<L(==), R(==)>(input: seq<(L, R)>) returns (ids: Ids<L, R>, edgeSet: seq<(nat, nat)>)
    ensures IdsOk(ids) && Identified(input, |input|, ids, edgeSet) && Used(ids.vertices, edgeSet)
  {
    ids := Ids(map[], map[], map[], map[], [], 1);
    edgeSet := [];
    for n := 0 to |input|
      invariant IdsOk(ids) && Identified(input, n, ids, edgeSet) && Used(ids.vertices, edgeSet)
    {
      var ids0, edgeSet0 := ids, edgeSet;
      var idsL, i := IdentifyLeft(ids, input[n].0);
      var j;
      ids, j := IdentifyRight(idsL, input[n].1);
      assert i != j;
      edgeSet := edgeSet + [(i, j), (j, i)];
      IdentifyStep(input, n, ids0, edgeSet0, ids, edgeSet, i, j);
    }
  }

  lemma IdentifyStep<L, R>(input: seq<(L, R)>, n: nat, ids0: Ids<L, R>, edgeSet0: seq<(nat, nat)>,
                           ids: Ids<L, R>, edgeSet: seq<(nat, nat)>, i: nat, j: nat)
    requires n < |input| && Identified(input, n, ids0, edgeSet0) && Used(ids0.vertices, edgeSet0)
    requires forall a :: a in ids0.leftMap ==> a in ids.leftMap && ids.leftMap[a] == ids0.leftMap[a]
    requires forall b :: b in ids0.rightMap ==> b in ids.rightMap && ids.rightMap[b] == ids0.rightMap[b]
    requires input[n].0 in ids.leftMap && ids.leftMap[input[n].0] == i
    requires input[n].1 in ids.rightMap && ids.rightMap[input[n].1] == j
    requires ids0.vertices <= ids.vertices <= ids0.vertices + 2
    requires ids.vertices > ids0.vertices ==> i == ids0.vertices || j == ids0.vertices
    requires ids.vertices == ids0.vertices + 2 ==> j == ids0.vertices + 1
    requires edgeSet == edgeSet0 + [(i, j), (j, i)]
    ensures Identified(input, n + 1, ids, edgeSet) && Used(ids.vertices, edgeSet)
  {
    forall x | 0 < x < ids.vertices
      ensures Source(edgeSet, x)
    {
      if x < ids0.vertices {
        SourceGrows(edgeSet0, [(i, j), (j, i)], x);
      } else if x == i {
        assert edgeSet[2 * n].0 == x;
      } else {
        assert edgeSet[2 * n + 1].0 == x;
      }
    }
  }

  // ---------------------------------------------------------------
  // Building the graph: the adjacency lists.
  // ---------------------------------------------------------------

  /** How many times e occurs in s. */
  function Count<T(==)>(s: seq<T>, e: T): (c: nat)
    ensures c <= |s|
  {
    if s == [] then 0 else (if s[0] == e then 1 else 0) + Count(s[1..], e)
  }

  lemma {:induction false} CountPositive<T>(s: seq<T>, e: T)
    ensures Count(s, e) > 0 <==> e in s
  {
    if s != [] {
      CountPositive(s[1..], e);
      assert s == [s[0]] + s[1..];
    }
  }

  lemma {:induction false} CountAppend<T>(a: seq<T>, b: seq<T>, e: T)
    ensures Count(a + b, e) == Count(a, e) + Count(b, e)
  {
    if a == [] {
      assert a + b == b;
    } else {
      assert (a + b)[1..] == a[1..] + b;
      CountAppend(a[1..], b, e);
    }
  }

  /** Count is the multiplicity of the sequence's multiset. */
  lemma {:induction false} CountMultiset<T>(s: seq<T>, e: T)
    ensures multiset(s)[e] == Count(s, e)
  {
    if s != [] {
      assert s == [s[0]] + s[1..];
      CountMultiset(s[1..], e);
    }
  }

  /**
   * The neighbours y0 <= y < n of x in the directed edges, ascending,
   * each as often as the edge occurs: the interval of x in the sorted
   * edge set, from y0 on.
   */
  function NeighboursFrom(edgeSet: seq<(nat, nat)>, x: nat, y0: nat, n: nat): (ys: seq<nat>)
    ensures forall k :: 0 <= k < |ys| ==> y0 <= ys[k] < n && (x, ys[k]) in edgeSet
    ensures forall k, k' :: 0 <= k < k' < |ys| ==> ys[k] <= ys[k']
    decreases n - y0
  {
    if y0 >= n then []
    else
      var c := Count(edgeSet, (x, y0));
      CountPositive(edgeSet, (x, y0));
      Repeat(c, y0) + NeighboursFrom(edgeSet, x, y0 + 1, n)
  }

  lemma {:induction false} CountNeighbours(edgeSet: seq<(nat, nat)>, x: nat, y0: nat, n: nat, y: nat)
    ensures Count(NeighboursFrom(edgeSet, x, y0, n), y) == if y0 <= y < n then Count(edgeSet, (x, y)) else 0
    decreases n - y0
  {
    if y0 < n {
      var c := Count(edgeSet, (x, y0));
      var rest := NeighboursFrom(edgeSet, x, y0 + 1, n);
      assert NeighboursFrom(edgeSet, x, y0, n) == Repeat(c, y0) + rest;
      CountAppend(Repeat(c, y0), rest, y);
      CountRepeat(c, y0, y);
      CountNeighbours(edgeSet, x, y0 + 1, n, y);
    }
  }

  lemma {:induction false} CountRepeat(c: nat, y0: nat, y: nat)
    ensures Count(Repeat(c, y0), y) == if y == y0 then c else 0
  {
    if c > 0 {
      assert Repeat(c, y0)[1..] == Repeat(c - 1, y0);
      CountRepeat(c - 1, y0, y);
    }
  }

  /** c copies of y. */
  function Repeat(c: nat, y: nat): (ys: seq<nat>)
    ensures |ys| == c && forall k :: 0 <= k < c ==> ys[k] == y
  {
    seq(c, _ => y)
  }

  /** The edges (x, y) for y in ys. */
  function Tagged(x: nat, ys: seq<nat>): (es: seq<(nat, nat)>)
    ensures |es| == |ys| && forall k :: 0 <= k < |ys| ==> es[k] == (x, ys[k])
  {
    seq(|ys|, k requires 0 <= k < |ys| => (x, ys[k]))
  }

  lemma {:induction false} CountTagged(x: nat, ys: seq<nat>, e: (nat, nat))
    ensures Count(Tagged(x, ys), e) == if e.0 == x then Count(ys, e.1) else 0
  {
    if ys != [] {
      assert Tagged(x, ys)[1..] == Tagged(x, ys[1..]);
      CountTagged(x, ys[1..], e);
    }
  }

  /** The directed edges out of x0 .. n-1, ordered by source and then by target. */
  function SortedFrom(edgeSet: seq<(nat, nat)>, x0: nat, n: nat): (es: seq<(nat, nat)>)
    ensures forall k :: 0 <= k < |es| ==> x0 <= es[k].0 < n
    decreases n - x0
  {
    if x0 >= n then [] else Tagged(x0, NeighboursFrom(edgeSet, x0, 0, n)) + SortedFrom(edgeSet, x0 + 1, n)
  }

  /** The lexicographic order of std::pair. */
  predicate PairLe(a: (nat, nat), b: (nat, nat))
  {
    a.0 < b.0 || (a.0 == b.0 && a.1 <= b.1)
  }

  /** The edges are in std::pair order. */
  ghost predicate PairSorted(es: seq<(nat, nat)>)
  {
    forall k, k' :: 0 <= k < k' < |es| ==> PairLe(es[k], es[k'])
  }

  lemma {:induction false} SortedFromSorted(edgeSet: seq<(nat, nat)>, x0: nat, n: nat)
    ensures PairSorted(SortedFrom(edgeSet, x0, n))
    decreases n - x0
  {
    if x0 < n {
      var ys := NeighboursFrom(edgeSet, x0, 0, n);
      var front := Tagged(x0, ys);
      var rest := SortedFrom(edgeSet, x0 + 1, n);
      SortedFromSorted(edgeSet, x0 + 1, n);
      var es := front + rest;
      assert es == SortedFrom(edgeSet, x0, n);
      forall k, k' | 0 <= k < k' < |es|
        ensures PairLe(es[k], es[k'])
      {
        if k' < |front| {
          assert es[k] == (x0, ys[k]) && es[k'] == (x0, ys[k']);
          assert ys[k] <= ys[k'];
        } else if k < |front| {
          assert es[k] == front[k] && es[k'] == rest[k' - |front|];
          assert es[k].0 == x0 < es[k'].0;
        } else {
          assert es[k] == rest[k - |front|] && es[k'] == rest[k' - |front|];
          assert PairLe(rest[k - |front|], rest[k' - |front|]);
        }
      }
    }
  }

  lemma {:induction false} CountSortedFrom(edgeSet: seq<(nat, nat)>, x0: nat, n: nat, e: (nat, nat))
    ensures Count(SortedFrom(edgeSet, x0, n), e) == if x0 <= e.0 < n && e.1 < n then Count(edgeSet, e) else 0
    decreases n - x0
  {
    if x0 < n {
      var ys := NeighboursFrom(edgeSet, x0, 0, n);
      CountAppend(Tagged(x0, ys), SortedFrom(edgeSet, x0 + 1, n), e);
      CountTagged(x0, ys, e);
      CountNeighbours(edgeSet, x0, 0, n, e.1);
      CountSortedFrom(edgeSet, x0 + 1, n, e);
    }
  }

  /**
   * What std::sort makes of the directed edges: the same edges, ordered
   * as std::pair orders them.
   */
  function SortEdges(edgeSet: seq<(nat, nat)>, n: nat): (sorted: seq<(nat, nat)>)
    requires forall t :: 0 <= t < |edgeSet| ==> edgeSet[t].0 < n && edgeSet[t].1 < n
    ensures multiset(sorted) == multiset(edgeSet)
    ensures PairSorted(sorted)
  {
    var sorted := SortedFrom(edgeSet, 0, n);
    SortedFromSorted(edgeSet, 0, n);
    forall e: (nat, nat)
      ensures multiset(sorted)[e] == multiset(edgeSet)[e]
    {
      CountMultiset(sorted, e);
      CountMultiset(edgeSet, e);
      CountSortedFrom(edgeSet, 0, n, e);
      if !(e.0 < n && e.1 < n) {
        assert e !in edgeSet;
      }
    }
    sorted
  }

  lemma TaggedFront(x: nat, ys: seq<nat>, rest: seq<(nat, nat)>)
    ensures ys != [] ==> (Tagged(x, ys) + rest)[0] == (x, ys[0])
    ensures ys != [] ==> (Tagged(x, ys) + rest)[1..] == Tagged(x, ys[1..]) + rest
  {
    if ys != [] {
      assert Tagged(x, ys)[1..] == Tagged(x, ys[1..]);
    }
  }

  /**
   * The adjacency loop of `initialize`: the sorted edges of each vertex
   * form an interval, and their targets become its adjacency list.
   */
  method Adjacency(edgeSet: seq<(nat, nat)>, vertices: nat) returns (adj: seq<seq<nat>>)
    requires forall t :: 0 <= t < |edgeSet| ==> edgeSet[t].0 < vertices && edgeSet[t].1 < vertices
    ensures |adj| == vertices
    ensures forall x :: 0 <= x < vertices ==> adj[x] == NeighboursFrom(edgeSet, x, 0, vertices)
  {
    var sorted := SortEdges(edgeSet, vertices);
    var edge: nat := 0;
    adj := [];
    for i := 0 to vertices
      invariant |adj| == i && edge <= |sorted|
      invariant sorted[edge..] == SortedFrom(edgeSet, i, vertices)
      invariant forall x :: 0 <= x < i ==> adj[x] == NeighboursFrom(edgeSet, x, 0, vertices)
    {
      var adjacent;
      adjacent, edge := Interval(sorted, edge, i, NeighboursFrom(edgeSet, i, 0, vertices), SortedFrom(edgeSet, i + 1, vertices));
      adj := adj + [adjacent];
    }
  }

  /** The inner loop of the adjacency loop: the targets of the edges of vertex i, which start at sorted[edge0]. */
  method Interval(sorted: seq<(nat, nat)>, edge0: nat, i: nat, ghost ys: seq<nat>, ghost rest: seq<(nat, nat)>)
      returns (adjacent: seq<nat>, edge: nat)
    requires edge0 <= |sorted| && sorted[edge0..] == Tagged(i, ys) + rest
    requires forall k :: 0 <= k < |rest| ==> rest[k].0 != i
    ensures adjacent == ys && edge <= |sorted| && sorted[edge..] == rest
  {
    edge := edge0;
    adjacent := [];
    while edge < |sorted| && sorted[edge].0 == i
      invariant edge <= |sorted| && |adjacent| <= |ys| && adjacent == ys[..|adjacent|]
      invariant sorted[edge..] == Tagged(i, ys[|adjacent|..]) + rest
      decreases |sorted| - edge
    {
      TaggedFront(i, ys[|adjacent|..], rest);
      adjacent := adjacent + [sorted[edge].1];
      edge := edge + 1;
      assert sorted[edge..] == sorted[edge - 1..][1..];
    }
    TaggedFront(i, ys[|adjacent|..], rest);
    assert adjacent == ys;
  }

  lemma {:induction false} NeighboursHas(edgeSet: seq<(nat, nat)>, x: nat, y0: nat, n: nat, y: nat)
    requires (x, y) in edgeSet && y0 <= y < n
    ensures y in NeighboursFrom(edgeSet, x, y0, n)
    decreases n - y0
  {
    var c := Count(edgeSet, (x, y0));
    var rest := NeighboursFrom(edgeSet, x, y0 + 1, n);
    assert NeighboursFrom(edgeSet, x, y0, n) == Repeat(c, y0) + rest;
    if y == y0 {
      CountPositive(edgeSet, (x, y0));
      assert NeighboursFrom(edgeSet, x, y0, n)[0] == y;
    } else {
      NeighboursHas(edgeSet, x, y0 + 1, n, y);
    }
  }

  lemma {:induction false} NoNeighbours(edgeSet: seq<(nat, nat)>, x: nat, y0: nat, n: nat)
    requires forall t :: 0 <= t < |edgeSet| ==> edgeSet[t].0 != x
    ensures NeighboursFrom(edgeSet, x, y0, n) == []
    decreases n - y0
  {
    if y0 < n {
      CountPositive(edgeSet, (x, y0));
      NoNeighbours(edgeSet, x, y0 + 1, n);
    }
  }

  // ---------------------------------------------------------------
  // Building the graph: `initialize`.
  // ---------------------------------------------------------------

  /** The input pair p joins the vertices x and y, in one direction or the other. */
  ghost predicate Joins<L, R>(ids: Ids<L, R>, p: (L, R), x: nat, y: nat)
  {
    p.0 in ids.leftMap && p.1 in ids.rightMap &&
    ((x == ids.leftMap[p.0] && y == ids.rightMap[p.1]) || (x == ids.rightMap[p.1] && y == ids.leftMap[p.0]))
  }

  /** The two ends of an input pair are a left and a right vertex, neither the sentinel. */
  lemma JoinsSides<L, R>(ids: Ids<L, R>, p: (L, R), x: nat, y: nat)
    requires IdsOk(ids) && Joins(ids, p, x, y)
    ensures 0 < x < ids.vertices && 0 < y < ids.vertices
    ensures (x in ids.inverseLeft) != (y in ids.inverseLeft)
  {
  }

  /** Some input pair joins x and y. */
  ghost predicate FromInput<L, R>(input: seq<(L, R)>, ids: Ids<L, R>, x: nat, y: nat)
  {
    exists t :: 0 <= t < |input| && Joins(ids, input[t], x, y)
  }

  /** Every edge of the graph comes from an input pair. */
  ghost predicate EdgesFromInput<L, R>(input: seq<(L, R)>, ids: Ids<L, R>, adj: seq<seq<nat>>)
  {
    forall x, j :: 0 <= x < |adj| && 0 <= j < |adj[x]| ==> FromInput(input, ids, x, adj[x][j])
  }

  /** Every input pair is an edge of the graph, in both directions. */
  ghost predicate InputEdges<L, R>(input: seq<(L, R)>, ids: Ids<L, R>, adj: seq<seq<nat>>)
  {
    forall t :: 0 <= t < |input| ==>
      input[t].0 in ids.leftMap && input[t].1 in ids.rightMap &&
      ids.leftMap[input[t].0] < |adj| && ids.rightMap[input[t].1] < |adj| &&
      ids.rightMap[input[t].1] in adj[ids.leftMap[input[t].0]] && ids.leftMap[input[t].0] in adj[ids.rightMap[input[t].1]]
  }

  /** The edge at index s of edgeSet comes from input pair s / 2. */
  lemma EdgeOrigin<L, R>(input: seq<(L, R)>, ids: Ids<L, R>, edgeSet: seq<(nat, nat)>, s: nat)
    requires Identified(input, |input|, ids, edgeSet) && s < |edgeSet|
    ensures exists t :: 0 <= t < |input| && Joins(ids, input[t], edgeSet[s].0, edgeSet[s].1)
  {
    var t := s / 2;
    assert s == 2 * t || s == 2 * t + 1;
    assert Joins(ids, input[t], edgeSet[s].0, edgeSet[s].1);
  }

  /**
   * `initialize`: the graph of the input pairs, with a vertex per
   * distinct left object and per distinct right object, the sentinel 0
   * without edges, every other vertex with at least one edge, and the
   * input pairs as its edges.
   */
  method Initialize<L(==), R(==)>(input: seq<(L, R)>) returns (ids: Ids<L, R>, adj: seq<seq<nat>>, isLeft: seq<bool>)
    ensures IdsOk(ids) && |adj| == ids.vertices && GraphOk(adj, isLeft)
    ensures forall x :: 0 <= x < |adj| ==> (isLeft[x] <==> x in ids.inverseLeft)
    ensures forall k :: 0 <= k < |ids.leftSet| ==> ids.leftSet[k] < |adj| && isLeft[ids.leftSet[k]]
    ensures forall x :: 0 <= x < |adj| && isLeft[x] ==> x in ids.leftSet
    ensures forall x :: 0 < x < |adj| ==> |adj[x]| > 0
    ensures EdgesFromInput(input, ids, adj) && InputEdges(input, ids, adj)
  {
    var edgeSet;
    ids, edgeSet := Identify(input);
    forall t | 0 <= t < |edgeSet|
      ensures 0 < edgeSet[t].0 < ids.vertices && 0 < edgeSet[t].1 < ids.vertices
    {
      EdgeOrigin(input, ids, edgeSet, t);
    }
    adj := Adjacency(edgeSet, ids.vertices);
    isLeft := seq(ids.vertices, x => x in ids.inverseLeft);
    InitializeGraph(input, ids, edgeSet, adj, isLeft);
    forall k | 0 <= k < |ids.leftSet|
      ensures ids.leftSet[k] < |adj| && isLeft[ids.leftSet[k]]
    {
      assert ids.leftSet[k] in ids.leftSet;
    }
  }

  /** What `initialize` has built: the ids, the edges in both directions, and the adjacency of each vertex. */
  ghost predicate Built<L, R>(input: seq<(L, R)>, ids: Ids<L, R>, edgeSet: seq<(nat, nat)>, adj: seq<seq<nat>>, isLeft: seq<bool>)
  {
    IdsOk(ids) && Identified(input, |input|, ids, edgeSet) && Used(ids.vertices, edgeSet) &&
    |adj| == |isLeft| == ids.vertices &&
    (forall x :: 0 <= x < |adj| ==> (isLeft[x] <==> x in ids.inverseLeft)) &&
    (forall x :: 0 <= x < |adj| ==> adj[x] == NeighboursFrom(edgeSet, x, 0, ids.vertices))
  }

  lemma InitializeGraph<L, R>(input: seq<(L, R)>, ids: Ids<L, R>, edgeSet: seq<(nat, nat)>, adj: seq<seq<nat>>, isLeft: seq<bool>)
    requires Built(input, ids, edgeSet, adj, isLeft)
    ensures GraphOk(adj, isLeft) && EdgesFromInput(input, ids, adj) && InputEdges(input, ids, adj)
    ensures forall x :: 0 < x < |adj| ==> |adj[x]| > 0
  {
    GraphEdges(input, ids, edgeSet, adj, isLeft);
    SentinelAlone(input, ids, edgeSet, adj, isLeft);
    InputEdgesKept(input, ids, edgeSet, adj, isLeft);
    VerticesUsed(input, ids, edgeSet, adj, isLeft);
  }

  lemma GraphEdges<L, R>(input: seq<(L, R)>, ids: Ids<L, R>, edgeSet: seq<(nat, nat)>, adj: seq<seq<nat>>, isLeft: seq<bool>)
    requires Built(input, ids, edgeSet, adj, isLeft)
    ensures EdgesFromInput(input, ids, adj)
    ensures forall x, j :: 0 <= x < |adj| && 0 <= j < |adj[x]| ==> 0 < adj[x][j] < |adj| && isLeft[adj[x][j]] != isLeft[x]
  {
    forall x, j | 0 <= x < |adj| && 0 <= j < |adj[x]|
      ensures FromInput(input, ids, x, adj[x][j])
      ensures 0 < adj[x][j] < |adj| && isLeft[adj[x][j]] != isLeft[x]
    {
      var s :| 0 <= s < |edgeSet| && edgeSet[s] == (x, adj[x][j]);
      EdgeOrigin(input, ids, edgeSet, s);
      var t :| 0 <= t < |input| && Joins(ids, input[t], x, adj[x][j]);
      JoinsSides(ids, input[t], x, adj[x][j]);
    }
  }

  lemma SentinelAlone<L, R>(input: seq<(L, R)>, ids: Ids<L, R>, edgeSet: seq<(nat, nat)>, adj: seq<seq<nat>>, isLeft: seq<bool>)
    requires Built(input, ids, edgeSet, adj, isLeft)
    ensures adj[Sentinel] == [] && !isLeft[Sentinel]
  {
    forall t | 0 <= t < |edgeSet|
      ensures edgeSet[t].0 != Sentinel
    {
      EdgeOrigin(input, ids, edgeSet, t);
      var u :| 0 <= u < |input| && Joins(ids, input[u], edgeSet[t].0, edgeSet[t].1);
      JoinsSides(ids, input[u], edgeSet[t].0, edgeSet[t].1);
    }
    NoNeighbours(edgeSet, Sentinel, 0, ids.vertices);
  }

  lemma InputEdgesKept<L, R>(input: seq<(L, R)>, ids: Ids<L, R>, edgeSet: seq<(nat, nat)>, adj: seq<seq<nat>>, isLeft: seq<bool>)
    requires Built(input, ids, edgeSet, adj, isLeft)
    ensures InputEdges(input, ids, adj)
  {
    forall t | 0 <= t < |input|
      ensures ids.leftMap[input[t].0] < |adj| && ids.rightMap[input[t].1] < |adj|
      ensures ids.rightMap[input[t].1] in adj[ids.leftMap[input[t].0]] && ids.leftMap[input[t].0] in adj[ids.rightMap[input[t].1]]
    {
      var i, j := ids.leftMap[input[t].0], ids.rightMap[input[t].1];
      assert edgeSet[2 * t] == (i, j) && edgeSet[2 * t + 1] == (j, i);
      assert Joins(ids, input[t], i, j);
      JoinsSides(ids, input[t], i, j);
      NeighboursHas(edgeSet, i, 0, ids.vertices, j);
      NeighboursHas(edgeSet, j, 0, ids.vertices, i);
    }
  }

  lemma VerticesUsed<L, R>(input: seq<(L, R)>, ids: Ids<L, R>, edgeSet: seq<(nat, nat)>, adj: seq<seq<nat>>, isLeft: seq<bool>)
    requires Built(input, ids, edgeSet, adj, isLeft)
    ensures forall x :: 0 < x < |adj| ==> |adj[x]| > 0
  {
    forall x | 0 < x < |adj|
      ensures |adj[x]| > 0
    {
      assert Source(edgeSet, x);
      var s :| 0 <= s < |edgeSet| && edgeSet[s].0 == x;
      EdgeOrigin(input, ids, edgeSet, s);
      var u :| 0 <= u < |input| && Joins(ids, input[u], edgeSet[s].0, edgeSet[s].1);
      JoinsSides(ids, input[u], edgeSet[s].0, edgeSet[s].1);
      assert edgeSet[s] == (x, edgeSet[s].1);
      NeighboursHas(edgeSet, x, 0, ids.vertices, edgeSet[s].1);
      assert edgeSet[s].1 in adj[x];
    }
  }

  // ---------------------------------------------------------------
  // Reporting and the entry points.
  // ---------------------------------------------------------------

  /** A matched left vertex's pair, as the input's objects, is an input pair. */
  lemma ReportedEdge<L, R>(input: seq<(L, R)>, ids: Ids<L, R>, adj: seq<seq<nat>>, isLeft: seq<bool>, pair: seq<nat>, l: nat)
    requires IdsOk(ids) && |adj| == ids.vertices && Matching(adj, isLeft, pair) && EdgesFromInput(input, ids, adj)
    requires forall x :: 0 <= x < |adj| ==> (isLeft[x] <==> x in ids.inverseLeft)
    requires l in ids.inverseLeft && pair[l] != Sentinel
    ensures pair[l] in ids.inverseRight && (ids.inverseLeft[l], ids.inverseRight[pair[l]]) in input
  {
    assert PairOk(adj, isLeft, pair, l);
    var j :| 0 <= j < |adj[l]| && adj[l][j] == pair[l];
    assert FromInput(input, ids, l, adj[l][j]);
    var t :| 0 <= t < |input| && Joins(ids, input[t], l, adj[l][j]);
    assert input[t] == (ids.inverseLeft[l], ids.inverseRight[pair[l]]);
  }

  /**
   * The reporting loop of `work`: each matched left vertex, in leftSet
   * order, with its pair, as the input's objects.
   */
  method Report<L, R>(input: seq<(L, R)>, ids: Ids<L, R>, adj: seq<seq<nat>>, isLeft: seq<bool>, pair: seq<nat>)
      returns (matching: seq<(L, R)>)
    requires IdsOk(ids) && |adj| == ids.vertices
    requires Matching(adj, isLeft, pair) && EdgesFromInput(input, ids, adj)
    requires forall x :: 0 <= x < |adj| ==> (isLeft[x] <==> x in ids.inverseLeft)
    ensures forall k :: 0 <= k < |matching| ==> matching[k] in input
    ensures forall k, k' :: 0 <= k < k' < |matching| ==> matching[k].0 != matching[k'].0 && matching[k].1 != matching[k'].1
    ensures forall l :: l in ids.inverseLeft && pair[l] != Sentinel ==>
      l in ids.inverseLeft && pair[l] in ids.inverseRight && (ids.inverseLeft[l], ids.inverseRight[pair[l]]) in matching
  {
    matching := [];
    ghost var from: seq<nat> := [];
    for k := 0 to |ids.leftSet|
      invariant ReportedUpTo(input, ids, pair, k, from, matching)
    {
      var l := ids.leftSet[k];
      assert l in ids.leftSet;
      if pair[l] != Sentinel {
        ReportedEdge(input, ids, adj, isLeft, pair, l);
        var p := (ids.inverseLeft[l], ids.inverseRight[pair[l]]);
        ReportMatched(input, ids, adj, isLeft, pair, k, from, matching, l, p);
        matching := matching + [p];
        from := from + [l];
      } else {
        ReportUnmatched(input, ids, pair, k, from, matching);
      }
    }
    ReportDone(input, ids, adj, isLeft, pair, from, matching);
  }

  /** After the loop: the reported pairs are input pairs, one per matched left vertex, none sharing an object. */
  lemma ReportDone<L, R>(input: seq<(L, R)>, ids: Ids<L, R>, adj: seq<seq<nat>>, isLeft: seq<bool>, pair: seq<nat>,
                         from: seq<nat>, matching: seq<(L, R)>)
    requires IdsOk(ids) && Matching(adj, isLeft, pair)
    requires ReportedUpTo(input, ids, pair, |ids.leftSet|, from, matching)
    ensures forall k :: 0 <= k < |matching| ==> matching[k] in input
    ensures forall k, k' :: 0 <= k < k' < |matching| ==> matching[k].0 != matching[k'].0 && matching[k].1 != matching[k'].1
    ensures forall l :: l in ids.inverseLeft && pair[l] != Sentinel ==>
      l in ids.inverseLeft && pair[l] in ids.inverseRight && (ids.inverseLeft[l], ids.inverseRight[pair[l]]) in matching
  {
    ReportDistinct(ids, adj, isLeft, pair, from, matching);
    forall l | l in ids.inverseLeft && pair[l] != Sentinel
      ensures pair[l] in ids.inverseRight && (ids.inverseLeft[l], ids.inverseRight[pair[l]]) in matching
    {
      var k :| 0 <= k < |ids.leftSet| && ids.leftSet[k] == l;
      assert ReportedIn(ids, pair, ids.leftSet[k], matching);
    }
  }

  /**
   * The reporting loop after k left vertices: `from` lists the matched
   * ones in order, matching their pairs as the input's objects.
   */
  ghost predicate ReportedUpTo<L, R>(input: seq<(L, R)>, ids: Ids<L, R>, pair: seq<nat>, k: nat, from: seq<nat>, matching: seq<(L, R)>)
  {
    k <= |ids.leftSet| && |from| == |matching| && |pair| == ids.vertices &&
    (forall a :: 0 <= a < |matching| ==> matching[a] in input) &&
    (forall a :: 0 <= a < |from| ==> from[a] in ids.leftSet[..k] && from[a] < |pair| && Reported(ids, pair, from[a], matching[a])) &&
    (forall a, b :: 0 <= a < b < |from| ==> from[a] != from[b]) &&
    (forall k' :: 0 <= k' < k && ids.leftSet[k'] < |pair| && pair[ids.leftSet[k']] != Sentinel ==>
      ReportedIn(ids, pair, ids.leftSet[k'], matching))
  }

  /** Reporting a matched left vertex keeps the loop's facts. */
  lemma ReportMatched<L, R>(input: seq<(L, R)>, ids: Ids<L, R>, adj: seq<seq<nat>>, isLeft: seq<bool>, pair: seq<nat>,
                            k: nat, from: seq<nat>, matching: seq<(L, R)>, l: nat, p: (L, R))
    requires IdsOk(ids) && |adj| == ids.vertices && Matching(adj, isLeft, pair) && EdgesFromInput(input, ids, adj)
    requires forall x :: 0 <= x < |adj| ==> (isLeft[x] <==> x in ids.inverseLeft)
    requires ReportedUpTo(input, ids, pair, k, from, matching) && k < |ids.leftSet| && l == ids.leftSet[k]
    requires l < |pair| && pair[l] != Sentinel && Reported(ids, pair, l, p)
    ensures ReportedUpTo(input, ids, pair, k + 1, from + [l], matching + [p])
  {
    assert l in ids.leftSet;
    assert ids.leftSet[..k + 1] == ids.leftSet[..k] + [l];
    ReportedEdge(input, ids, adj, isLeft, pair, l);
    assert l !in ids.leftSet[..k];
    assert (from + [l])[|from|] == l && (matching + [p])[|matching|] == p;
  }

  /** Passing over an unmatched left vertex keeps the loop's facts. */
  lemma ReportUnmatched<L, R>(input: seq<(L, R)>, ids: Ids<L, R>, pair: seq<nat>, k: nat, from: seq<nat>, matching: seq<(L, R)>)
    requires ReportedUpTo(input, ids, pair, k, from, matching) && k < |ids.leftSet|
    requires ids.leftSet[k] < |pair| && pair[ids.leftSet[k]] == Sentinel
    ensures ReportedUpTo(input, ids, pair, k + 1, from, matching)
  {
    assert ids.leftSet[..k + 1] == ids.leftSet[..k] + [ids.leftSet[k]];
  }

  /** The matched left vertex l with its pair, as the input's objects. */
  ghost predicate Reported<L, R>(ids: Ids<L, R>, pair: seq<nat>, l: nat, p: (L, R))
    requires l < |pair|
  {
    pair[l] != Sentinel && l in ids.inverseLeft && pair[l] in ids.inverseRight &&
    p == (ids.inverseLeft[l], ids.inverseRight[pair[l]])
  }

  ghost predicate ReportedIn<L, R>(ids: Ids<L, R>, pair: seq<nat>, l: nat, matching: seq<(L, R)>)
    requires l < |pair|
  {
    l in ids.inverseLeft && pair[l] in ids.inverseRight && (ids.inverseLeft[l], ids.inverseRight[pair[l]]) in matching
  }

  lemma ReportDistinct<L, R>(ids: Ids<L, R>, adj: seq<seq<nat>>, isLeft: seq<bool>, pair: seq<nat>, from: seq<nat>, matching: seq<(L, R)>)
    requires IdsOk(ids) && Matching(adj, isLeft, pair) && |from| == |matching|
    requires forall a :: 0 <= a < |from| ==> from[a] < |pair| && Reported(ids, pair, from[a], matching[a])
    requires forall a, b :: 0 <= a < b < |from| ==> from[a] != from[b]
    ensures forall k, k' :: 0 <= k < k' < |matching| ==> matching[k].0 != matching[k'].0 && matching[k].1 != matching[k'].1
  {
    forall k, k' | 0 <= k < k' < |matching|
      ensures matching[k].0 != matching[k'].0 && matching[k].1 != matching[k'].1
    {
      assert Reported(ids, pair, from[k], matching[k]) && Reported(ids, pair, from[k'], matching[k']);
      assert PairOk(adj, isLeft, pair, from[k]) && PairOk(adj, isLeft, pair, from[k']);
    }
  }

  /**
   * `maximumBipartiteMatching` over a range of pairs (the older
   * interface): the matching found, as input pairs, no left object and
   * no right object twice.
   */
  method MatchPairs<L(==), R(==)>(input: seq<(L, R)>) returns (matching: seq<(L, R)>)
    ensures forall k :: 0 <= k < |matching| ==> matching[k] in input
    ensures forall k, k' :: 0 <= k < k' < |matching| ==> matching[k].0 != matching[k'].0 && matching[k].1 != matching[k'].1
  {
    if input == [] {
      return [];
    }
    var ids, adj, isLeft := Initialize(input);
    var m := Run(adj, isLeft, ids.leftSet);
    matching := Report(input, ids, m.adj, m.isLeft, m.pair);
  }

  /** The pair p is a left object and the right object at the same position. */
  ghost predicate InStep<L, R>(left: seq<L>, right: seq<R>, p: (L, R))
  {
    exists t :: 0 <= t < |left| && t < |right| && p == (left[t], right[t])
  }

  /**
   * `maximumBipartiteMatching` over a left range and a right range
   * taken in step: ranges of different sizes are refused, as `work`'s
   * ENSURE refuses them.
   */
  method Match<L(==), R(==)>(left: seq<L>, right: seq<R>) returns (r: Option<seq<(L, R)>>)
    ensures r.None? <==> |left| != |right|
    ensures r.Some? ==> forall k :: 0 <= k < |r.value| ==> InStep(left, right, r.value[k])
    ensures r.Some? ==> forall k, k' :: 0 <= k < k' < |r.value| ==>
      r.value[k].0 != r.value[k'].0 && r.value[k].1 != r.value[k'].1
  {
    if |left| != |right| {
      return None;
    }
    var input := seq(|left|, t requires 0 <= t < |left| => (left[t], right[t]));
    var matching := MatchPairs(input);
    forall k | 0 <= k < |matching|
      ensures InStep(left, right, matching[k])
    {
      assert matching[k] in input;
      var t :| 0 <= t < |input| && input[t] == matching[k];
      assert matching[k] == (left[t], right[t]);
    }
    r := Some(matching);
  }
}
