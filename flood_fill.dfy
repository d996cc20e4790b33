/**
 * floodFill (pastel/gfx/drawing.hpp): a scanline flood fill with an
 * explicit stack of seed points. The fill colours exactly the pixels that
 * are 4-connected to the seed through pixels of the seed's colour.
 *
 * The proof keeps a ghost set P of the pixels painted so far. A pixel is
 * free when it had the source colour and is not yet painted. Every free
 * pixel next to a painted one (and the seed, while free) is covered by a
 * stack entry in its row from which a run of free pixels reaches it; once
 * the stack is empty nothing free touches P, so P is the whole component.
 */
module FloodFill {

  type Point = (int, int)

  // ---------------------------------------------------------------------
  // Connectivity in the original image. g[x][y] is the colour of pixel
  // (x, y) before the fill.

  /** Pixel p lies inside the image and has the source colour. */
  ghost predicate Open<C>(g: seq<seq<C>>, source: C, p: Point)
  {
    0 <= p.0 < |g| && 0 <= p.1 < |g[p.0]| && g[p.0][p.1] == source
  }

  /** p and q are 4-neighbours. */
  predicate Adjacent(p: Point, q: Point)
  {
    (p.0 == q.0 && (p.1 == q.1 + 1 || q.1 == p.1 + 1)) ||
    (p.1 == q.1 && (p.0 == q.0 + 1 || q.0 == p.0 + 1))
  }

  /** A walk through source-coloured pixels, one 4-neighbour step at a time. */
  ghost predicate IsPath<C>(g: seq<seq<C>>, source: C, path: seq<Point>)
  {
    |path| > 0 &&
    (forall i :: 0 <= i < |path| ==> Open(g, source, path[i])) &&
    (forall i :: 0 <= i < |path| - 1 ==> Adjacent(path[i], path[i + 1]))
  }

  /** p is 4-connected to the seed through source-coloured pixels. */
  ghost predicate Connected<C>(g: seq<seq<C>>, source: C, seed: Point, p: Point)
  {
    exists path :: IsPath(g, source, path) && path[0] == seed && path[|path| - 1] == p
  }

  /** The seed is connected to itself when it has the source colour. */
  lemma ConnectedSeed<C>(g: seq<seq<C>>, source: C, seed: Point)
    requires Open(g, source, seed)
    ensures Connected(g, source, seed, seed)
  {
    assert IsPath(g, source, [seed]);
  }

  /** Connected pixels have the source colour. */
  lemma ConnectedOpen<C>(g: seq<seq<C>>, source: C, seed: Point, p: Point)
    requires Connected(g, source, seed, p)
    ensures Open(g, source, p) && Open(g, source, seed)
  {
    var path :| IsPath(g, source, path) && path[0] == seed && path[|path| - 1] == p;
    assert Open(g, source, path[|path| - 1]);
    assert Open(g, source, path[0]);
  }

  /** One more step through a source-coloured neighbour stays connected. */
  lemma ConnectedStep<C>(g: seq<seq<C>>, source: C, seed: Point, p: Point, q: Point)
    requires Connected(g, source, seed, p) && Adjacent(p, q) && Open(g, source, q)
    ensures Connected(g, source, seed, q)
  {
    var path :| IsPath(g, source, path) && path[0] == seed && path[|path| - 1] == p;
    var longer := path + [q];
    assert forall i :: 0 <= i < |longer| - 1 ==> longer[i] == path[i];
    assert IsPath(g, source, longer);
    assert longer[0] == seed && longer[|longer| - 1] == q;
  }

  /** Every source-coloured pixel in the stretch from (a, y) to (b, y) of a
      row is connected when (a, y) is. */
  lemma {:induction false} ConnectedRow<C>(g: seq<seq<C>>, source: C, seed: Point, y: int, a: int, b: int)
    requires Connected(g, source, seed, (a, y))
    requires forall x :: Min(a, b) <= x <= Max(a, b) ==> Open(g, source, (x, y))
    ensures forall x :: Min(a, b) <= x <= Max(a, b) ==> Connected(g, source, seed, (x, y))
    decreases if a <= b then b - a else a - b
  {
    if a == b {
    } else if a < b {
      ConnectedStep(g, source, seed, (a, y), (a + 1, y));
      ConnectedRow(g, source, seed, y, a + 1, b);
    } else {
      ConnectedStep(g, source, seed, (a, y), (a - 1, y));
      ConnectedRow(g, source, seed, y, a - 1, b);
    }
  }

  function Min(a: int, b: int): int { if a <= b then a else b }
  function Max(a: int, b: int): int { if a <= b then b else a }

  /** Some 4-neighbour of q is in P. */
  predicate Touches(P: set<Point>, q: Point)
  {
    (q.0 - 1, q.1) in P || (q.0 + 1, q.1) in P || (q.0, q.1 - 1) in P || (q.0, q.1 + 1) in P
  }

  /** A set of pixels that holds the seed and every source-coloured
      neighbour of its members holds the whole component of the seed. */
  lemma ClosedHoldsComponent<C>(g: seq<seq<C>>, source: C, seed: Point, P: set<Point>, p: Point)
    requires seed in P
    requires forall q :: Open(g, source, q) && Touches(P, q) ==> q in P
    requires Connected(g, source, seed, p)
    ensures p in P
  {
    var path :| IsPath(g, source, path) && path[0] == seed && path[|path| - 1] == p;
    PathInside(g, source, P, path, |path| - 1);
  }

  lemma {:induction false} PathInside<C>(g: seq<seq<C>>, source: C, P: set<Point>, path: seq<Point>, i: nat)
    requires IsPath(g, source, path) && path[0] in P && i < |path|
    requires forall q :: Open(g, source, q) && Touches(P, q) ==> q in P
    ensures path[i] in P
  {
    if i > 0 {
      PathInside(g, source, P, path, i - 1);
      assert Adjacent(path[i - 1], path[i]);
      assert Touches(P, path[i]);
      assert Open(g, source, path[i]);
    }
  }

  // ---------------------------------------------------------------------
  // The state of the fill: painted pixels P and the stack of seeds

  /** Pixel q still has the source colour: it had it and is not painted. */
  ghost predicate Free<C>(g: seq<seq<C>>, source: C, P: set<Point>, q: Point)
  {
    Open(g, source, q) && q !in P
  }

  /** Pixels a..b of row y (both included) are all free. */
  ghost predicate FreeRun<C>(g: seq<seq<C>>, source: C, P: set<Point>, y: int, a: int, b: int)
  {
    forall x :: a <= x <= b ==> Free(g, source, P, (x, y))
  }

  /** Scanning from the seed point s reaches q: same row, all free between. */
  ghost predicate CoveredBy<C>(g: seq<seq<C>>, source: C, P: set<Point>, s: Point, q: Point)
  {
    s.1 == q.1 && FreeRun(g, source, P, q.1, Min(s.0, q.0), Max(s.0, q.0))
  }

  /** Some stack entry covers q. */
  ghost predicate Covered<C>(g: seq<seq<C>>, source: C, P: set<Point>, stack: seq<Point>, q: Point)
  {
    exists k :: 0 <= k < |stack| && CoveredBy(g, source, P, stack[k], q)
  }

  /** The loop invariant of floodFill, on the ghost state. */
  ghost predicate FillInvariant<C>(g: seq<seq<C>>, source: C, seed: Point, P: set<Point>, stack: seq<Point>)
  {
    (forall k :: 0 <= k < |stack| ==> Connected(g, source, seed, stack[k])) &&
    (forall p :: p in P ==> Connected(g, source, seed, p)) &&
    (forall q :: Free(g, source, P, q) && (q == seed || Touches(P, q)) ==> Covered(g, source, P, stack, q))
  }

  /** Pixels a <= x < b of row y. */
  ghost function Run(y: int, a: int, b: int): (r: set<Point>)
    ensures forall p :: p in r <==> p.1 == y && a <= p.0 < b
  {
    set x | a <= x < b :: (x, y)
  }

  /** At the start only the seed is on the stack and nothing is painted. */
  lemma FillStart<C>(g: seq<seq<C>>, source: C, seed: Point)
    requires Open(g, source, seed)
    ensures FillInvariant(g, source, seed, {}, [seed])
  {
    ConnectedSeed(g, source, seed);
    forall q | Free(g, source, {}, q) && (q == seed || Touches({}, q))
      ensures Covered(g, source, {}, [seed], q)
    {
      assert CoveredBy(g, source, {}, [seed][0], q);
    }
  }

  /** Popping a seed that is no longer free keeps the invariant: it covers
      nothing. */
  lemma PopPainted<C>(g: seq<seq<C>>, source: C, seed: Point, P: set<Point>, stack: seq<Point>)
    requires |stack| > 0 && FillInvariant(g, source, seed, P, stack)
    requires !Free(g, source, P, stack[|stack| - 1])
    ensures FillInvariant(g, source, seed, P, stack[..|stack| - 1])
  {
    var rest := stack[..|stack| - 1];
    forall k | 0 <= k < |rest|
      ensures Connected(g, source, seed, rest[k])
    {
      assert rest[k] == stack[k];
    }
    forall q | Free(g, source, P, q) && (q == seed || Touches(P, q))
      ensures Covered(g, source, P, rest, q)
    {
      PopCover(g, source, P, stack, q);
    }
  }

  /** A pixel covered by a stack whose top is not free is covered by the
      rest of the stack. */
  lemma PopCover<C>(g: seq<seq<C>>, source: C, P: set<Point>, stack: seq<Point>, q: Point)
    requires |stack| > 0 && !Free(g, source, P, stack[|stack| - 1])
    requires Covered(g, source, P, stack, q)
    ensures Covered(g, source, P, stack[..|stack| - 1], q)
  {
    var k :| 0 <= k < |stack| && CoveredBy(g, source, P, stack[k], q);
    CoveringEntryFree(g, source, P, stack[k], q);
    assert stack[..|stack| - 1][k] == stack[k];
  }

  /** An entry that covers a pixel is itself free. */
  lemma CoveringEntryFree<C>(g: seq<seq<C>>, source: C, P: set<Point>, s: Point, q: Point)
    requires CoveredBy(g, source, P, s, q)
    ensures Free(g, source, P, s)
  {
    assert Min(s.0, q.0) <= s.0 <= Max(s.0, q.0);
    assert (s.0, q.1) == s;
  }

  /** A free stretch of a row that meets a maximal free run lies inside it. */
  lemma RunMaximal<C>(g: seq<seq<C>>, source: C, P: set<Point>, y: int, xLeft: int, xRight: int, a: int, b: int, x: int)
    requires !Free(g, source, P, (xLeft - 1, y)) && !Free(g, source, P, (xRight, y))
    requires FreeRun(g, source, P, y, a, b)
    requires a <= x <= b && xLeft <= x < xRight
    ensures xLeft <= a && b < xRight
  {
  }

  /** Some stack entry from index `from` on covers q. */
  ghost predicate CoveredFrom<C>(g: seq<seq<C>>, source: C, P: set<Point>, stack: seq<Point>, from: nat, q: Point)
  {
    exists k :: from <= k < |stack| && CoveredBy(g, source, P, stack[k], q)
  }

  /** What the pushes for row y establish: the entries from index `from`
      on are source-coloured pixels of row y between xLeft and xRight, and
      they cover every free pixel of that stretch. */
  ghost predicate PushedRow<C>(g: seq<seq<C>>, source: C, P: set<Point>, stack: seq<Point>, from: nat,
                              y: int, xLeft: int, xRight: int)
  {
    from <= |stack| &&
    (forall k :: from <= k < |stack| ==> stack[k].1 == y && xLeft <= stack[k].0 < xRight && Open(g, source, stack[k])) &&
    (forall x :: xLeft <= x < xRight && Free(g, source, P, (x, y)) ==> CoveredFrom(g, source, P, stack, from, (x, y)))
  }

  /** The seeds pushed after painting a run of row y: `above` for row
      y + 1, then `below` for row y - 1, on top of `rest`. */
  ghost predicate PushedAround<C>(g: seq<seq<C>>, source: C, P: set<Point>, rest: seq<Point>,
                                  above: seq<Point>, below: seq<Point>, y: int, xLeft: int, xRight: int)
  {
    PushedRow(g, source, P, rest + above, |rest|, y + 1, xLeft, xRight) &&
    PushedRow(g, source, P, rest + above + below, |rest + above|, y - 1, xLeft, xRight)
  }

  /** Painting the maximal free run through the popped seed and pushing
      one seed per free stretch above and below it keeps the invariant. */
  lemma PaintStep<C>(g: seq<seq<C>>, source: C, seed: Point, P: set<Point>, P': set<Point>,
                     stack: seq<Point>, stack': seq<Point>, rest: seq<Point>, line: Point,
                     xLeft: int, xRight: int, above: seq<Point>, below: seq<Point>)
    requires |stack| > 0 && rest == stack[..|stack| - 1] && line == stack[|stack| - 1]
    requires P' == P + Run(line.1, xLeft, xRight) && stack' == rest + above + below
    requires FillInvariant(g, source, seed, P, stack)
    requires Free(g, source, P, line)
    requires xLeft <= line.0 < xRight && FreeRun(g, source, P, line.1, xLeft, xRight - 1)
    requires !Free(g, source, P, (xLeft - 1, line.1)) && !Free(g, source, P, (xRight, line.1))
    requires PushedAround(g, source, P', rest, above, below, line.1, xLeft, xRight)
    ensures FillInvariant(g, source, seed, P', stack')
  {
    var y := line.1;
    var run := Run(y, xLeft, xRight);
    assert Connected(g, source, seed, line);
    ConnectedRow(g, source, seed, y, line.0, xLeft);
    ConnectedRow(g, source, seed, y, line.0, xRight - 1);
    assert forall x :: xLeft <= x < xRight ==> Connected(g, source, seed, (x, y));
    forall k | 0 <= k < |stack'|
      ensures Connected(g, source, seed, stack'[k])
    {
      if k < |rest| {
        assert stack'[k] == rest[k] == stack[k];
      } else if k < |rest + above| {
        assert stack'[k] == (rest + above)[k];
        ConnectedStep(g, source, seed, (stack'[k].0, y), stack'[k]);
      } else {
        ConnectedStep(g, source, seed, (stack'[k].0, y), stack'[k]);
      }
    }
    forall q | Free(g, source, P', q) && (q == seed || Touches(P', q))
      ensures Covered(g, source, P', stack', q)
    {
      PaintCover(g, source, seed, P, stack, rest, line, xLeft, xRight, above, below, q);
    }
  }

  /** The covering part of PaintStep, for one pixel q. */
  lemma PaintCover<C>(g: seq<seq<C>>, source: C, seed: Point, P: set<Point>, stack: seq<Point>, rest: seq<Point>,
                      line: Point, xLeft: int, xRight: int, above: seq<Point>, below: seq<Point>, q: Point)
    requires |stack| > 0 && rest == stack[..|stack| - 1] && line == stack[|stack| - 1]
    requires q == seed || Touches(P, q) ==> Covered(g, source, P, stack, q)
    requires xLeft <= line.0 < xRight
    requires !Free(g, source, P, (xLeft - 1, line.1)) && !Free(g, source, P, (xRight, line.1))
    requires PushedRow(g, source, P + Run(line.1, xLeft, xRight), rest + above, |rest|, line.1 + 1, xLeft, xRight)
    requires PushedRow(g, source, P + Run(line.1, xLeft, xRight), rest + above + below, |rest + above|, line.1 - 1, xLeft, xRight)
    requires Free(g, source, P + Run(line.1, xLeft, xRight), q)
    requires q == seed || Touches(P + Run(line.1, xLeft, xRight), q)
    ensures Covered(g, source, P + Run(line.1, xLeft, xRight), rest + above + below, q)
  {
    var y := line.1;
    var run := Run(y, xLeft, xRight);
    var P' := P + run;
    if q == seed || Touches(P, q) {
      CoverKept(g, source, P, stack, rest, line, xLeft, xRight, above, below, q);
    } else if q.1 == y {
      RowNeighbour(g, source, P, y, xLeft, xRight, q);
    } else if (q.0, q.1 - 1) in run {
      CoverPushed(g, source, P', rest + above, |rest|, y + 1, xLeft, xRight, q);
      CoveredAppend(g, source, P', rest + above, below, q);
    } else {
      assert (q.0, q.1 + 1) in run;
      CoverPushed(g, source, P', rest + above + below, |rest + above|, y - 1, xLeft, xRight, q);
    }
  }

  /** A free pixel next to the painted run is covered by the seeds pushed
      for its row. */
  lemma CoverPushed<C>(g: seq<seq<C>>, source: C, P: set<Point>, stack: seq<Point>, from: nat,
                       y: int, xLeft: int, xRight: int, q: Point)
    requires PushedRow(g, source, P, stack, from, y, xLeft, xRight)
    requires q.1 == y && xLeft <= q.0 < xRight && Free(g, source, P, q)
    ensures Covered(g, source, P, stack, q)
  {
    assert CoveredFrom(g, source, P, stack, from, (q.0, y));
    var k :| from <= k < |stack| && CoveredBy(g, source, P, stack[k], (q.0, y));
  }

  /** Pushing more seeds keeps every pixel covered. */
  lemma CoveredAppend<C>(g: seq<seq<C>>, source: C, P: set<Point>, stack: seq<Point>, more: seq<Point>, q: Point)
    requires Covered(g, source, P, stack, q)
    ensures Covered(g, source, P, stack + more, q)
  {
    var k :| 0 <= k < |stack| && CoveredBy(g, source, P, stack[k], q);
    assert (stack + more)[k] == stack[k];
  }

  /** A pixel that was covered before the scanline was painted, and is
      still free, is covered by the same stack entry, which is not the
      popped seed. */
  lemma CoverKept<C>(g: seq<seq<C>>, source: C, P: set<Point>, stack: seq<Point>, rest: seq<Point>, line: Point,
                     xLeft: int, xRight: int, above: seq<Point>, below: seq<Point>, q: Point)
    requires |stack| > 0 && rest == stack[..|stack| - 1] && line == stack[|stack| - 1]
    requires Covered(g, source, P, stack, q)
    requires xLeft <= line.0 < xRight
    requires !Free(g, source, P, (xLeft - 1, line.1)) && !Free(g, source, P, (xRight, line.1))
    requires Free(g, source, P + Run(line.1, xLeft, xRight), q)
    ensures Covered(g, source, P + Run(line.1, xLeft, xRight), rest + above + below, q)
  {
    var y := line.1;
    var P' := P + Run(y, xLeft, xRight);
    var k :| 0 <= k < |stack| && CoveredBy(g, source, P, stack[k], q);
    var s := stack[k];
    var a, b := Min(s.0, q.0), Max(s.0, q.0);
    if s.1 == y && a < xRight && xLeft <= b {
      RunMaximal(g, source, P, y, xLeft, xRight, a, b, Max(a, xLeft));
      assert false;
    } else {
      var stack' := rest + above + below;
      assert k < |rest| && rest[k] == s;
      assert stack'[k] == s;
      assert CoveredBy(g, source, P', stack'[k], q);
    }
  }

  /** The row neighbours of a maximal run are not free. */
  lemma RowNeighbour<C>(g: seq<seq<C>>, source: C, P: set<Point>, y: int, xLeft: int, xRight: int, q: Point)
    requires !Free(g, source, P, (xLeft - 1, y)) && !Free(g, source, P, (xRight, y))
    requires q.1 == y && Free(g, source, P + Run(y, xLeft, xRight), q)
    ensures !Touches(Run(y, xLeft, xRight), q)
  {
  }

  /** When the stack is empty the painted set is the component of the seed. */
  lemma FillEnd<C>(g: seq<seq<C>>, source: C, seed: Point, P: set<Point>, p: Point)
    requires Open(g, source, seed) && FillInvariant(g, source, seed, P, [])
    ensures p in P <==> Connected(g, source, seed, p)
  {
    assert !Covered(g, source, P, [], seed);
    forall q | Open(g, source, q) && Touches(P, q)
      ensures q in P
    {
      assert !Covered(g, source, P, [], q);
    }
    if Connected(g, source, seed, p) {
      ClosedHoldsComponent(g, source, seed, P, p);
    }
  }

  // ---------------------------------------------------------------------
  // The fill on the image

  /** The image as a grid of columns: g[x][y] == image[x, y]. */
  ghost function Snapshot<C>(image: array2<C>): (g: seq<seq<C>>)
    reads image
    ensures Shape(image, g)
    ensures forall x, y :: 0 <= x < image.Length0 && 0 <= y < image.Length1 ==> g[x][y] == image[x, y]
  {
    seq(image.Length0, x requires 0 <= x < image.Length0 reads image =>
      seq(image.Length1, y requires 0 <= y < image.Length1 reads image => image[x, y]))
  }

  ghost predicate Shape<C>(image: array2<C>, g: seq<seq<C>>)
  {
    |g| == image.Length0 && forall x :: 0 <= x < |g| ==> |g[x]| == image.Length1
  }

  /** The image holds the fill colour on P and its original colours
      elsewhere. */
  ghost predicate Painted<C>(image: array2<C>, g: seq<seq<C>>, P: set<Point>, color: C)
    requires Shape(image, g)
    reads image
  {
    forall x, y :: 0 <= x < image.Length0 && 0 <= y < image.Length1 ==>
      image[x, y] == if (x, y) in P then color else g[x][y]
  }

  /** All pixels of a width-by-height image. */
  ghost function Cells(width: int, height: int): set<Point>
  {
    set x, y | 0 <= x < width && 0 <= y < height :: (x, y)
  }

  /** floodFill: when the seed (xStart, yStart) lies inside the image,
      every pixel 4-connected to it through pixels of its colour gets the
      fill colour and every other pixel keeps its colour; a seed outside
      the image changes nothing. (When the seed already has the fill
      colour, the component already has it too, and the image stays the
      same.) */
  method Fill<C(==)>(xStart: int, yStart: int, color: C, image: array2<C>)
    modifies image
    ensures forall x, y :: 0 <= x < image.Length0 && 0 <= y < image.Length1 ==>
      image[x, y] ==
        if 0 <= xStart < image.Length0 && 0 <= yStart < image.Length1 &&
           Connected(old(Snapshot(image)), old(image[xStart, yStart]), (xStart, yStart), (x, y))
        then color else old(image[x, y])
  {
    var width, height := image.Length0, image.Length1;
    if xStart < 0 || xStart >= width || yStart < 0 || yStart >= height {
      return;
    }
    var source := image[xStart, yStart];
    ghost var g := Snapshot(image);
    var seed := (xStart, yStart);
    if source == color {
      forall x, y | 0 <= x < width && 0 <= y < height && Connected(g, source, seed, (x, y))
        ensures image[x, y] == color
      {
        ConnectedOpen(g, source, seed, (x, y));
      }
      return;
    }
    var stack := [seed];
    ghost var P: set<Point> := {};
    FillStart(g, source, seed);
    while |stack| > 0
      invariant Shape(image, g) && Painted(image, g, P, color)
      invariant FillInvariant(g, source, seed, P, stack)
      invariant P <= Cells(width, height)
      decreases Cells(width, height) - P, |stack|
    {
      stack, P := FillStep(image, source, color, stack, g, seed, P);
    }
    forall x, y | 0 <= x < width && 0 <= y < height
      ensures image[x, y] == if Connected(g, source, seed, (x, y)) then color else g[x][y]
    {
      FillEnd(g, source, seed, P, (x, y));
    }
  }

  /** One pass of the stack loop of floodFill: pops a seed and, when it is
      still free, paints its scanline and pushes the free stretches above
      and below. Either more pixels are painted or the stack shrinks. */
  method FillStep<C(==)>(image: array2<C>, source: C, color: C, stack: seq<Point>,
                         ghost g: seq<seq<C>>, seed: Point, ghost P: set<Point>)
    returns (stack': seq<Point>, ghost P': set<Point>)
    requires |stack| > 0 && source != color
    requires Shape(image, g) && Painted(image, g, P, color)
    requires FillInvariant(g, source, seed, P, stack)
    requires P <= Cells(image.Length0, image.Length1)
    modifies image
    ensures Painted(image, g, P', color) && FillInvariant(g, source, seed, P', stack')
    ensures P' <= Cells(image.Length0, image.Length1)
    ensures Cells(image.Length0, image.Length1) - P' < Cells(image.Length0, image.Length1) - P ||
            (P' == P && |stack'| < |stack|)
  {
    var line := stack[|stack| - 1];
    var rest := stack[..|stack| - 1];
    ConnectedOpen(g, source, seed, line);
    SourceIsFree(image, g, P, source, color, line.0, line.1);
    if image[line.0, line.1] != source {
      PopPainted(g, source, seed, P, stack);
      return rest, P;
    }
    var xLeft, xRight := PaintLine(image, line, source, color, g, P);
    P' := P + Run(line.1, xLeft, xRight);
    var above, below := PushBoth(image, xLeft, xRight, line.1, source, color, rest, g, P');
    stack' := rest + above + below;
    PaintStep(g, source, seed, P, P', stack, stack', rest, line, xLeft, xRight, above, below);
    PaintShrinks(image.Length0, image.Length1, P, line, xLeft, xRight);
  }

  /** Painting a run through an unpainted pixel of the image shrinks the
      set of unpainted pixels: the measure of the fill loop. */
  lemma PaintShrinks(width: int, height: int, P: set<Point>, line: Point, xLeft: int, xRight: int)
    requires 0 <= line.0 < width && 0 <= line.1 < height && line !in P
    requires xLeft <= line.0 < xRight
    ensures Cells(width, height) - (P + Run(line.1, xLeft, xRight)) < Cells(width, height) - P
  {
    assert line in Cells(width, height) - P;
    assert line !in Cells(width, height) - (P + Run(line.1, xLeft, xRight));
  }

  /** The two scans of floodFill: paints the maximal free run of row
      line.1 through the seed. */
  method PaintLine<C(==)>(image: array2<C>, line: Point, source: C, color: C, ghost g: seq<seq<C>>, ghost P: set<Point>)
    returns (xLeft: int, xRight: int)
    requires Shape(image, g) && Painted(image, g, P, color) && source != color
    requires Free(g, source, P, line)
    modifies image
    ensures 0 <= xLeft <= line.0 < xRight <= image.Length0 && 0 <= line.1 < image.Length1
    ensures FreeRun(g, source, P, line.1, xLeft, xRight - 1)
    ensures !Free(g, source, P, (xLeft - 1, line.1)) && !Free(g, source, P, (xRight, line.1))
    ensures Painted(image, g, P + Run(line.1, xLeft, xRight), color)
  {
    xLeft := ScanLeft(image, line.0, line.1, source, color, g, P);
    ghost var P1 := P + Run(line.1, xLeft, line.0);
    assert Free(g, source, P1, line);
    xRight := ScanRight(image, line.0, line.1, source, color, g, P1);
    assert P1 + Run(line.1, line.0, xRight) == P + Run(line.1, xLeft, xRight);
    PaintedRun(g, source, P, P1, line.1, xLeft, line.0, xRight);
  }

  /** The pushes above and below a painted run, where those rows exist. */
  method PushBoth<C(==)>(image: array2<C>, xLeft: int, xRight: int, y: int, source: C, color: C, rest: seq<Point>,
                         ghost g: seq<seq<C>>, ghost P: set<Point>)
    returns (above: seq<Point>, below: seq<Point>)
    requires Shape(image, g) && Painted(image, g, P, color) && source != color
    requires 0 <= xLeft <= xRight <= image.Length0 && 0 <= y < image.Length1
    ensures PushedAround(g, source, P, rest, above, below, y, xLeft, xRight)
  {
    above := [];
    if y < image.Length1 - 1 {
      above := PushRow(image, xLeft, xRight, y + 1, source, color, rest, g, P);
    } else {
      NoRowToPush(g, source, P, rest, y + 1, xLeft, xRight);
    }
    below := [];
    if y > 0 {
      below := PushRow(image, xLeft, xRight, y - 1, source, color, rest + above, g, P);
    } else {
      NoRowToPush(g, source, P, rest + above, y - 1, xLeft, xRight);
    }
  }

  /** Outside the image there is nothing to push. */
  lemma NoRowToPush<C>(g: seq<seq<C>>, source: C, P: set<Point>, stack: seq<Point>, y: int, xLeft: int, xRight: int)
    requires y < 0 || forall x :: 0 <= x < |g| ==> |g[x]| <= y
    ensures PushedRow(g, source, P, stack + [], |stack|, y, xLeft, xRight)
  {
    assert forall x :: !Open(g, source, (x, y));
  }

  /** The facts of the two scans, restated for the whole run. */
  lemma PaintedRun<C>(g: seq<seq<C>>, source: C, P: set<Point>, P1: set<Point>, y: int, xLeft: int, x0: int, xRight: int)
    requires P1 == P + Run(y, xLeft, x0) && xLeft <= x0 < xRight
    requires FreeRun(g, source, P, y, xLeft, x0 - 1) && FreeRun(g, source, P1, y, x0, xRight - 1)
    requires !Free(g, source, P, (xLeft - 1, y)) && !Free(g, source, P1, (xRight, y))
    ensures FreeRun(g, source, P, y, xLeft, xRight - 1) && !Free(g, source, P, (xRight, y))
  {
  }

  /** The leftward scan of floodFill: paints the free pixels left of x0
      up to the first one that is not free. */
  method ScanLeft<C(==)>(image: array2<C>, x0: int, y: int, source: C, color: C,
                         ghost g: seq<seq<C>>, ghost P: set<Point>) returns (xLeft: int)
    requires Shape(image, g) && Painted(image, g, P, color) && source != color
    requires 0 <= x0 < image.Length0 && 0 <= y < image.Length1
    modifies image
    ensures 0 <= xLeft <= x0
    ensures FreeRun(g, source, P, y, xLeft, x0 - 1) && !Free(g, source, P, (xLeft - 1, y))
    ensures Painted(image, g, P + Run(y, xLeft, x0), color)
  {
    xLeft := x0;
    while xLeft > 0 && image[xLeft - 1, y] == source
      invariant 0 <= xLeft <= x0
      invariant FreeRun(g, source, P, y, xLeft, x0 - 1)
      invariant Painted(image, g, P + Run(y, xLeft, x0), color)
    {
      image[xLeft - 1, y] := color;
      xLeft := xLeft - 1;
    }
  }

  /** The rightward scan of floodFill: paints x0 and the free pixels right
      of it up to the first one that is not free. */
  method ScanRight<C(==)>(image: array2<C>, x0: int, y: int, source: C, color: C,
                          ghost g: seq<seq<C>>, ghost P: set<Point>) returns (xRight: int)
    requires Shape(image, g) && Painted(image, g, P, color) && source != color
    requires Free(g, source, P, (x0, y))
    modifies image
    ensures x0 < xRight <= image.Length0
    ensures FreeRun(g, source, P, y, x0, xRight - 1) && !Free(g, source, P, (xRight, y))
    ensures Painted(image, g, P + Run(y, x0, xRight), color)
  {
    xRight := x0;
    while xRight < image.Length0 && image[xRight, y] == source
      invariant x0 <= xRight <= image.Length0
      invariant FreeRun(g, source, P, y, x0, xRight - 1)
      invariant Painted(image, g, P + Run(y, x0, xRight), color)
    {
      image[xRight, y] := color;
      xRight := xRight + 1;
    }
  }

  /** The "recurse top/bottom line" loop of floodFill: scans pixels
      xLeft <= x < xRight of row y and pushes one seed for each stretch of
      free pixels. */
  method PushRow<C(==)>(image: array2<C>, xLeft: int, xRight: int, y: int, source: C, color: C, stack: seq<Point>,
                        ghost g: seq<seq<C>>, ghost P: set<Point>) returns (pushed: seq<Point>)
    requires Shape(image, g) && Painted(image, g, P, color) && source != color
    requires 0 <= xLeft <= xRight <= image.Length0 && 0 <= y < image.Length1
    ensures PushedRow(g, source, P, stack + pushed, |stack|, y, xLeft, xRight)
  {
    pushed := [];
    var lineHandled := false;
    for x := xLeft to xRight
      invariant PushedRow(g, source, P, stack + pushed, |stack|, y, xLeft, x)
      invariant lineHandled ==>
        |pushed| > 0 && pushed[|pushed| - 1].1 == y && FreeRun(g, source, P, y, pushed[|pushed| - 1].0, x - 1)
    {
      SourceIsFree(image, g, P, source, color, x, y);
      if image[x, y] == source {
        if !lineHandled {
          PushSeed(g, source, P, stack, pushed, y, xLeft, x);
          pushed := pushed + [(x, y)];
          lineHandled := true;
        } else {
          ExtendSeed(g, source, P, stack, pushed, y, xLeft, x);
        }
      } else {
        SkipPixel(g, source, P, stack + pushed, |stack|, y, xLeft, x);
        lineHandled := false;
      }
    }
  }

  /** An image pixel has the source colour exactly when it is free. */
  lemma SourceIsFree<C>(image: array2<C>, g: seq<seq<C>>, P: set<Point>, source: C, color: C, x: int, y: int)
    requires Shape(image, g) && Painted(image, g, P, color) && source != color
    requires 0 <= x < image.Length0 && 0 <= y < image.Length1
    ensures image[x, y] == source <==> Free(g, source, P, (x, y))
  {
  }

  /** A pixel that is not free needs no seed. */
  lemma SkipPixel<C>(g: seq<seq<C>>, source: C, P: set<Point>, stack: seq<Point>, from: nat,
                     y: int, xLeft: int, x: int)
    requires PushedRow(g, source, P, stack, from, y, xLeft, x)
    requires !Free(g, source, P, (x, y))
    ensures PushedRow(g, source, P, stack, from, y, xLeft, x + 1)
  {
  }

  /** Pushing a free pixel as a new seed covers it. */
  lemma PushSeed<C>(g: seq<seq<C>>, source: C, P: set<Point>, stack: seq<Point>, pushed: seq<Point>,
                    y: int, xLeft: int, x: int)
    requires PushedRow(g, source, P, stack + pushed, |stack|, y, xLeft, x)
    requires xLeft <= x && Free(g, source, P, (x, y))
    ensures PushedRow(g, source, P, stack + (pushed + [(x, y)]), |stack|, y, xLeft, x + 1)
    ensures FreeRun(g, source, P, y, x, x)
  {
    var s := stack + pushed;
    var s' := stack + (pushed + [(x, y)]);
    assert forall k :: 0 <= k < |s| ==> s'[k] == s[k];
    forall x' | xLeft <= x' < x + 1 && Free(g, source, P, (x', y))
      ensures CoveredFrom(g, source, P, s', |stack|, (x', y))
    {
      if x' == x {
        assert CoveredBy(g, source, P, s'[|s|], (x, y));
      } else {
        var k :| |stack| <= k < |s| && CoveredBy(g, source, P, s[k], (x', y));
        assert s'[k] == s[k];
      }
    }
  }

  /** A free pixel right after a covered free stretch is covered by the
      seed of that stretch. */
  lemma ExtendSeed<C>(g: seq<seq<C>>, source: C, P: set<Point>, stack: seq<Point>, pushed: seq<Point>,
                      y: int, xLeft: int, x: int)
    requires PushedRow(g, source, P, stack + pushed, |stack|, y, xLeft, x)
    requires |pushed| > 0 && pushed[|pushed| - 1].1 == y && FreeRun(g, source, P, y, pushed[|pushed| - 1].0, x - 1)
    requires Free(g, source, P, (x, y))
    ensures PushedRow(g, source, P, stack + pushed, |stack|, y, xLeft, x + 1)
    ensures FreeRun(g, source, P, y, pushed[|pushed| - 1].0, x)
  {
    var s := stack + pushed;
    assert s[|s| - 1] == pushed[|pushed| - 1];
    assert s[|s| - 1].0 < x;
    TopCovers(g, source, P, s, |stack|, y, x);
  }

  /** The top seed covers pixel x of its row when the stretch between them
      is free. */
  lemma TopCovers<C>(g: seq<seq<C>>, source: C, P: set<Point>, s: seq<Point>, from: nat, y: int, x: int)
    requires from < |s| && s[|s| - 1].1 == y && s[|s| - 1].0 < x
    requires FreeRun(g, source, P, y, s[|s| - 1].0, x - 1) && Free(g, source, P, (x, y))
    ensures FreeRun(g, source, P, y, s[|s| - 1].0, x)
    ensures CoveredFrom(g, source, P, s, from, (x, y))
  {
    assert CoveredBy(g, source, P, s[|s| - 1], (x, y));
  }
}
