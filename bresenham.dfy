/**
 * The integer line walk of `drawLine`: an all-octant Bresenham walk from a
 * start cell to an end cell. This module states the walk as pure functions
 * (one loop iteration is `Step`, the whole sequence of visited cells is
 * `Path`) and proves what the walk promises: it terminates at the end cell,
 * stays inside the bounding box of its endpoints, moves to an 8-neighbour in
 * the directions `Sx`/`Sy` at every step, never visits a cell twice, has
 * one cell per step along the longer axis and keeps every cell within half a
 * cell of the straight line between the endpoints.
 */
module Bresenham {

  /** An integer cell: `x` is the column, `y` the row. */
  datatype Point = Point(x: int, y: int)

  /** The two already-truncated endpoints handed to `drawLine`. */
  datatype Segment = Segment(start: Point, end: Point)

  /** The loop variables of `drawLine`: the current cell and the error term. */
  datatype Cursor = Cursor(x: int, y: int, err: int)

  function Abs(n: int): nat
  {
    if n < 0 then -n else n
  }

  function Dx(s: Segment): int { Abs(s.end.x - s.start.x) }
  function Dy(s: Segment): int { Abs(s.end.y - s.start.y) }

  /** Step directions: -1 when the start lies after the end, +1 otherwise. */
  function Sx(s: Segment): int { if s.start.x > s.end.x then -1 else 1 }
  function Sy(s: Segment): int { if s.start.y > s.end.y then -1 else 1 }

  /**
   * The loop state before the first iteration: the start cell, err = dx - dy.
   * It satisfies the loop invariant and the error bound, with every step on
   * both axes still to go.
   */
  function Initial(s: Segment): (c: Cursor)
    ensures Inv(s, c) && ErrBound(s, c)
    ensures Remaining(s, c) == Dx(s) + Dy(s)
  {
    Cursor(s.start.x, s.start.y, Dx(s) - Dy(s))
  }

  function CellOf(c: Cursor): Point { Point(c.x, c.y) }

  /** The loop's only exit condition. */
  predicate AtEnd(s: Segment, c: Cursor)
  {
    c.x == s.end.x && c.y == s.end.y
  }

  /** One iteration after the exit test: compare e2 = 2*err against -dy and dx. */
  function Step(s: Segment, c: Cursor): Cursor
  {
    StepBy(c, Dx(s), Dy(s), Sx(s), Sy(s))
  }

  /** Each coordinate either stays or moves by its step direction. */
  function StepBy(c: Cursor, dx: int, dy: int, sx: int, sy: int): (n: Cursor)
    ensures n.x == c.x || n.x == c.x + sx
    ensures n.y == c.y || n.y == c.y + sy
  {
    var e2 := 2 * c.err;
    var c1 := if e2 > -dy then Cursor(c.x + sx, c.y, c.err - dy) else c;
    if e2 < dx then Cursor(c1.x, c1.y + sy, c1.err + dx) else c1
  }

  /** How many x-steps (resp. y-steps) lie between the start and the cursor. */
  function XSteps(s: Segment, p: Point): int
  {
    if Sx(s) == 1 then p.x - s.start.x else s.start.x - p.x
  }

  function YSteps(s: Segment, p: Point): int
  {
    if Sy(s) == 1 then p.y - s.start.y else s.start.y - p.y
  }

  /**
   * The loop invariant of `drawLine`: the cursor has not passed the end on
   * either axis, and the error term is determined by the steps taken so far.
   */
  ghost predicate Inv(s: Segment, c: Cursor)
  {
    var i := XSteps(s, CellOf(c));
    var j := YSteps(s, CellOf(c));
    && 0 <= i <= Dx(s)
    && 0 <= j <= Dy(s)
    && c.err == Dx(s) - Dy(s) - i * Dy(s) + j * Dx(s)
  }

  /** The termination measure: the steps still missing on both axes. */
  function Remaining(s: Segment, c: Cursor): int
  {
    (Dx(s) - XSteps(s, CellOf(c))) + (Dy(s) - YSteps(s, CellOf(c)))
  }

  lemma MulNonPos(a: int, b: int)
    requires a >= 0 && b <= 0
    ensures a * b <= 0
  {
  }

  /** With x at the end column but y short of the end row, x does not step again. */
  lemma NoOvershootX(s: Segment, c: Cursor)
    requires Inv(s, c) && !AtEnd(s, c) && XSteps(s, CellOf(c)) == Dx(s)
    ensures 2 * c.err <= -Dy(s)
  {
    var dx, dy, j := Dx(s), Dy(s), YSteps(s, CellOf(c));
    assert c.x == s.end.x;
    assert j < dy;
    assert c.err == dx - dy - dx * dy + j * dx;
    assert dx - dx * dy + j * dx == dx * (1 + j - dy);
    MulNonPos(dx, 1 + j - dy);
  }

  /** With y at the end row but x short of the end column, y does not step again. */
  lemma NoOvershootY(s: Segment, c: Cursor)
    requires Inv(s, c) && !AtEnd(s, c) && YSteps(s, CellOf(c)) == Dy(s)
    ensures 2 * c.err >= Dx(s)
  {
    var dx, dy, i := Dx(s), Dy(s), XSteps(s, CellOf(c));
    assert c.y == s.end.y;
    assert i < dx;
    assert c.err == dx - dy - i * dy + dy * dx;
    assert -dy - i * dy + dy * dx == dy * (dx - i - 1);
    MulNonNeg(dy, dx - i - 1);
  }

  lemma MulNonNeg(a: int, b: int)
    requires a >= 0 && b >= 0
    ensures a * b >= 0
  {
  }

  /** What one iteration does to each coordinate and to the error term. */
  lemma StepFields(s: Segment, c: Cursor)
    ensures var n, e2 := Step(s, c), 2 * c.err;
      && n.x == (if e2 > -Dy(s) then c.x + Sx(s) else c.x)
      && n.y == (if e2 < Dx(s) then c.y + Sy(s) else c.y)
      && n.err == c.err - (if e2 > -Dy(s) then Dy(s) else 0) + (if e2 < Dx(s) then Dx(s) else 0)
  {
  }

  /** The error-term identity of `Inv` survives one x-step, one y-step or both. */
  lemma ErrUpdate(dx: int, dy: int, i: int, j: int, err: int, stepX: bool, stepY: bool)
    requires err == dx - dy - i * dy + j * dx
    ensures var i', j' := (if stepX then i + 1 else i), (if stepY then j + 1 else j);
      err - (if stepX then dy else 0) + (if stepY then dx else 0) == dx - dy - i' * dy + j' * dx
  {
    assert (i + 1) * dy == i * dy + dy;
    assert (j + 1) * dx == j * dx + dx;
  }

  /**
   * An iteration that does not exit keeps the invariant, moves to an
   * 8-neighbour in the step directions and strictly reduces the remaining
   * steps: the walk never overshoots the end cell on either axis, and it
   * always moves.
   */
  lemma StepInv(s: Segment, c: Cursor)
    requires Inv(s, c) && !AtEnd(s, c)
    ensures Inv(s, Step(s, c))
    ensures Adjacent(s, CellOf(c), CellOf(Step(s, c)))
    ensures 0 <= Remaining(s, Step(s, c)) < Remaining(s, c)
  {
    var dx, dy := Dx(s), Dy(s);
    var i, j := XSteps(s, CellOf(c)), YSteps(s, CellOf(c));
    var e2 := 2 * c.err;
    if i == dx { NoOvershootX(s, c); }
    if j == dy { NoOvershootY(s, c); }
    var stepX, stepY := e2 > -dy, e2 < dx;
    assert stepX || stepY;
    StepFields(s, c);
    var n := Step(s, c);
    assert XSteps(s, CellOf(n)) == (if stepX then i + 1 else i);
    assert YSteps(s, CellOf(n)) == (if stepY then j + 1 else j);
    ErrUpdate(dx, dy, i, j, c.err, stepX, stepY);
  }

  /** The cells visited from cursor `c` on, in order, including `c`'s own cell. */
  function Walk(s: Segment, c: Cursor): (cells: seq<Point>)
    requires Inv(s, c)
    ensures cells != [] && cells[0] == CellOf(c)
    decreases Remaining(s, c)
  {
    if AtEnd(s, c) then [CellOf(c)]
    else
      StepInv(s, c);
      [CellOf(c)] + Walk(s, Step(s, c))
  }

  /** The cells visited from a cursor that does not exit: its own, then the rest. */
  lemma StepWalk(s: Segment, c: Cursor)
    requires Inv(s, c) && !AtEnd(s, c)
    ensures Inv(s, Step(s, c))
    ensures 0 <= Remaining(s, Step(s, c)) < Remaining(s, c)
    ensures forall p :: p in Walk(s, c) <==> p == CellOf(c) || p in Walk(s, Step(s, c))
  {
    StepInv(s, c);
    assert Walk(s, c) == [CellOf(c)] + Walk(s, Step(s, c));
  }

  /** Every cell `drawLine` visits for segment `s`, in visiting order, starting with the start cell. */
  function Path(s: Segment): (path: seq<Point>)
    ensures path != [] && path[0] == s.start
  {
    Walk(s, Initial(s))
  }

  /** `v` lies between `a` and `b`, whichever of them is larger. */
  predicate Between(v: int, a: int, b: int)
  {
    if a <= b then a <= v <= b else b <= v <= a
  }

  predicate InBox(s: Segment, p: Point)
  {
    Between(p.x, s.start.x, s.end.x) && Between(p.y, s.start.y, s.end.y)
  }

  /**
   * `q` follows `p` on an 8-connected path: each coordinate stays or moves by
   * one in the segment's step direction, and at least one of them moves.
   */
  predicate Adjacent(s: Segment, p: Point, q: Point)
  {
    && (q.x == p.x || q.x == p.x + Sx(s))
    && (q.y == p.y || q.y == p.y + Sy(s))
    && p != q
  }

  lemma {:induction false} WalkEnds(s: Segment, c: Cursor)
    requires Inv(s, c)
    ensures Walk(s, c)[|Walk(s, c)| - 1] == s.end
    decreases Remaining(s, c)
  {
    if !AtEnd(s, c) {
      StepInv(s, c);
      WalkEnds(s, Step(s, c));
    }
  }

  lemma {:induction false} WalkInBox(s: Segment, c: Cursor)
    requires Inv(s, c)
    ensures forall p :: p in Walk(s, c) ==> InBox(s, p)
    decreases Remaining(s, c)
  {
    if !AtEnd(s, c) {
      StepInv(s, c);
      WalkInBox(s, Step(s, c));
    }
  }

  lemma {:induction false} WalkConnected(s: Segment, c: Cursor)
    requires Inv(s, c)
    ensures forall k :: 0 <= k < |Walk(s, c)| - 1 ==> Adjacent(s, Walk(s, c)[k], Walk(s, c)[k + 1])
    decreases Remaining(s, c)
  {
    if !AtEnd(s, c) {
      StepInv(s, c);
      var n := Step(s, c);
      WalkConnected(s, n);
      var w, rest := Walk(s, c), Walk(s, n);
      assert w == [CellOf(c)] + rest;
      forall k | 0 <= k < |w| - 1
        ensures Adjacent(s, w[k], w[k + 1])
      {
        if k == 0 {
          assert w[0] == CellOf(c) && w[1] == rest[0] == CellOf(n);
        } else {
          assert w[k] == rest[k - 1] && w[k + 1] == rest[k];
        }
      }
    }
  }

  /** The number of steps, on both axes together, that lead from the start to `p`. */
  function Progress(s: Segment, p: Point): int
  {
    XSteps(s, p) + YSteps(s, p)
  }

  /** Every cell after the cursor's own has made strictly more progress. */
  lemma {:induction false} WalkProgresses(s: Segment, c: Cursor)
    requires Inv(s, c)
    ensures forall k :: 1 <= k < |Walk(s, c)| ==> Progress(s, Walk(s, c)[k]) > Progress(s, CellOf(c))
    decreases Remaining(s, c)
  {
    if !AtEnd(s, c) {
      StepInv(s, c);
      var n := Step(s, c);
      WalkProgresses(s, n);
      var w, rest := Walk(s, c), Walk(s, n);
      assert w == [CellOf(c)] + rest;
      assert Progress(s, CellOf(n)) > Progress(s, CellOf(c));
      forall k | 1 <= k < |w|
        ensures Progress(s, w[k]) > Progress(s, CellOf(c))
      {
        assert w[k] == rest[k - 1];
        assert k == 1 || Progress(s, rest[k - 1]) > Progress(s, CellOf(n));
      }
    }
  }

  lemma {:induction false} WalkDistinct(s: Segment, c: Cursor)
    requires Inv(s, c)
    ensures forall k, l :: 0 <= k < l < |Walk(s, c)| ==> Walk(s, c)[k] != Walk(s, c)[l]
    decreases Remaining(s, c)
  {
    if !AtEnd(s, c) {
      StepInv(s, c);
      var n := Step(s, c);
      WalkDistinct(s, n);
      WalkProgresses(s, c);
      var w, rest := Walk(s, c), Walk(s, n);
      assert w == [CellOf(c)] + rest;
      forall k, l | 0 <= k < l < |w|
        ensures w[k] != w[l]
      {
        if k == 0 {
          assert Progress(s, w[l]) > Progress(s, w[0]);
        } else {
          assert w[k] == rest[k - 1] && w[l] == rest[l - 1];
        }
      }
    }
  }

  function Max(a: int, b: int): int
  {
    if a < b then b else a
  }

  /**
   * The bound every reachable error term keeps: 2*err stays within
   * Max(dx, dy) of its starting value 2*(dx - dy).
   */
  predicate ErrBound(s: Segment, c: Cursor)
  {
    var dx, dy := Dx(s), Dy(s);
    2 * (dx - dy) - Max(dx, dy) <= 2 * c.err <= 2 * (dx - dy) + Max(dx, dy)
  }

  /** Every iteration keeps the error bound. */
  lemma StepBound(s: Segment, c: Cursor)
    requires ErrBound(s, c)
    ensures ErrBound(s, Step(s, c))
  {
    StepFields(s, c);
  }

  /** The steps taken along the longer axis (x when both are equally long). */
  function Major(s: Segment, p: Point): int
  {
    if Dx(s) >= Dy(s) then XSteps(s, p) else YSteps(s, p)
  }

  /** A nonzero multiple of a positive d is at least d away from 0. */
  lemma MulAwayFromZero(d: int, k: int)
    requires d > 0
    ensures k > 0 ==> d * k >= d
    ensures k < 0 ==> d * k <= -d
  {
    if k > 0 {
      assert d * k == d * (k - 1) + d;
      MulNonNeg(d, k - 1);
    } else if k < 0 {
      assert d * k == -(d * (-k - 1)) - d;
      MulNonNeg(d, -k - 1);
    }
  }

  /**
   * Before an iteration that does not exit, the error term lets the longer
   * axis move: 2*err > -dy when dx >= dy, and 2*err < dx when dx < dy.
   */
  lemma MajorAxisMoves(s: Segment, c: Cursor)
    requires Inv(s, c) && ErrBound(s, c) && !AtEnd(s, c)
    ensures Dx(s) >= Dy(s) ==> 2 * c.err > -Dy(s)
    ensures Dx(s) < Dy(s) ==> 2 * c.err < Dx(s)
  {
    var dx, dy := Dx(s), Dy(s);
    if dx == dy {
      var i, j := XSteps(s, CellOf(c)), YSteps(s, CellOf(c));
      if dx > 0 {
        assert c.err == dx * (j - i);
        MulAwayFromZero(dx, j - i);
      } else {
        assert false;
      }
    }
  }

  /**
   * An iteration that does not exit moves exactly one step along the longer
   * axis, which has not yet reached its end.
   */
  lemma MajorStep(s: Segment, c: Cursor)
    requires Inv(s, c) && ErrBound(s, c) && !AtEnd(s, c)
    ensures Major(s, CellOf(c)) < Max(Dx(s), Dy(s))
    ensures Major(s, CellOf(Step(s, c))) == Major(s, CellOf(c)) + 1
  {
    MajorAxisMoves(s, c);
    StepFields(s, c);
    if Dx(s) >= Dy(s) {
      if XSteps(s, CellOf(c)) == Dx(s) { NoOvershootX(s, c); }
    } else {
      if YSteps(s, CellOf(c)) == Dy(s) { NoOvershootY(s, c); }
    }
  }

  /** From cursor `c`, the walk has one cell per remaining step along the longer axis, plus its own. */
  lemma {:induction false} WalkLength(s: Segment, c: Cursor)
    requires Inv(s, c) && ErrBound(s, c)
    ensures |Walk(s, c)| == Max(Dx(s), Dy(s)) - Major(s, CellOf(c)) + 1
    decreases Remaining(s, c)
  {
    if AtEnd(s, c) {
      assert XSteps(s, CellOf(c)) == Dx(s) && YSteps(s, CellOf(c)) == Dy(s);
    } else {
      var n := Step(s, c);
      StepInv(s, c);
      StepBound(s, c);
      MajorStep(s, c);
      WalkLength(s, n);
      assert Walk(s, c) == [CellOf(c)] + Walk(s, n);
    }
  }

  /**
   * Cell `p` lies within half a cell of the straight line from the start to
   * the end, measured along the longer axis: with i x-steps and j y-steps
   * taken, |i*dy - j*dx| is at most Max(dx, dy) / 2.
   */
  predicate NearLine(s: Segment, p: Point)
  {
    2 * Abs(XSteps(s, p) * Dy(s) - YSteps(s, p) * Dx(s)) <= Max(Dx(s), Dy(s))
  }

  lemma CursorNearLine(s: Segment, c: Cursor)
    requires Inv(s, c) && ErrBound(s, c)
    ensures NearLine(s, CellOf(c))
  {
    var i, j := XSteps(s, CellOf(c)), YSteps(s, CellOf(c));
    assert i * Dy(s) - j * Dx(s) == Dx(s) - Dy(s) - c.err;
  }

  lemma {:induction false} WalkNearLine(s: Segment, c: Cursor)
    requires Inv(s, c) && ErrBound(s, c)
    ensures forall p :: p in Walk(s, c) ==> NearLine(s, p)
    decreases Remaining(s, c)
  {
    CursorNearLine(s, c);
    if !AtEnd(s, c) {
      StepWalk(s, c);
      StepBound(s, c);
      WalkNearLine(s, Step(s, c));
    }
  }

  /**
   * The walk terminates at the end cell: `Path` starts at the start point and
   * its last cell is the end point (the loop's only exit).
   */
  lemma PathEnds(s: Segment)
    ensures Path(s) != []
    ensures Path(s)[0] == s.start
    ensures Path(s)[|Path(s)| - 1] == s.end
  {
    WalkEnds(s, Initial(s));
  }

  /** Every visited cell lies in the bounding box of the two endpoints. */
  lemma PathInBox(s: Segment)
    ensures forall p :: p in Path(s) ==> InBox(s, p)
  {
    WalkInBox(s, Initial(s));
  }

  /** Successive cells are 8-neighbours reached by moving along `Sx`/`Sy`. */
  lemma PathConnected(s: Segment)
    ensures var w := Path(s);
      forall k :: 0 <= k < |w| - 1 ==> Adjacent(s, w[k], w[k + 1])
  {
    assert Path(s) == Walk(s, Initial(s));
    WalkConnected(s, Initial(s));
  }

  /** No cell is visited twice. */
  lemma PathDistinct(s: Segment)
    ensures var w := Path(s);
      forall k, l :: 0 <= k < l < |w| ==> w[k] != w[l]
  {
    assert Path(s) == Walk(s, Initial(s));
    WalkDistinct(s, Initial(s));
  }

  /**
   * One cell per step along the longer axis: the walk has Max(dx, dy) + 1
   * cells, so it does not mark every cell the straight line crosses.
   */
  lemma PathLength(s: Segment)
    ensures |Path(s)| == Max(Dx(s), Dy(s)) + 1
  {
    WalkLength(s, Initial(s));
  }

  /** Every visited cell lies within half a cell of the straight line between the endpoints. */
  lemma PathNearLine(s: Segment)
    ensures forall p :: p in Path(s) ==> NearLine(s, p)
  {
    WalkNearLine(s, Initial(s));
  }

  /** Identical endpoints: the walk visits exactly that one cell. */
  lemma PathOfPoint(p: Point)
    ensures Path(Segment(p, p)) == [p]
  {
  }

  /** A horizontal walk left to right visits each cell of the row once, in order. */
  lemma {:induction false} HorizontalWalk(s: Segment, c: Cursor)
    requires s.start.y == s.end.y && s.start.x <= s.end.x
    requires Inv(s, c)
    ensures Walk(s, c) == seq(s.end.x - c.x + 1, k => Point(c.x + k, s.end.y))
    decreases Remaining(s, c)
  {
    var dx := Dx(s);
    assert Dy(s) == 0 && c.y == s.end.y;
    assert XSteps(s, CellOf(c)) * Dy(s) == 0;
    assert c.err == dx;
    if !AtEnd(s, c) {
      StepInv(s, c);
      var n := Step(s, c);
      assert n == Cursor(c.x + 1, c.y, dx);
      HorizontalWalk(s, n);
    }
  }

  lemma HorizontalPath(x0: int, x1: int, y: int)
    requires x0 <= x1
    ensures Path(Segment(Point(x0, y), Point(x1, y))) == seq(x1 - x0 + 1, k => Point(x0 + k, y))
  {
    var s := Segment(Point(x0, y), Point(x1, y));
    HorizontalWalk(s, Initial(s));
  }

  /** Unless the walk starts at its end, its second cell is one step from the start. */
  lemma SecondCell(s: Segment)
    requires s.start != s.end
    ensures CellOf(Step(s, Initial(s))) in Path(s)
  {
    var c := Initial(s);
    StepWalk(s, c);
    var n := Step(s, c);
    assert Walk(s, n)[0] == CellOf(n);
    assert Path(s) == Walk(s, c);
  }

  /** The diagonal from (-1,-1) to (1,1) passes through (0,0). */
  lemma DiagonalCrossesOrigin()
    ensures Point(0, 0) in Path(Segment(Point(-1, -1), Point(1, 1)))
  {
    var s := Segment(Point(-1, -1), Point(1, 1));
    SecondCell(s);
    assert Step(s, Initial(s)) == Cursor(0, 0, 0);
  }

  /** A left-to-right horizontal walk visits exactly the cells of its row between the endpoints. */
  lemma HorizontalCells(x0: int, x1: int, y: int)
    requires x0 <= x1
    ensures forall p :: p in Path(Segment(Point(x0, y), Point(x1, y))) <==> p.y == y && x0 <= p.x <= x1
  {
    HorizontalPath(x0, x1, y);
    var w := Path(Segment(Point(x0, y), Point(x1, y)));
    forall p: Point | p.y == y && x0 <= p.x <= x1
      ensures p in w
    {
      assert w[p.x - x0] == p;
    }
  }

  /** The segment from (0,0) to (5,0) visits exactly the cells (0,0)..(5,0). */
  lemma ExamplePath()
    ensures forall p :: p in Path(Segment(Point(0, 0), Point(5, 0))) <==> p.y == 0 && 0 <= p.x <= 5
  {
    HorizontalCells(0, 5, 0);
  }
}
