/**
 * The occupancy grid and `drawLine`. The grid is a `scale` x `scale` array of
 * ints indexed `[row, column]`, that is `[y, x]`. `Plot` is the effect of one
 * `drawLine` call on the grid's contents, and `DrawLine` is the loop itself,
 * proved to have exactly that effect.
 */
module Raster {
  import opened Bresenham

  /** Grid contents, row by row (`g[y][x]`). */
  type Grid = seq<seq<int>>

  /** The bounds test in front of every write. */
  predicate InBounds(p: Point, scale: int)
  {
    0 <= p.x < scale && 0 <= p.y < scale
  }

  /** The contents of an array grid, row by row. */
  ghost function Rows(grid: array2<int>): (g: Grid)
    reads grid
    ensures |g| == grid.Length0
    ensures forall r :: 0 <= r < |g| ==> |g[r]| == grid.Length1
    ensures forall r, c :: 0 <= r < grid.Length0 && 0 <= c < grid.Length1 ==> g[r][c] == grid[r, c]
  {
    seq(grid.Length0, r requires 0 <= r < grid.Length0 reads grid =>
      seq(grid.Length1, c requires 0 <= c < grid.Length1 reads grid => grid[r, c]))
  }

  /**
   * The grid after drawing segment `s`: a cell holds 1 when the walk passes
   * through it inside the bounds, and keeps its old value otherwise.
   */
  function Plot(g: Grid, s: Segment, scale: int): (h: Grid)
    ensures |h| == |g| && forall r :: 0 <= r < |g| ==> |h[r]| == |g[r]|
  {
    var path := Path(s);
    seq(|g|, r requires 0 <= r < |g| =>
      seq(|g[r]|, c requires 0 <= c < |g[r]| =>
        if InBounds(Point(c, r), scale) && Point(c, r) in path then 1 else g[r][c]))
  }

  /**
   * Draws the line from `v1` to `v2` into `grid`. Only the bounds test against
   * `scale` guards the write, so the grid must have at least `scale` rows and
   * `scale` columns.
   */
  method DrawLine(v1: Point, v2: Point, scale: int, grid: array2<int>)
    requires scale <= grid.Length0 && scale <= grid.Length1
    modifies grid
    ensures forall r, c :: 0 <= r < grid.Length0 && 0 <= c < grid.Length1 ==>
      grid[r, c] == if InBounds(Point(c, r), scale) && Point(c, r) in Path(Segment(v1, v2)) then 1 else old(grid[r, c])
    ensures Rows(grid) == Plot(old(Rows(grid)), Segment(v1, v2), scale)
  {
    ghost var s := Segment(v1, v2);
    ghost var g0 := Rows(grid);
    var startX, startY := v1.x, v1.y;
    var endX, endY := v2.x, v2.y;
    var dx: int := Abs(endX - startX);
    var dy: int := Abs(endY - startY);
    var sx, sy := 1, 1;
    if startX > endX {
      sx := -1;
    }
    if startY > endY {
      sy := -1;
    }
    var err := dx - dy;
    assert dx == Dx(s) && dy == Dy(s) && sx == Sx(s) && sy == Sy(s);
    var x, y := startX, startY;
    // the cells visited so far
    ghost var done: set<Point> := {};
    assert Cursor(x, y, err) == Initial(s);
    while true
      invariant Inv(s, Cursor(x, y, err))
      invariant forall p :: p in Path(s) <==> p in done || p in Walk(s, Cursor(x, y, err))
      invariant forall r, c :: 0 <= r < grid.Length0 && 0 <= c < grid.Length1 ==>
        grid[r, c] == if InBounds(Point(c, r), scale) && Point(c, r) in done then 1 else g0[r][c]
      decreases Remaining(s, Cursor(x, y, err))
    {
      Mark(grid, x, y, scale);
      done := done + {Point(x, y)};
      if x == endX && y == endY {
        break;
      }
      ghost var before := Cursor(x, y, err);
      x, y, err := Advance(x, y, err, dx, dy, sx, sy);
      StepWalk(s, before);
    }
    PlotUnique(g0, Rows(grid), s, scale);
  }

  /** The bounds-checked write: cell (x, y) is set to 1 only when it lies in [0, scale)². */
  method Mark(grid: array2<int>, x: int, y: int, scale: int)
    requires scale <= grid.Length0 && scale <= grid.Length1
    modifies grid
    ensures forall r, c :: 0 <= r < grid.Length0 && 0 <= c < grid.Length1 ==>
      grid[r, c] == if InBounds(Point(c, r), scale) && Point(c, r) == Point(x, y) then 1 else old(grid[r, c])
  {
    if x >= 0 && x < scale && y >= 0 && y < scale {
      grid[y, x] := 1;
    }
  }

  /**
   * One error-term update of the loop: x moves by `sx` when 2*err > -dy, y
   * moves by `sy` when 2*err < dx, and err is adjusted for each move.
   */
  method Advance(x: int, y: int, err: int, dx: int, dy: int, sx: int, sy: int)
    returns (x': int, y': int, err': int)
    ensures Cursor(x', y', err') == StepBy(Cursor(x, y, err), dx, dy, sx, sy)
  {
    x', y', err' := x, y, err;
    var e2 := 2 * err;
    if e2 > -dy {
      err' := err' - dy;
      x' := x' + sx;
    }
    if e2 < dx {
      err' := err' + dx;
      y' := y' + sy;
    }
  }

  /** A grid that agrees with `Plot` on every cell is `Plot`'s result. */
  lemma PlotUnique(g: Grid, h: Grid, s: Segment, scale: int)
    requires |h| == |g| && forall r :: 0 <= r < |g| ==> |h[r]| == |g[r]|
    requires forall r, c :: 0 <= r < |g| && 0 <= c < |g[r]| ==>
      h[r][c] == if InBounds(Point(c, r), scale) && Point(c, r) in Path(s) then 1 else g[r][c]
    ensures h == Plot(g, s, scale)
  {
    var p := Plot(g, s, scale);
    forall r | 0 <= r < |g|
      ensures h[r] == p[r]
    {
    }
  }

  /**
   * Drawing only ever stores 1, only inside the bounds and only on the walk:
   * every other cell keeps its value, and a cell already 1 stays 1.
   */
  lemma PlotOnlyMarks(g: Grid, s: Segment, scale: int, r: int, c: int)
    requires 0 <= r < |g| && 0 <= c < |g[r]|
    ensures |Plot(g, s, scale)| == |g| && |Plot(g, s, scale)[r]| == |g[r]|
    ensures Plot(g, s, scale)[r][c] != g[r][c] ==>
      Plot(g, s, scale)[r][c] == 1 && InBounds(Point(c, r), scale) && InBox(s, Point(c, r))
    ensures g[r][c] == 1 ==> Plot(g, s, scale)[r][c] == 1
  {
    PathInBox(s);
  }

  /** Drawing the same segment twice has the effect of drawing it once. */
  lemma PlotIdempotent(g: Grid, s: Segment, scale: int)
    ensures Plot(Plot(g, s, scale), s, scale) == Plot(g, s, scale)
  {
    var once := Plot(g, s, scale);
    var twice := Plot(once, s, scale);
    forall r | 0 <= r < |g|
      ensures twice[r] == once[r]
    {
    }
  }

  /** Two segments drawn into the same grid give the same result in either order. */
  lemma PlotCommutes(g: Grid, a: Segment, b: Segment, scale: int)
    ensures Plot(Plot(g, a, scale), b, scale) == Plot(Plot(g, b, scale), a, scale)
  {
    var ab := Plot(Plot(g, a, scale), b, scale);
    var ba := Plot(Plot(g, b, scale), a, scale);
    forall r | 0 <= r < |g|
      ensures ab[r] == ba[r]
    {
    }
  }

  /** Both endpoints are marked whenever they are inside the bounds. */
  lemma PlotMarksEndpoints(g: Grid, s: Segment, scale: int)
    requires |g| >= scale && forall r :: 0 <= r < |g| ==> |g[r]| >= scale
    ensures InBounds(s.start, scale) ==> Plot(g, s, scale)[s.start.y][s.start.x] == 1
    ensures InBounds(s.end, scale) ==> Plot(g, s, scale)[s.end.y][s.end.x] == 1
  {
    PathEnds(s);
    var path := Path(s);
    assert s.start == path[0] && s.end == path[|path| - 1];
  }

  /** With identical endpoints exactly one cell is marked (when it is in bounds). */
  lemma PlotPoint(g: Grid, p: Point, scale: int, r: int, c: int)
    requires 0 <= r < |g| && 0 <= c < |g[r]|
    ensures Plot(g, Segment(p, p), scale)[r][c] ==
      if InBounds(p, scale) && p == Point(c, r) then 1 else g[r][c]
  {
    PathOfPoint(p);
  }

  /**
   * A segment whose bounding box lies wholly left of, right of, above or
   * below the grid marks nothing.
   */
  lemma PlotOutside(g: Grid, s: Segment, scale: int)
    requires || (s.start.x < 0 && s.end.x < 0) || (s.start.x >= scale && s.end.x >= scale)
             || (s.start.y < 0 && s.end.y < 0) || (s.start.y >= scale && s.end.y >= scale)
    ensures Plot(g, s, scale) == g
  {
    PathInBox(s);
    var after := Plot(g, s, scale);
    forall r | 0 <= r < |g|
      ensures after[r] == g[r]
    {
    }
  }

  /**
   * Endpoints outside the bounds in both coordinates do not by themselves keep
   * the grid unchanged: the walk from (-1,-1) to (1,1) crosses cell (0,0) of a
   * 1 x 1 grid and marks it.
   */
  lemma PlotCrossing(g: Grid)
    requires |g| >= 1 && |g[0]| >= 1
    ensures Plot(g, Segment(Point(-1, -1), Point(1, 1)), 1)[0][0] == 1
  {
    DiagonalCrossesOrigin();
  }

  /**
   * From (0,0) to (5,0), on a grid at least 6 x 6, exactly the cells
   * (0,0)..(5,0) are marked.
   */
  lemma PlotExample(g: Grid, scale: int, r: int, c: int)
    requires scale >= 6
    requires 0 <= r < |g| && 0 <= c < |g[r]|
    ensures Plot(g, Segment(Point(0, 0), Point(5, 0)), scale)[r][c] ==
      if r == 0 && 0 <= c <= 5 then 1 else g[r][c]
  {
    ExamplePath();
  }
}
