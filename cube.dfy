/**
 * The raster half of `drawCube`: a zeroed `scale` x `scale` grid, every edge
 * of the cube drawn into that one grid, then the grid printed. The corners
 * arrive already projected and truncated to integer cells; the projection
 * itself is floating-point code outside this model.
 */
module Cube {
  import opened Bresenham
  import opened Raster
  import opened Geometry
  import opened Printer

  /** The side of the square frame. */
  const Scale: nat := 70

  /** A grid of `scale` rows of `scale` zeros. */
  function Blank(scale: nat): (g: Grid)
    ensures |g| == scale
    ensures forall r :: 0 <= r < scale ==> |g[r]| == scale
    ensures forall r, c :: 0 <= r < scale && 0 <= c < scale ==> g[r][c] == 0
  {
    seq(scale, _ => seq(scale, _ => 0))
  }

  /** The segment drawn for one edge row: from the corner at e[0] to the corner at e[1]. */
  function EdgeSegment(projected: seq<Point>, e: seq<int>): Segment
    requires ValidEdge(e, |projected|)
  {
    Segment(projected[e[0]], projected[e[1]])
  }

  /** The segments drawn for the edge table, in table order. */
  function EdgeSegments(projected: seq<Point>): (segs: seq<Segment>)
    requires |projected| == |Vertices|
    ensures |segs| == |Edges|
    ensures forall k :: 0 <= k < |Edges| ==>
      ValidEdge(Edges[k], |projected|) && segs[k] == EdgeSegment(projected, Edges[k])
  {
    EdgeTableValid();
    seq(|Edges|, k requires 0 <= k < |Edges| => EdgeSegment(projected, Edges[k]))
  }

  /** Every segment of `segs` drawn into `g`, first to last. */
  function PlotAll(g: Grid, segs: seq<Segment>, scale: int): (h: Grid)
    ensures |h| == |g| && forall r :: 0 <= r < |g| ==> |h[r]| == |g[r]|
    decreases |segs|
  {
    if segs == [] then g
    else Plot(PlotAll(g, segs[..|segs| - 1], scale), segs[|segs| - 1], scale)
  }

  /** Cell (c, r) lies, inside the bounds, on the walk of some segment of `segs`. */
  predicate Covered(segs: seq<Segment>, scale: int, r: int, c: int)
  {
    InBounds(Point(c, r), scale) && exists k :: 0 <= k < |segs| && Point(c, r) in Path(segs[k])
  }

  /**
   * After drawing every segment a cell holds 1 exactly when some segment's
   * walk passes through it inside the bounds, and keeps its value otherwise.
   */
  lemma {:induction false} PlotAllAt(g: Grid, segs: seq<Segment>, scale: int, r: int, c: int)
    requires 0 <= r < |g| && 0 <= c < |g[r]|
    ensures PlotAll(g, segs, scale)[r][c] == if Covered(segs, scale, r, c) then 1 else g[r][c]
    decreases |segs|
  {
    if segs != [] {
      var m := |segs| - 1;
      var init := segs[..m];
      PlotAllAt(g, init, scale, r, c);
      var p := Point(c, r);
      if Covered(segs, scale, r, c) && !(p in Path(segs[m])) {
        var k :| 0 <= k < |segs| && p in Path(segs[k]);
        assert init[k] == segs[k];
      }
      if Covered(init, scale, r, c) {
        var k :| 0 <= k < |init| && p in Path(init[k]);
        assert segs[k] == init[k];
      }
    }
  }

  /** Two grids of the same shape that agree on every cell are equal. */
  lemma SameCells(g: Grid, h: Grid)
    requires |h| == |g| && forall r :: 0 <= r < |g| ==> |h[r]| == |g[r]|
    requires forall r, c :: 0 <= r < |g| && 0 <= c < |g[r]| ==> h[r][c] == g[r][c]
    ensures h == g
  {
    forall r | 0 <= r < |g|
      ensures h[r] == g[r]
    {
    }
  }

  /** The drawn grid depends only on which segments are drawn, not on their order or repetition. */
  lemma PlotAllOrderFree(g: Grid, a: seq<Segment>, b: seq<Segment>, scale: int)
    requires forall s :: s in a <==> s in b
    ensures PlotAll(g, a, scale) == PlotAll(g, b, scale)
  {
    var ga, gb := PlotAll(g, a, scale), PlotAll(g, b, scale);
    forall r, c | 0 <= r < |g| && 0 <= c < |g[r]|
      ensures gb[r][c] == ga[r][c]
    {
      PlotAllAt(g, a, scale, r, c);
      PlotAllAt(g, b, scale, r, c);
      if Covered(a, scale, r, c) {
        var k :| 0 <= k < |a| && Point(c, r) in Path(a[k]);
        assert a[k] in b;
        var l :| 0 <= l < |b| && b[l] == a[k];
      }
      if Covered(b, scale, r, c) {
        var k :| 0 <= k < |b| && Point(c, r) in Path(b[k]);
        assert b[k] in a;
        var l :| 0 <= l < |a| && a[l] == b[k];
      }
    }
    SameCells(ga, gb);
  }

  /** A zeroed array reads as `Blank`. */
  lemma BlankRows(g: Grid, scale: nat)
    requires |g| == scale && forall r :: 0 <= r < scale ==> |g[r]| == scale
    requires forall r, c :: 0 <= r < scale && 0 <= c < scale ==> g[r][c] == 0
    ensures g == Blank(scale)
  {
    SameCells(Blank(scale), g);
  }

  /**
   * Allocates a zeroed `scale` x `scale` grid and draws every edge of the
   * table into it, in table order.
   */
  method Rasterize(projected: seq<Point>, scale: nat) returns (grid: array2<int>)
    requires |projected| == |Vertices|
    ensures fresh(grid)
    ensures grid.Length0 == scale && grid.Length1 == scale
    ensures Rows(grid) == PlotAll(Blank(scale), EdgeSegments(projected), scale)
  {
    grid := new int[scale, scale]((_, _) => 0);
    BlankRows(Rows(grid), scale);
    ghost var segs := EdgeSegments(projected);
    EdgeTableValid();
    for k := 0 to |Edges|
      invariant Rows(grid) == PlotAll(Blank(scale), segs[..k], scale)
    {
      var edge := Edges[k];
      var v1 := projected[edge[0]];
      var v2 := projected[edge[1]];
      DrawLine(v1, v2, scale, grid);
      assert segs[..k + 1][..k] == segs[..k];
    }
    assert segs[..|Edges|] == segs;
  }

  /**
   * One frame: the edges drawn into a fresh 70 x 70 grid, then printed.
   * Returns the printed text.
   */
  method DrawCube(projected: seq<Point>) returns (frame: seq<char>)
    requires |projected| == |Vertices|
    ensures frame == Render(PlotAll(Blank(Scale), EdgeSegments(projected), Scale))
    ensures |frame| == Scale * (Scale + 1)
  {
    var grid := Rasterize(projected, Scale);
    frame := PrintGrid(grid);
  }

  /**
   * The character printed for row r, column c of a frame: the block exactly
   * when some edge's walk passes through cell (c, r), a space otherwise, and
   * a newline after the last column.
   */
  lemma FrameAt(projected: seq<Point>, r: int, c: int)
    requires |projected| == |Vertices|
    requires 0 <= r < Scale && 0 <= c <= Scale
    ensures var frame := Render(PlotAll(Blank(Scale), EdgeSegments(projected), Scale));
      |frame| == Scale * (Scale + 1) &&
      frame[r * (Scale + 1) + c] ==
        if c == Scale then '\n'
        else if exists k :: 0 <= k < |Edges| && Point(c, r) in Path(EdgeSegments(projected)[k]) then Block
        else ' '
  {
    var g := PlotAll(Blank(Scale), EdgeSegments(projected), Scale);
    RenderAt(g, Scale, r, c);
    if c < Scale {
      PlotAllAt(Blank(Scale), EdgeSegments(projected), Scale, r, c);
    }
  }

  /** Every projected corner that lands inside the frame is marked. */
  lemma CornersMarked(projected: seq<Point>, scale: nat, v: int)
    requires |projected| == |Vertices|
    requires 0 <= v < |Vertices| && InBounds(projected[v], scale)
    ensures PlotAll(Blank(scale), EdgeSegments(projected), scale)[projected[v].y][projected[v].x] == 1
  {
    var segs := EdgeSegments(projected);
    var p := projected[v];
    assert Edges[v][0] == v;
    PathEnds(segs[v]);
    assert p == Path(segs[v])[0];
    PlotAllAt(Blank(scale), segs, scale, p.y, p.x);
  }
}
