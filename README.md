# Spinning cube: verified raster pipeline

A Dafny model of the integer half of a terminal program that draws a rotating
wire-frame cube. Each frame, the program projects the cube's eight corners to
screen cells and draws its twelve edges into a fresh 70 x 70 grid of ints with
an all-octant Bresenham line walk (`drawLine`). It then prints the grid as one
block glyph per set cell and a space per other cell, with a newline after each
row (`printGrid`).

The model has one module per concern, each in its own file:

- `bresenham.dfy` (`Bresenham`): the line walk as pure functions.
  - `Step` is one loop iteration.
  - `Walk`/`Path` is the sequence of cells the loop visits.
  - Lemmas prove the walk terminates at the end cell, stays in the bounding
    box, moves to an 8-neighbour along `sx`/`sy` each time, and never revisits
    a cell.
  - They also prove it has exactly one cell per step along the longer axis,
    and every cell lies within half a cell of the straight line between the
    endpoints.
- `raster.dfy` (`Raster`): `DrawLine`, the loop itself over an `array2<int>`
  indexed `[y, x]`. It is proved to have exactly the effect `Plot`. `Plot` is
  a function on grid contents; its properties are idempotence, commutation
  with other segments, endpoints marked and writes only inside the bounds.
- `geometry.dfy` (`Geometry`): the constant corner and edge tables, and facts
  about them.
- `printer.dfy` (`Printer`): `PrintGrid`, nested loops over the array. It is
  proved equal to the pure frame text `Render`, whose length and
  per-character content are proved.
- `cube.dfy` (`Cube`): the raster half of `drawCube`.
  - `Rasterize` allocates the zeroed grid and draws every edge in table order.
  - `DrawCube` rasterizes and prints one frame.
  - Lemmas characterise each cell and each printed character, and show that
    edge order does not matter.

`drawLine` receives integer endpoints. The corners handed to `Rasterize` and
`DrawCube` are therefore already projected and truncated to cells.

Where the design description and the code differ, the model follows the code.
The description says a segment whose coordinates lie entirely outside
`[0, scale)` marks nothing. The code only guarantees that when the segment's
whole bounding box misses the grid (`Raster.PlotOutside`). Endpoints that are
outside in both coordinates can still give a walk that crosses the grid
(`Raster.PlotCrossing`).

The description also speaks of marking the cells the straight line crosses.
The code marks one cell per step along the longer axis, `max(dx, dy) + 1`
cells in all (`Bresenham.PathLength`). Each of those cells is the one nearest
the line at that step (`Bresenham.PathNearLine`), so some cells the line
crosses stay unmarked.

## Model

| member | source | states |
|---|---|---|
| Raster.DrawLine | main.go:155-190 | For any endpoints, the loop terminates. Every cell of the grid ends up 1 exactly when it is in `[0, scale)²` and on the walk from `v1` to `v2`; every other cell keeps its old value. It needs only a grid of at least `scale` x `scale`. |
| Raster.Mark | main.go:174-176 | The guarded write sets cell (x, y) to 1 when it lies in `[0, scale)²` and changes nothing else. |
| Raster.Advance | main.go:180-188 | One error-term update of the loop agrees with the specification step `StepBy`. |
| Bresenham.Initial | main.go:161-172 | The loop state before the first iteration: the start cell with `err = dx - dy`. It satisfies the loop invariant and the error bound, with `dx + dy` steps still to go. |
| Bresenham.StepBy | main.go:180-188 | One error-term update: x moves by `sx` when `2*err > -dy` and y by `sy` when `2*err < dx`, both tests reading the old `err`. Each coordinate either stays or moves by its step direction. |
| Bresenham.Step | main.go:161-169 | `StepBy` with the segment's own `dx = |endX-startX|`, `dy = |endY-startY|` and the step directions `sx`, `sy` (-1 when the start lies after the end). |
| Bresenham.StepInv | main.go:180-188 | A step from a non-final cursor keeps the invariant `err == dx - dy - i*dy + j*dx` with `0 <= i <= dx` and `0 <= j <= dy`. It moves to an 8-neighbour along `sx`/`sy` and strictly decreases the remaining step count. |
| Bresenham.NoOvershootX | main.go:181-184 | Once x has reached the end column, the x-branch of the step is not taken. |
| Bresenham.NoOvershootY | main.go:185-188 | Once y has reached the end row, the y-branch of the step is not taken. |
| Bresenham.Walk | main.go:172-189 | The cells visited from a cursor begin with that cursor's own cell. |
| Bresenham.StepWalk | main.go:173-189 | The cells visited from a cursor that does not exit are its own cell followed by those visited from the next cursor. |
| Bresenham.Path | main.go:172-189 | The cells the loop visits, in order, from the initial state until the exit test holds. The first cell is the start cell. |
| Bresenham.StepBound | main.go:180-188 | Every iteration keeps `2*err` within `max(dx, dy)` of `2*(dx - dy)`. |
| Bresenham.MajorAxisMoves | main.go:180-188 | Before an iteration that does not exit, the branch of the longer axis is taken: `2*err > -dy` when `dx >= dy`, else `2*err < dx`. |
| Bresenham.MajorStep | main.go:180-188 | An iteration that does not exit moves exactly one step along the longer axis, which has not yet reached its end. |
| Bresenham.WalkLength | main.go:172-189 | From any reachable state, the remaining walk has one cell per step still to go along the longer axis, plus the current cell. |
| Bresenham.WalkNearLine | main.go:172-189 | Every cell from a reachable state on lies within half a cell of the straight line. |
| Bresenham.PathLength | main.go:172-189 | The walk has exactly `max(dx, dy) + 1` cells. |
| Bresenham.PathNearLine | main.go:161-189 | Every visited cell, with `i` steps taken in x and `j` in y, has `2*|i*dy - j*dx| <= max(dx, dy)`: it is within half a cell of the straight line. |
| Bresenham.PathEnds | main.go:172-189 | The walk starts at the start cell and its last cell is the end cell, the loop's only exit. |
| Bresenham.PathInBox | main.go:163-188 | Every visited cell lies in the bounding box of the two endpoints. |
| Bresenham.PathConnected | main.go:163-188 | Successive visited cells are 8-neighbours, each coordinate moving by 0 or by `sx`/`sy`. |
| Bresenham.PathDistinct | main.go:172-189 | No cell is visited twice. |
| Bresenham.PathOfPoint | main.go:172-178 | With identical endpoints the walk is exactly that one cell. |
| Bresenham.HorizontalPath | main.go:161-189 | A left-to-right horizontal segment visits each cell of its row once, in order. |
| Bresenham.HorizontalCells | main.go:161-189 | A left-to-right horizontal segment visits exactly the cells of its row between the two endpoints. |
| Bresenham.ExamplePath | main.go:161-189 | The segment (0,0)-(5,0) visits exactly the cells (0,0)..(5,0). |
| Bresenham.SecondCell | main.go:172-189 | When start and end differ, the cell after one step is visited. |
| Bresenham.DiagonalCrossesOrigin | main.go:161-189 | The walk from (-1,-1) to (1,1) passes through (0,0). |
| Raster.Plot | main.go:155-190 | The grid after one `drawLine`: a cell is 1 when it is in `[0, scale)²` and on `Path`, and keeps its value otherwise. The grid's shape is unchanged. |
| Raster.PlotOnlyMarks | main.go:174-176 | A drawn cell changes only to 1, only inside the bounds and the bounding box; a cell already 1 stays 1. |
| Raster.PlotIdempotent | main.go:175 | Drawing the same segment twice equals drawing it once. |
| Raster.PlotCommutes | main.go:174-176 | Two segments drawn into one grid give the same grid in either order. |
| Raster.PlotMarksEndpoints | main.go:172-178 | Start and end cells are set to 1 whenever they are in bounds. |
| Raster.PlotPoint | main.go:172-178 | With identical endpoints, exactly that cell is set, if it is in bounds. |
| Raster.PlotOutside | main.go:174-176 | A segment whose bounding box lies wholly left of, right of, above or below the grid leaves it unchanged. |
| Raster.PlotCrossing | main.go:172-176 | Endpoints outside the grid in both coordinates can still mark a cell: (-1,-1)-(1,1) marks (0,0). |
| Raster.PlotExample | main.go:161-189 | On a grid of at least 6 x 6, the segment (0,0)-(5,0) sets exactly cells (0,0)..(5,0). |
| Geometry.EdgeTableValid | main.go:15-30 | There are 8 corners and 12 edges, and every edge is a pair of indices in `[0, 8)`. |
| Geometry.VerticesAreCorners | main.go:15-24 | The corners are 8 distinct points with every coordinate 0 or 1. |
| Geometry.EdgesAreUnitSteps | main.go:15-30 | Every edge joins two corners that differ by 1 in exactly one coordinate. |
| Geometry.EdgesDistinct | main.go:26-30 | No two edges join the same pair of corners in either order. |
| Geometry.EdgesComplete | main.go:15-30 | Every pair of corners one unit apart is joined by some edge. |
| Cube.Blank | main.go:141-144 | The fresh grid has `scale` rows of `scale` zeros. |
| Cube.EdgeSegment | main.go:147-149 | The segment drawn for one edge row, from `projected[edge[0]]` to `projected[edge[1]]`, defined only when both indices are valid. |
| Cube.EdgeSegments | main.go:146-148 | One segment per edge row, in table order, from `projected[edge[0]]` to `projected[edge[1]]`. Every lookup is a valid index. |
| Cube.PlotAll | main.go:146-150 | Drawing a list of segments keeps the grid's shape. |
| Cube.PlotAllAt | main.go:146-150 | After all segments are drawn, a cell is 1 exactly when some segment's walk passes through it in bounds; otherwise it keeps its value. |
| Cube.PlotAllOrderFree | main.go:146-150 | The result depends only on which segments are drawn, not on their order or repetition. |
| Cube.Rasterize | main.go:141-150 | Allocates a fresh `scale` x `scale` grid; its contents are the blank grid with every edge segment drawn. |
| Cube.CornersMarked | main.go:146-150 | Every projected corner inside the frame is set to 1. |
| Cube.DrawCube | main.go:141-152 | The printed frame is the rendering of the blank 70 x 70 grid with all twelve edges drawn, and it has 70 * 71 characters. |
| Cube.FrameAt | main.go:146-152 | In the printed frame, the character at row r, column c is the block exactly when some edge's walk passes through cell (c, r), else a space. Column 70 is the newline. |
| Printer.Glyph | main.go:195-199 | A cell prints as the block exactly when it holds 1, and as a space otherwise. |
| Printer.Render | main.go:192-202 | The printed text: every row's glyphs followed by a newline, rows in order. It holds only blocks, spaces and newlines. |
| Printer.RenderLength | main.go:192-202 | A frame of n-cell rows has n + 1 characters per row. |
| Printer.RenderAt | main.go:192-202 | The character at row i, column j is the newline when j = n. Otherwise it is the block exactly when the cell holds 1, and a space for every other value. |
| Printer.PrintGrid | main.go:192-202 | The nested loops emit exactly `Render` of the grid, of length rows * (columns + 1). |

## Left out

- Rotation (`RotateX`/`RotateY`/`RotateZ`, main.go:79-119) is float64 trigonometry. Dafny has no `sin`/`cos`, and reals would misstate float64.
- The centroid (main.go:65-77) and the perspective projection in `drawCube` (main.go:123-139) are float64 division and accumulation. `DrawCube` takes the projected integer cells instead.
- The float-to-int truncation `int(v1.X)` (main.go:156-159) and the float64 round trip through `math.Abs` (main.go:161-162) are not modelled. Endpoints are ints and `Abs` is exact.
- Go `int` is 64 bits. The model uses unbounded integers, so overflow of `2 * err` or of the coordinates for huge endpoints is not modelled.
- `clearTerminal` (main.go:59-63) runs an external process. The animation loop with its sleep (main.go:32-57) never ends and has no result.
- The `fmt.Print` calls (main.go:196-201) are replaced by the character sequence they would write.
- The block literal at main.go:196 appears in the source text as three mis-encoded code points. The model collapses it into the one intended glyph, U+25A0 (`Printer.Block`). `Printer.RenderLength` and `Printer.PrintGrid` therefore count glyphs, not the literal's code points or bytes.
- The corner table is a mutable global that the rotations update. Only its initial contents are modelled, as constants.
- The grid is an `array2<int>` rather than a slice of row slices. Row aliasing between slices cannot arise in the source, since every row comes from its own `make`.
