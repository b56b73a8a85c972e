/**
 * `printGrid`: one glyph per cell, the filled block for a cell holding 1 and
 * a space for any other value, and a newline after every row. The printed
 * text is returned as a character sequence instead of being written out.
 */
module Printer {
  import opened Raster

  /** The filled-block glyph (U+25A0) printed for a set cell. */
  const Block: char := '\U{25A0}'

  /** The block for a cell holding 1, a space for any other value. */
  function Glyph(v: int): (ch: char)
    ensures ch == Block || ch == ' '
    ensures ch == Block <==> v == 1
  {
    if v == 1 then Block else ' '
  }

  function Glyphs(row: seq<int>): seq<char>
  {
    seq(|row|, j requires 0 <= j < |row| => Glyph(row[j]))
  }

  /** One printed row: its glyphs, then the newline. */
  function RenderRow(row: seq<int>): seq<char>
  {
    Glyphs(row) + ['\n']
  }

  /**
   * The whole printed frame: the rows in order, top to bottom. It holds only
   * blocks, spaces and newlines.
   */
  function Render(g: Grid): (text: seq<char>)
    ensures forall k :: 0 <= k < |text| ==> text[k] in {Block, ' ', '\n'}
  {
    if g == [] then [] else Render(g[..|g| - 1]) + RenderRow(g[|g| - 1])
  }

  /** Every row of `g` has `n` cells. */
  ghost predicate Rectangular(g: Grid, n: int)
  {
    forall r :: 0 <= r < |g| ==> |g[r]| == n
  }

  /** A frame of |g| rows of n cells has n + 1 characters per row. */
  lemma {:induction false} RenderLength(g: Grid, n: nat)
    requires Rectangular(g, n)
    ensures |Render(g)| == |g| * (n + 1)
    decreases |g|
  {
    if g != [] {
      var m := |g| - 1;
      RenderLength(g[..m], n);
      assert |RenderRow(g[m])| == n + 1;
      assert |g| * (n + 1) == m * (n + 1) + (n + 1);
    }
  }

  /**
   * The character at row `i`, column `j` of the frame (offset i*(n+1) + j):
   * the newline when j == n, else the block exactly when the cell holds 1
   * and a space for any other value.
   */
  lemma {:induction false} RenderAt(g: Grid, n: nat, i: int, j: int)
    requires Rectangular(g, n)
    requires 0 <= i < |g| && 0 <= j <= n
    ensures |Render(g)| == |g| * (n + 1)
    ensures i * (n + 1) + j < |Render(g)|
    ensures Render(g)[i * (n + 1) + j] ==
      if j == n then '\n' else if g[i][j] == 1 then Block else ' '
    decreases |g|
  {
    RenderLength(g, n);
    var m, w := |g| - 1, n + 1;
    var prefix := g[..m];
    RenderLength(prefix, n);
    var head, last := Render(prefix), RenderRow(g[m]);
    assert Render(g) == head + last;
    assert |head| == m * w;
    var k := i * w + j;
    if i < m {
      RenderAt(prefix, n, i, j);
      MulMono(i + 1, m, w);
      assert (i + 1) * w == i * w + w;
      assert k < |head|;
      assert Render(g)[k] == head[k];
    } else {
      assert k - |head| == j;
      assert Render(g)[k] == last[j];
    }
  }

  lemma MulMono(a: int, b: int, w: int)
    requires 0 <= a <= b && 0 <= w
    ensures a * w <= b * w
  {
  }

  /** Prints every row of the grid and returns the text printed. */
  method PrintGrid(grid: array2<int>) returns (out: seq<char>)
    ensures out == Render(Rows(grid))
    ensures |out| == grid.Length0 * (grid.Length1 + 1)
  {
    out := [];
    var i := 0;
    while i < grid.Length0
      invariant 0 <= i <= grid.Length0
      invariant out == Render(Rows(grid)[..i])
    {
      ghost var row := Rows(grid)[i];
      ghost var before := out;
      var j := 0;
      while j < grid.Length1
        invariant 0 <= j <= grid.Length1
        invariant out == before + Glyphs(row[..j])
      {
        if grid[i, j] == 1 {
          out := out + [Block];
        } else {
          out := out + [' '];
        }
        assert Glyphs(row[..j + 1]) == Glyphs(row[..j]) + [Glyph(row[j])];
        j := j + 1;
      }
      out := out + ['\n'];
      assert row[..j] == row;
      assert Rows(grid)[..i + 1][..i] == Rows(grid)[..i];
      i := i + 1;
    }
    assert Rows(grid)[..i] == Rows(grid);
    RenderLength(Rows(grid), grid.Length1);
  }
}
