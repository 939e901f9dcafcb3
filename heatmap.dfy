/** The heat map: the interior of the grid cut into HEAT_BLOCKSIZE x
    HEAT_BLOCKSIZE blocks, each summed into one heat cell (main.cpp:181-203). */
module HeatMap {
  import opened Config
  import opened Grids
  import opened RectSums

  /** The first grid row (or column) of block row (or column) `r`, 1-based as
      the heat map's rows are; every block lies inside the interior 1..RAW_SIZE. */
  function BlockOrigin(r: int): (o: int)
    ensures 1 <= r <= HEAT_RAW_SIZE ==> FIRST <= o && o + HEAT_BLOCKSIZE - 1 <= RAW_SIZE
  {
    FIRST + (r - 1) * HEAT_BLOCKSIZE
  }

  /** Consecutive blocks are HEAT_BLOCKSIZE apart, and the loop test
      `i <= LAST - HEAT_BLOCKSIZE` admits exactly the origins of blocks 1..HEAT_RAW_SIZE. */
  lemma BlockOriginStep(r: int)
    requires 1 <= r
    ensures BlockOrigin(r + 1) == BlockOrigin(r) + HEAT_BLOCKSIZE
    ensures BlockOrigin(r) <= LAST - HEAT_BLOCKSIZE <==> r <= HEAT_RAW_SIZE
  {
  }

  /** The sum of the grid cells of block (r, c). */
  function BlockSum(s: Grid, r: int, c: int): int
    requires IsSquare(s, SIZE) && 1 <= r <= HEAT_RAW_SIZE && 1 <= c <= HEAT_RAW_SIZE
  {
    RectSum(s, BlockOrigin(r), BlockOrigin(c), HEAT_BLOCKSIZE, HEAT_BLOCKSIZE)
  }

  /** Heat cell (r, c) after reduction of grid `s` into heat map `h`. */
  function HeatCell(s: Grid, h: Grid, r: int, c: int): int
    requires IsSquare(s, SIZE) && IsSquare(h, HEAT_SIZE) && 0 <= r < HEAT_SIZE && 0 <= c < HEAT_SIZE
  {
    if 1 <= r <= HEAT_RAW_SIZE && 1 <= c <= HEAT_RAW_SIZE then BlockSum(s, r, c) else h[r][c]
  }

  /** The heat map `h` after reduction of grid `s`: heat cell (r, c) holds the
      sum of block (r, c); the heat map's border keeps what `h` held. */
  function Heat(s: Grid, h: Grid): (m: Grid)
    requires IsSquare(s, SIZE) && IsSquare(h, HEAT_SIZE)
    ensures IsSquare(m, HEAT_SIZE)
  {
    seq(HEAT_SIZE, r requires 0 <= r < HEAT_SIZE => seq(HEAT_SIZE, c requires 0 <= c < HEAT_SIZE =>
      HeatCell(s, h, r, c)))
  }

  /** When the interior of the grid holds only 0 and 1, every heat value lies in [0, K*K]. */
  lemma HeatBounds(s: Grid, h: Grid, r: int, c: int)
    requires IsSquare(s, SIZE) && IsSquare(h, HEAT_SIZE)
    requires forall x, y :: 1 <= x <= RAW_SIZE && 1 <= y <= RAW_SIZE ==> s[x][y] == 0 || s[x][y] == 1
    requires 1 <= r <= HEAT_RAW_SIZE && 1 <= c <= HEAT_RAW_SIZE
    ensures 0 <= Heat(s, h)[r][c] <= HEAT_BLOCKSIZE * HEAT_BLOCKSIZE
  {
    BinaryBounds(s, BlockOrigin(r), BlockOrigin(c), HEAT_BLOCKSIZE, HEAT_BLOCKSIZE);
  }

  /** The sum of blocks (r, 1) .. (r, m) of the grid. */
  function BandSum(s: Grid, r: int, m: int): int
    requires IsSquare(s, SIZE) && 1 <= r <= HEAT_RAW_SIZE && 0 <= m <= HEAT_RAW_SIZE
  {
    if m == 0 then 0 else BandSum(s, r, m - 1) + BlockSum(s, r, m)
  }

  /** Blocks (r, 1) .. (r, m) tile the grid rectangle they cover. */
  lemma {:induction false} BandTiles(s: Grid, r: int, m: int)
    requires IsSquare(s, SIZE) && 1 <= r <= HEAT_RAW_SIZE && 0 <= m <= HEAT_RAW_SIZE
    ensures Within(s, BlockOrigin(r), FIRST, HEAT_BLOCKSIZE, m * HEAT_BLOCKSIZE)
    ensures RectSum(s, BlockOrigin(r), FIRST, HEAT_BLOCKSIZE, m * HEAT_BLOCKSIZE) == BandSum(s, r, m)
  {
    if m > 0 {
      BandTiles(s, r, m - 1);
      assert (m - 1) * HEAT_BLOCKSIZE + HEAT_BLOCKSIZE == m * HEAT_BLOCKSIZE;
      SplitColumns(s, BlockOrigin(r), FIRST, HEAT_BLOCKSIZE, (m - 1) * HEAT_BLOCKSIZE, HEAT_BLOCKSIZE);
    } else {
      ZeroSum(s, BlockOrigin(r), FIRST, HEAT_BLOCKSIZE, 0);
    }
  }

  /** Row r of the heat map, cells 1 .. m, adds up to the band of blocks it reduces. */
  lemma {:induction false} HeatRowSum(s: Grid, h: Grid, r: int, m: int)
    requires IsSquare(s, SIZE) && IsSquare(h, HEAT_SIZE)
    requires 1 <= r <= HEAT_RAW_SIZE && 0 <= m <= HEAT_RAW_SIZE
    ensures RowSum(Heat(s, h), r, HEAT_FIRST, m) == BandSum(s, r, m)
  {
    if m > 0 {
      HeatRowSum(s, h, r, m - 1);
    }
  }

  /** The heat cells of rows 1 .. n add up to the grid cells of the blocks they reduce. */
  lemma {:induction false} HeatRowsSum(s: Grid, h: Grid, n: int)
    requires IsSquare(s, SIZE) && IsSquare(h, HEAT_SIZE) && 0 <= n <= HEAT_RAW_SIZE
    ensures Within(s, FIRST, FIRST, n * HEAT_BLOCKSIZE, HEAT_RAW_SIZE * HEAT_BLOCKSIZE)
    ensures RectSum(Heat(s, h), HEAT_FIRST, HEAT_FIRST, n, HEAT_RAW_SIZE) ==
            RectSum(s, FIRST, FIRST, n * HEAT_BLOCKSIZE, HEAT_RAW_SIZE * HEAT_BLOCKSIZE)
  {
    if n > 0 {
      HeatRowsSum(s, h, n - 1);
      HeatRowSum(s, h, n, HEAT_RAW_SIZE);
      BandTiles(s, n, HEAT_RAW_SIZE);
      SplitRows(s, FIRST, FIRST, (n - 1) * HEAT_BLOCKSIZE, HEAT_BLOCKSIZE, HEAT_RAW_SIZE * HEAT_BLOCKSIZE);
    }
  }

  /** The heat cells written by a reduction add up to the grid's cells in the
      square the blocks cover; on a 0/1 grid that is its number of live cells there. */
  lemma HeatTotal(s: Grid, h: Grid)
    requires IsSquare(s, SIZE) && IsSquare(h, HEAT_SIZE)
    ensures var side := HEAT_RAW_SIZE * HEAT_BLOCKSIZE;
      Within(s, FIRST, FIRST, side, side) &&
      RectSum(Heat(s, h), HEAT_FIRST, HEAT_FIRST, HEAT_RAW_SIZE, HEAT_RAW_SIZE) == RectSum(s, FIRST, FIRST, side, side) &&
      (Binary(s, FIRST, FIRST, side, side) ==>
        RectSum(Heat(s, h), HEAT_FIRST, HEAT_FIRST, HEAT_RAW_SIZE, HEAT_RAW_SIZE) == |LiveCells(s, FIRST, FIRST, side, side)|)
  {
    var side := HEAT_RAW_SIZE * HEAT_BLOCKSIZE;
    HeatRowsSum(s, h, HEAT_RAW_SIZE);
    if Binary(s, FIRST, FIRST, side, side) {
      SumCountsLive(s, FIRST, FIRST, side, side);
    }
  }

  /** The running `sum` of main.cpp:189-196: the cells of the K x K block
      whose top-left grid cell is (i, j), added up row by row; `s` is the
      grid's contents. */
  method SumBlock(grid: array2<int>, i: int, j: int, ghost s: Grid) returns (sum: int)
    requires grid.Length0 == SIZE && grid.Length1 == SIZE && IsSquare(s, SIZE)
    requires forall x, y :: 0 <= x < SIZE && 0 <= y < SIZE ==> grid[x, y] == s[x][y]
    requires 0 <= i && i + HEAT_BLOCKSIZE <= SIZE && 0 <= j && j + HEAT_BLOCKSIZE <= SIZE
    ensures Within(s, i, j, HEAT_BLOCKSIZE, HEAT_BLOCKSIZE)
    ensures sum == RectSum(s, i, j, HEAT_BLOCKSIZE, HEAT_BLOCKSIZE)
  {
    sum := 0;
    var x := 0;
    while x < HEAT_BLOCKSIZE
      invariant 0 <= x <= HEAT_BLOCKSIZE
      invariant sum == RectSum(s, i, j, x, HEAT_BLOCKSIZE)
    {
      var y := 0;
      while y < HEAT_BLOCKSIZE
        invariant 0 <= y <= HEAT_BLOCKSIZE
        invariant sum == RectSum(s, i, j, x, HEAT_BLOCKSIZE) + RowSum(s, i + x, j, y)
      {
        sum := sum + grid[i + x, j + y];
        y := y + 1;
      }
      x := x + 1;
    }
  }

  /** Recomputes the heat map from `grid`: heat cells (1..HEAT_RAW_SIZE)^2 get
      their block sums, block row by block row, with a `row` counter beside
      the grid index `i`; the rest of the heat map and the grid are unchanged. */
  method UpdateHeatMap(grid: array2<int>, heatmap: array2<int>)
    requires grid.Length0 == SIZE && grid.Length1 == SIZE
    requires heatmap.Length0 == HEAT_SIZE && heatmap.Length1 == HEAT_SIZE
    modifies heatmap
    ensures Cells(heatmap) == Heat(Cells(grid), old(Cells(heatmap)))
    ensures Cells(grid) == old(Cells(grid))
  {
    Values();
    ghost var s, h := Cells(grid), Cells(heatmap);
    var row := 1;
    var i := FIRST;
    while i <= LAST - HEAT_BLOCKSIZE
      invariant 1 <= row <= HEAT_RAW_SIZE + 1 && i == BlockOrigin(row)
      invariant forall r, c :: 0 <= r < HEAT_SIZE && 0 <= c < HEAT_SIZE ==>
        heatmap[r, c] == if r < row then HeatCell(s, h, r, c) else h[r][c]
    {
      BlockOriginStep(row);
      ReduceBand(grid, heatmap, row, i, s);
      row := row + 1;
      i := i + HEAT_BLOCKSIZE;
    }
    BlockOriginStep(row);
    SameCells(Cells(heatmap), Heat(s, h), HEAT_SIZE);
    SameCells(Cells(grid), s, SIZE);
  }

  /** One pass of the middle loop of main.cpp:187-200: heat row `row`, whose
      blocks start at grid row `i`, gets its block sums, column counter `col`
      advancing beside the grid index `j`; no other heat cell changes. */
  method ReduceBand(grid: array2<int>, heatmap: array2<int>, row: int, i: int, ghost s: Grid)
    requires grid.Length0 == SIZE && grid.Length1 == SIZE && IsSquare(s, SIZE)
    requires forall x, y :: 0 <= x < SIZE && 0 <= y < SIZE ==> grid[x, y] == s[x][y]
    requires heatmap.Length0 == HEAT_SIZE && heatmap.Length1 == HEAT_SIZE
    requires 1 <= row <= HEAT_RAW_SIZE && i == BlockOrigin(row)
    modifies heatmap
    ensures forall c :: 0 <= c < HEAT_SIZE ==>
      heatmap[row, c] == if 1 <= c <= HEAT_RAW_SIZE then BlockSum(s, row, c) else old(heatmap[row, c])
    ensures forall r, c :: 0 <= r < HEAT_SIZE && 0 <= c < HEAT_SIZE && r != row ==>
      heatmap[r, c] == old(heatmap[r, c])
  {
    var col := 1;
    var j := FIRST;
    while j <= LAST - HEAT_BLOCKSIZE
      invariant 1 <= col <= HEAT_RAW_SIZE + 1 && j == BlockOrigin(col)
      invariant forall c :: 0 <= c < HEAT_SIZE ==>
        heatmap[row, c] == if 1 <= c < col then BlockSum(s, row, c) else old(heatmap[row, c])
      invariant forall r, c :: 0 <= r < HEAT_SIZE && 0 <= c < HEAT_SIZE && r != row ==>
        heatmap[r, c] == old(heatmap[r, c])
    {
      BlockOriginStep(col);
      var sum := SumBlock(grid, i, j, s);
      assert sum == BlockSum(s, row, col);
      heatmap[row, col] := sum;
      col := col + 1;
      j := j + HEAT_BLOCKSIZE;
    }
    BlockOriginStep(col);
  }
}
