/** The region editor: clearing (main.cpp:235-247) and randomly reviving
    (main.cpp:264-276) every cell of rows and columns FIRST..LAST within
    NUKE_RADIUS of a centre cell.

    The source tests `sqrt(dx*dx + dy*dy) <= NUKE_RADIUS` in single precision.
    It agrees with `dx*dx + dy*dy <= NUKE_RADIUS^2` for every centre whose
    differences i - cx and j - cy do not overflow a C int (the program's
    centres lie in -1..250):
    when |dx| and |dy| are both at most 20 every float step is exact, and a
    correctly rounded square root is at most 20 exactly when its argument is
    at most 400; otherwise one of them rounds to at least 21 (rounding is
    monotone), so the float sum is at least 441 and its root exceeds 20. */
module Region {
  import opened Config
  import opened Grids
  import opened RectSums
  import HeatMap

  /** (i, j) lies within NUKE_RADIUS of the centre (cx, cy). */
  predicate InRadius(i: int, j: int, cx: int, cy: int) {
    (i - cx) * (i - cx) + (j - cy) * (j - cy) <= NUKE_RADIUS * NUKE_RADIUS
  }

  /** (i, j) is visited by the editing loops (rows and columns FIRST..LAST,
      so the last border row and column are included) and lies in the radius. */
  predicate InRegion(i: int, j: int, cx: int, cy: int) {
    FIRST <= i <= LAST && FIRST <= j <= LAST && InRadius(i, j, cx, cy)
  }

  // ---------------------------------------------------------------- nuke

  function NukedCell(s: Grid, cx: int, cy: int, i: int, j: int): int
    requires IsSquare(s, SIZE) && 0 <= i < SIZE && 0 <= j < SIZE
  {
    if InRegion(i, j, cx, cy) then 0 else s[i][j]
  }

  /** The grid `s` with every cell of the region around (cx, cy) set to 0. */
  function Nuked(s: Grid, cx: int, cy: int): (r: Grid)
    requires IsSquare(s, SIZE)
    ensures IsSquare(r, SIZE)
  {
    seq(SIZE, i requires 0 <= i < SIZE => seq(SIZE, j requires 0 <= j < SIZE => NukedCell(s, cx, cy, i, j)))
  }

  /** Clearing a region twice leaves the grid as clearing it once. */
  lemma NukeIdempotent(s: Grid, cx: int, cy: int)
    requires IsSquare(s, SIZE)
    ensures Nuked(Nuked(s, cx, cy), cx, cy) == Nuked(s, cx, cy)
  {
    SameCells(Nuked(Nuked(s, cx, cy), cx, cy), Nuked(s, cx, cy), SIZE);
  }

  /** After clearing, a heat block lying wholly inside the radius reduces to 0. */
  lemma NukedBlockIsCold(s: Grid, h: Grid, cx: int, cy: int, r: int, c: int)
    requires IsSquare(s, SIZE) && IsSquare(h, HEAT_SIZE)
    requires 1 <= r <= HEAT_RAW_SIZE && 1 <= c <= HEAT_RAW_SIZE
    requires forall x, y ::
      (HeatMap.BlockOrigin(r) <= x < HeatMap.BlockOrigin(r) + HEAT_BLOCKSIZE &&
       HeatMap.BlockOrigin(c) <= y < HeatMap.BlockOrigin(c) + HEAT_BLOCKSIZE) ==> InRadius(x, y, cx, cy)
    ensures HeatMap.Heat(Nuked(s, cx, cy), h)[r][c] == 0
  {
    var n, i, j := Nuked(s, cx, cy), HeatMap.BlockOrigin(r), HeatMap.BlockOrigin(c);
    assert forall x, y :: i <= x < i + HEAT_BLOCKSIZE && j <= y < j + HEAT_BLOCKSIZE ==> n[x][y] == 0;
    ZeroSum(n, i, j, HEAT_BLOCKSIZE, HEAT_BLOCKSIZE);
  }

  /** Sets to 0 every cell of the region around (cx, cy), scanning rows and
      columns FIRST..LAST; all other cells keep their values. */
  method Nuke(grid: array2<int>, cx: int, cy: int)
    requires grid.Length0 == SIZE && grid.Length1 == SIZE
    modifies grid
    ensures Cells(grid) == Nuked(old(Cells(grid)), cx, cy)
  {
    ghost var s := Cells(grid);
    var i := FIRST;
    while i <= LAST
      invariant FIRST <= i <= LAST + 1
      invariant forall x, y :: 0 <= x < SIZE && 0 <= y < SIZE ==>
        grid[x, y] == if x < i then NukedCell(s, cx, cy, x, y) else s[x][y]
    {
      var j := FIRST;
      while j <= LAST
        invariant FIRST <= j <= LAST + 1
        invariant forall x, y :: 0 <= x < SIZE && 0 <= y < SIZE ==>
          grid[x, y] == if x < i || (x == i && y < j) then NukedCell(s, cx, cy, x, y) else s[x][y]
      {
        if InRadius(i, j, cx, cy) {
          grid[i, j] := 0;
        }
        j := j + 1;
      }
      i := i + 1;
    }
    SameCells(Cells(grid), Nuked(s, cx, cy), SIZE);
  }

  // ---------------------------------------------------------- repopulate

  /** The number of columns FIRST..n-1 of row i that lie in the radius. */
  function RowHits(cx: int, cy: int, i: int, n: int): nat
    requires FIRST <= n
    decreases n
  {
    if n == FIRST then 0 else RowHits(cx, cy, i, n - 1) + (if InRadius(i, n - 1, cx, cy) then 1 else 0)
  }

  /** The number of region cells in rows FIRST..m-1. */
  function HitsBefore(cx: int, cy: int, m: int): nat
    requires FIRST <= m
    decreases m
  {
    if m == FIRST then 0 else HitsBefore(cx, cy, m - 1) + RowHits(cx, cy, m - 1, LAST + 1)
  }

  /** The number of region cells that the row-major scan visits before (i, j):
      the position in the stream of coin flips of the flip drawn for (i, j). */
  function CoinIndex(cx: int, cy: int, i: int, j: int): nat
    requires FIRST <= i && FIRST <= j
  {
    HitsBefore(cx, cy, i) + RowHits(cx, cy, i, j)
  }

  /** The number of coin flips one revive draws: one per region cell. */
  function RegionSize(cx: int, cy: int): nat {
    HitsBefore(cx, cy, LAST + 1)
  }

  lemma {:induction false} RowHitsGrow(cx: int, cy: int, i: int, j: int, n: int)
    requires FIRST <= j < n
    ensures RowHits(cx, cy, i, j) + (if InRadius(i, j, cx, cy) then 1 else 0) <= RowHits(cx, cy, i, n)
    decreases n
  {
    if n > j + 1 {
      RowHitsGrow(cx, cy, i, j, n - 1);
    }
  }

  lemma {:induction false} HitsBeforeGrow(cx: int, cy: int, i: int, m: int)
    requires FIRST <= i < m
    ensures HitsBefore(cx, cy, i) + RowHits(cx, cy, i, LAST + 1) <= HitsBefore(cx, cy, m)
    decreases m
  {
    if m > i + 1 {
      HitsBeforeGrow(cx, cy, i, m - 1);
    }
  }

  /** The scan draws the flip of a region cell before the flip of any later
      cell: coin indices strictly increase in row-major order from each region cell. */
  lemma CoinOrder(cx: int, cy: int, i: int, j: int, i': int, j': int)
    requires InRegion(i, j, cx, cy)
    requires FIRST <= i' <= LAST + 1 && FIRST <= j' <= LAST + 1
    requires i < i' || (i == i' && j < j')
    ensures CoinIndex(cx, cy, i, j) < CoinIndex(cx, cy, i', j')
  {
    if i == i' {
      RowHitsGrow(cx, cy, i, j, j');
    } else {
      RowHitsGrow(cx, cy, i, j, LAST + 1);
      HitsBeforeGrow(cx, cy, i, i');
    }
  }

  /** Each region cell draws its own flip. */
  lemma CoinsDistinct(cx: int, cy: int, i: int, j: int, i': int, j': int)
    requires InRegion(i, j, cx, cy) && InRegion(i', j', cx, cy) && (i, j) != (i', j')
    ensures CoinIndex(cx, cy, i, j) != CoinIndex(cx, cy, i', j')
  {
    if i < i' || (i == i' && j < j') {
      CoinOrder(cx, cy, i, j, i', j');
    } else {
      CoinOrder(cx, cy, i', j', i, j);
    }
  }

  /** Every region cell's flip is among the first RegionSize(cx, cy) flips. */
  lemma CoinInRange(cx: int, cy: int, i: int, j: int)
    requires InRegion(i, j, cx, cy)
    ensures CoinIndex(cx, cy, i, j) < RegionSize(cx, cy)
  {
    CoinOrder(cx, cy, i, j, LAST + 1, FIRST);
  }

  function RepopulatedCell(s: Grid, cx: int, cy: int, coins: seq<nat>, i: int, j: int): int
    requires IsSquare(s, SIZE) && RegionSize(cx, cy) <= |coins| && 0 <= i < SIZE && 0 <= j < SIZE
  {
    if !InRegion(i, j, cx, cy) then s[i][j]
    else
      CoinInRange(cx, cy, i, j);
      if coins[CoinIndex(cx, cy, i, j)] % 2 == 0 then 1 else s[i][j]
  }

  /** The grid `s` after a revive around (cx, cy) that draws its flips from `coins`. */
  function Repopulated(s: Grid, cx: int, cy: int, coins: seq<nat>): (r: Grid)
    requires IsSquare(s, SIZE) && RegionSize(cx, cy) <= |coins|
    ensures IsSquare(r, SIZE)
  {
    seq(SIZE, i requires 0 <= i < SIZE => seq(SIZE, j requires 0 <= j < SIZE =>
      RepopulatedCell(s, cx, cy, coins, i, j)))
  }

  /** A revive changes only region cells, and only to 1: no live cell dies
      and no cell outside the radius is touched; a region cell whose flip is
      even is alive afterwards. */
  lemma RepopulateOnlyRevives(s: Grid, cx: int, cy: int, coins: seq<nat>)
    requires IsSquare(s, SIZE) && RegionSize(cx, cy) <= |coins|
    ensures var r := Repopulated(s, cx, cy, coins);
      forall i, j :: 0 <= i < SIZE && 0 <= j < SIZE && r[i][j] != s[i][j] ==>
        InRegion(i, j, cx, cy) && r[i][j] == 1
    ensures var r := Repopulated(s, cx, cy, coins);
      forall i, j :: 0 <= i < SIZE && 0 <= j < SIZE && InRegion(i, j, cx, cy) ==>
        CoinIndex(cx, cy, i, j) < |coins| &&
        (coins[CoinIndex(cx, cy, i, j)] % 2 == 0 ==> r[i][j] == 1)
  {
    forall i, j | 0 <= i < SIZE && 0 <= j < SIZE && InRegion(i, j, cx, cy)
      ensures CoinIndex(cx, cy, i, j) < |coins|
    {
      CoinInRange(cx, cy, i, j);
    }
  }

  /** Sets to 1 each cell of the region around (cx, cy) whose flip is even.
      `coins` stands for successive rand() results; a flip is drawn only for a
      cell that passes the distance test, in row-major order, and `used` is the
      number of flips drawn. */
  method Repopulate(grid: array2<int>, cx: int, cy: int, coins: seq<nat>) returns (used: nat)
    requires grid.Length0 == SIZE && grid.Length1 == SIZE
    requires RegionSize(cx, cy) <= |coins|
    modifies grid
    ensures used == RegionSize(cx, cy)
    ensures Cells(grid) == Repopulated(old(Cells(grid)), cx, cy, coins)
  {
    ghost var s := Cells(grid);
    used := 0;
    var i := FIRST;
    while i <= LAST
      invariant FIRST <= i <= LAST + 1
      invariant used == CoinIndex(cx, cy, i, FIRST)
      invariant forall x, y :: 0 <= x < SIZE && 0 <= y < SIZE ==>
        grid[x, y] == if x < i then RepopulatedCell(s, cx, cy, coins, x, y) else s[x][y]
    {
      used := RepopulateRow(grid, cx, cy, coins, i, used, s);
      i := i + 1;
    }
    SameCells(Cells(grid), Repopulated(s, cx, cy, coins), SIZE);
  }

  /** One pass of the inner loop of the revive, over row `i`, starting at
      flip `used` of the stream. */
  method RepopulateRow(grid: array2<int>, cx: int, cy: int, coins: seq<nat>, i: int, used: nat, ghost s: Grid)
    returns (used': nat)
    requires grid.Length0 == SIZE && grid.Length1 == SIZE && IsSquare(s, SIZE)
    requires RegionSize(cx, cy) <= |coins|
    requires FIRST <= i <= LAST && used == CoinIndex(cx, cy, i, FIRST)
    requires forall y :: 0 <= y < SIZE ==> grid[i, y] == s[i][y]
    modifies grid
    ensures used' == CoinIndex(cx, cy, i + 1, FIRST)
    ensures forall x, y :: 0 <= x < SIZE && 0 <= y < SIZE ==>
      grid[x, y] == if x == i then RepopulatedCell(s, cx, cy, coins, x, y) else old(grid[x, y])
  {
    used' := used;
    var j := FIRST;
    while j <= LAST
      invariant FIRST <= j <= LAST + 1
      invariant used' == CoinIndex(cx, cy, i, j)
      invariant forall x, y :: 0 <= x < SIZE && 0 <= y < SIZE ==>
        grid[x, y] == if x == i && FIRST <= y < j then RepopulatedCell(s, cx, cy, coins, x, y) else old(grid[x, y])
    {
      if InRadius(i, j, cx, cy) {
        CoinInRange(cx, cy, i, j);
        var coin := coins[used'];
        used' := used' + 1;
        if coin % 2 == 0 {
          grid[i, j] := 1;
        }
      }
      j := j + 1;
    }
  }
}
