/** One generation of Conway's B3/S23 rule over the padded grid
    (main.cpp:133-179). */
module Stepper {
  import opened Config
  import opened Grids

  /** (i, j) is an interior cell: neither in row/column 0 nor in row/column SIZE-1. */
  predicate Interior(i: int, j: int) {
    1 <= i < SIZE - 1 && 1 <= j < SIZE - 1
  }

  /** The sum of the eight cells around interior cell (i, j), border cells included. */
  function LiveNeighbours(s: Grid, i: int, j: int): int
    requires IsSquare(s, SIZE) && Interior(i, j)
  {
    s[i - 1][j - 1] + s[i - 1][j] + s[i - 1][j + 1] +
    s[i][j - 1] + s[i][j + 1] +
    s[i + 1][j - 1] + s[i + 1][j] + s[i + 1][j + 1]
  }

  /** The next state of a cell holding `cell` with neighbour sum `n`. */
  function Rule(cell: int, n: int): (r: int)
    ensures r == 1 <==> (cell == 1 && (n == 2 || n == 3)) || (cell != 1 && n == 3)
    ensures r == 0 || r == 1
  {
    if cell == 1 then
      (if n < 2 || n > 3 then 0 else 1)
    else
      (if n == 3 then 1 else 0)
  }

  /** The state of cell (i, j) in the next generation. */
  function NextCell(s: Grid, i: int, j: int): int
    requires IsSquare(s, SIZE) && 0 <= i < SIZE && 0 <= j < SIZE
  {
    if Interior(i, j) then Rule(s[i][j], LiveNeighbours(s, i, j)) else 0
  }

  /** The grid one generation on: every cell computed from the previous grid,
      the border forced to 0. */
  function Step(s: Grid): (r: Grid)
    requires IsSquare(s, SIZE)
    ensures IsSquare(r, SIZE)
    ensures forall i, j :: 0 <= i < SIZE && 0 <= j < SIZE && !Interior(i, j) ==> r[i][j] == 0
    ensures forall i, j :: 0 <= i < SIZE && 0 <= j < SIZE ==> r[i][j] == 0 || r[i][j] == 1
  {
    seq(SIZE, i requires 0 <= i < SIZE => seq(SIZE, j requires 0 <= j < SIZE => NextCell(s, i, j)))
  }

  /** B3/S23: after a step an interior cell is alive exactly when it was alive
      with two or three live neighbours, or was not alive with exactly three. */
  lemma StepRule(s: Grid, i: int, j: int)
    requires IsSquare(s, SIZE) && Interior(i, j)
    ensures Step(s)[i][j] == 1 <==>
      (s[i][j] == 1 && 2 <= LiveNeighbours(s, i, j) <= 3) ||
      (s[i][j] != 1 && LiveNeighbours(s, i, j) == 3)
  {
  }

  /** `n` generations from `s`. */
  function Generations(s: Grid, n: nat): (r: Grid)
    requires IsSquare(s, SIZE)
    ensures IsSquare(r, SIZE)
  {
    if n == 0 then s else Step(Generations(s, n - 1))
  }

  /** The grid whose live cells are exactly `live`. */
  function Pattern(live: set<(int, int)>): (p: Grid)
    ensures IsSquare(p, SIZE)
  {
    seq(SIZE, i => seq(SIZE, j => if (i, j) in live then 1 else 0))
  }

  /** The 2x2 still life with top-left cell (a, b). */
  function Block(a: int, b: int): set<(int, int)> {
    {(a, b), (a, b + 1), (a + 1, b), (a + 1, b + 1)}
  }

  /** The three-cell blinker centred on (a, b): lying along row a, or along column b. */
  function Blinker(a: int, b: int, horizontal: bool): set<(int, int)> {
    if horizontal then {(a, b - 1), (a, b), (a, b + 1)} else {(a - 1, b), (a, b), (a + 1, b)}
  }

  /** A dead grid stays dead for any number of generations. */
  lemma {:induction false} DeadStaysDead(n: nat)
    ensures Generations(Zeros(SIZE), n) == Zeros(SIZE)
  {
    if n > 0 {
      DeadStaysDead(n - 1);
      SameCells(Step(Zeros(SIZE)), Zeros(SIZE), SIZE);
    }
  }

  /** On an otherwise dead grid, a 2x2 block of live cells anywhere in the
      interior is unchanged by a step. */
  lemma BlockIsStill(a: int, b: int)
    requires 1 <= a && a + 1 < SIZE - 1 && 1 <= b && b + 1 < SIZE - 1
    ensures Step(Pattern(Block(a, b))) == Pattern(Block(a, b))
  {
    var p := Pattern(Block(a, b));
    forall i, j | 0 <= i < SIZE && 0 <= j < SIZE
      ensures Step(p)[i][j] == p[i][j]
    {
      if Interior(i, j) {
        BlockNeighbours(a, b, i, j);
      }
    }
    SameCells(Step(p), p, SIZE);
  }

  lemma BlockNeighbours(a: int, b: int, i: int, j: int)
    requires 1 <= a && a + 1 < SIZE - 1 && 1 <= b && b + 1 < SIZE - 1 && Interior(i, j)
    ensures var p := Pattern(Block(a, b));
      p[i][j] == 1 ==> LiveNeighbours(p, i, j) == 3
    ensures var p := Pattern(Block(a, b));
      p[i][j] != 1 ==> LiveNeighbours(p, i, j) <= 2
  {
  }

  /** On an otherwise dead grid, a blinker away from the border flips between
      its two phases, so it returns to itself after two steps. */
  lemma BlinkerOscillates(a: int, b: int, horizontal: bool)
    requires 2 <= a < SIZE - 2 && 2 <= b < SIZE - 2
    ensures Step(Pattern(Blinker(a, b, horizontal))) == Pattern(Blinker(a, b, !horizontal))
    ensures Generations(Pattern(Blinker(a, b, horizontal)), 2) == Pattern(Blinker(a, b, horizontal))
  {
    var p := Pattern(Blinker(a, b, horizontal));
    BlinkerFlips(a, b, horizontal);
    BlinkerFlips(a, b, !horizontal);
    assert Generations(p, 2) == Step(Step(Generations(p, 0)));
  }

  lemma BlinkerFlips(a: int, b: int, horizontal: bool)
    requires 2 <= a < SIZE - 2 && 2 <= b < SIZE - 2
    ensures Step(Pattern(Blinker(a, b, horizontal))) == Pattern(Blinker(a, b, !horizontal))
  {
    var p, q := Pattern(Blinker(a, b, horizontal)), Pattern(Blinker(a, b, !horizontal));
    forall i, j | 0 <= i < SIZE && 0 <= j < SIZE
      ensures Step(p)[i][j] == q[i][j]
    {
      if Interior(i, j) {
        BlinkerCell(a, b, horizontal, i, j);
      }
    }
    SameCells(Step(p), q, SIZE);
  }

  lemma BlinkerCell(a: int, b: int, horizontal: bool, i: int, j: int)
    requires 2 <= a < SIZE - 2 && 2 <= b < SIZE - 2 && Interior(i, j)
    ensures var p := Pattern(Blinker(a, b, horizontal));
      Rule(p[i][j], LiveNeighbours(p, i, j)) == Pattern(Blinker(a, b, !horizontal))[i][j]
  {
    var p := Pattern(Blinker(a, b, horizontal));
    BlinkerShape(a, b, horizontal, i, j);
    BlinkerShape(a, b, !horizontal, i, j);
    if horizontal {
      HorizontalNeighbours(a, b, i, j);
    } else {
      VerticalNeighbours(a, b, i, j);
    }
  }

  lemma BlinkerShape(a: int, b: int, horizontal: bool, i: int, j: int)
    requires 0 <= i < SIZE && 0 <= j < SIZE
    ensures Pattern(Blinker(a, b, horizontal))[i][j] ==
      if horizontal then (if i == a && b - 1 <= j <= b + 1 then 1 else 0)
      else (if j == b && a - 1 <= i <= a + 1 then 1 else 0)
  {
  }

  lemma HorizontalNeighbours(a: int, b: int, i: int, j: int)
    requires 2 <= a < SIZE - 2 && 2 <= b < SIZE - 2 && Interior(i, j)
    ensures var p := Pattern(Blinker(a, b, true));
      LiveNeighbours(p, i, j) ==
        if i < a - 1 || i > a + 1 || j < b - 2 || j > b + 2 then 0
        else if i == a - 1 || i == a + 1 then (if j == b then 3 else if j == b - 1 || j == b + 1 then 2 else 1)
        else (if j == b then 2 else 1)
  {
  }

  lemma VerticalNeighbours(a: int, b: int, i: int, j: int)
    requires 2 <= a < SIZE - 2 && 2 <= b < SIZE - 2 && Interior(i, j)
    ensures var p := Pattern(Blinker(a, b, false));
      LiveNeighbours(p, i, j) ==
        if j < b - 1 || j > b + 1 || i < a - 2 || i > a + 2 then 0
        else if j == b - 1 || j == b + 1 then (if i == a then 3 else if i == a - 1 || i == a + 1 then 2 else 1)
        else (if i == a then 2 else 1)
  {
  }

  /** The next generation of `grid`, computed into a fresh zeroed buffer:
      each interior cell from the cells of `grid`, which is left as it was. */
  method NextGeneration(grid: array2<int>) returns (temp: array2<int>)
    requires grid.Length0 == SIZE && grid.Length1 == SIZE
    ensures fresh(temp) && temp.Length0 == SIZE && temp.Length1 == SIZE
    ensures Cells(temp) == Step(Cells(grid))
  {
    temp := new int[SIZE, SIZE]((_, _) => 0);
    var i := 1;
    while i < SIZE - 1
      invariant 1 <= i <= SIZE - 1
      invariant forall x, y :: 0 <= x < SIZE && 0 <= y < SIZE ==>
        temp[x, y] == if x < i then NextCell(Cells(grid), x, y) else 0
    {
      NextRow(grid, temp, i);
      i := i + 1;
    }
    SameCells(Cells(temp), Step(Cells(grid)), SIZE);
  }

  /** One pass of the inner loop of the sweep: the interior cells of row `i`
      of the buffer `temp`, which are still 0, receive their next state. */
  method NextRow(grid: array2<int>, temp: array2<int>, i: int)
    requires grid.Length0 == SIZE && grid.Length1 == SIZE
    requires temp.Length0 == SIZE && temp.Length1 == SIZE && temp != grid
    requires 1 <= i < SIZE - 1
    requires forall y :: 0 <= y < SIZE ==> temp[i, y] == 0
    modifies temp
    ensures forall x, y :: 0 <= x < SIZE && 0 <= y < SIZE ==>
      temp[x, y] == if x == i then NextCell(Cells(grid), x, y) else old(temp[x, y])
  {
    ghost var s := Cells(grid);
    var j := 1;
    while j < SIZE - 1
      invariant 1 <= j <= SIZE - 1
      invariant forall x, y :: 0 <= x < SIZE && 0 <= y < SIZE ==>
        temp[x, y] == if x == i && y < j then NextCell(s, x, y) else old(temp[x, y])
    {
      var liveNeighbours :=
        grid[i - 1, j - 1] + grid[i - 1, j] + grid[i - 1, j + 1] +
        grid[i, j - 1] + grid[i, j + 1] +
        grid[i + 1, j - 1] + grid[i + 1, j] + grid[i + 1, j + 1];
      assert liveNeighbours == LiveNeighbours(s, i, j);
      if grid[i, j] == 1 {
        if liveNeighbours < 2 || liveNeighbours > 3 {
          temp[i, j] := 0;
        } else {
          temp[i, j] := 1;
        }
      } else {
        if liveNeighbours == 3 {
          temp[i, j] := 1;
        }
      }
      assert temp[i, j] == NextCell(s, i, j);
      j := j + 1;
    }
  }

  /** Replaces `grid` by the next generation: the buffer computed by
      NextGeneration is copied back over the whole grid, border included. */
  method UpdateGrid(grid: array2<int>)
    requires grid.Length0 == SIZE && grid.Length1 == SIZE
    modifies grid
    ensures Cells(grid) == Step(old(Cells(grid)))
  {
    var temp := NextGeneration(grid);
    CopyBack(temp, grid);
  }

  /** The copy loop of main.cpp:172-178: every cell of `dst`, border
      included, receives the value of the same cell of `src`. */
  method CopyBack(src: array2<int>, dst: array2<int>)
    requires src.Length0 == SIZE && src.Length1 == SIZE
    requires dst.Length0 == SIZE && dst.Length1 == SIZE && src != dst
    modifies dst
    ensures Cells(dst) == Cells(src)
  {
    var i := 0;
    while i < SIZE
      invariant 0 <= i <= SIZE
      invariant forall x, y :: 0 <= x < i && 0 <= y < SIZE ==> dst[x, y] == src[x, y]
    {
      var j := 0;
      while j < SIZE
        invariant 0 <= j <= SIZE
        invariant forall x, y :: 0 <= x < SIZE && 0 <= y < SIZE && (x < i || (x == i && y < j)) ==>
          dst[x, y] == src[x, y]
      {
        dst[i, j] := src[i, j];
        j := j + 1;
      }
      i := i + 1;
    }
    SameCells(Cells(dst), Cells(src), SIZE);
  }
}
