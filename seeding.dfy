/** Start-up state of the simulation: zero-filled grid and heat map
    (main.cpp:94-116) and random seeding of live cells (main.cpp:118-130). */
module Seeding {
  import opened Config
  import opened Grids

  /** Sets every cell of the `n` x `n` array `a`, border included, to 0, row by row. */
  method ZeroFill(a: array2<int>, n: int)
    requires a.Length0 == n && a.Length1 == n
    modifies a
    ensures Cells(a) == Zeros(n)
  {
    var i := 0;
    while i < n
      invariant 0 <= i <= n
      invariant forall x, y :: 0 <= x < i && 0 <= y < n ==> a[x, y] == 0
    {
      var j := 0;
      while j < n
        invariant 0 <= j <= n
        invariant forall x, y :: 0 <= x < n && 0 <= y < n && (x < i || (x == i && y < j)) ==> a[x, y] == 0
      {
        a[i, j] := 0;
        j := j + 1;
      }
      i := i + 1;
    }
    SameCells(Cells(a), Zeros(n), n);
  }

  /** initDead: the whole grid, border included, becomes 0. */
  method InitDead(grid: array2<int>)
    requires grid.Length0 == SIZE && grid.Length1 == SIZE
    modifies grid
    ensures Cells(grid) == Zeros(SIZE)
  {
    ZeroFill(grid, SIZE);
  }

  /** initDeadHeat: the whole heat map, border included, becomes 0. */
  method InitDeadHeat(heatmap: array2<int>)
    requires heatmap.Length0 == HEAT_SIZE && heatmap.Length1 == HEAT_SIZE
    modifies heatmap
    ensures Cells(heatmap) == Zeros(HEAT_SIZE)
  {
    ZeroFill(heatmap, HEAT_SIZE);
  }

  /** The coordinate `rand() % LAST + FIRST` made from a rand() result `v`:
      it ranges over FIRST..LAST, so it can name the last border row or column. */
  function Coordinate(v: nat): (c: int)
    ensures FIRST <= c <= LAST
    ensures c == LAST <==> v % LAST == RAW_SIZE
  {
    v % LAST + FIRST
  }

  /** The cell chosen by one pair of rand() results (row first, then column). */
  function DrawnCell(d: (nat, nat)): (int, int) {
    (Coordinate(d.0), Coordinate(d.1))
  }

  /** The cells chosen by the pairs of rand() results `ds`. */
  function Drawn(ds: seq<(nat, nat)>): set<(int, int)> {
    set k | 0 <= k < |ds| :: DrawnCell(ds[k])
  }

  /** Grid `s` with the cell chosen by `d` set to 1. */
  function SetAlive(s: Grid, d: (nat, nat)): (r: Grid)
    requires IsSquare(s, SIZE)
    ensures IsSquare(r, SIZE)
  {
    var (x, y) := DrawnCell(d);
    s[x := s[x][y := 1]]
  }

  /** Grid `s` after one draw for each element of `ds`, in order. */
  function Seeded(s: Grid, ds: seq<(nat, nat)>): (r: Grid)
    requires IsSquare(s, SIZE)
    ensures IsSquare(r, SIZE)
    decreases |ds|
  {
    if ds == [] then s else SetAlive(Seeded(s, ds[..|ds| - 1]), ds[|ds| - 1])
  }

  /** Seeding sets exactly the drawn cells to 1 and leaves every other cell as it was. */
  lemma {:induction false} SeededCells(s: Grid, ds: seq<(nat, nat)>)
    requires IsSquare(s, SIZE)
    ensures forall i, j :: 0 <= i < SIZE && 0 <= j < SIZE ==>
      Seeded(s, ds)[i][j] == if (i, j) in Drawn(ds) then 1 else s[i][j]
    decreases |ds|
  {
    if ds != [] {
      var init := ds[..|ds| - 1];
      SeededCells(s, init);
      assert Drawn(ds) == Drawn(init) + {DrawnCell(ds[|ds| - 1])} by {
        forall c | c in Drawn(ds) ensures c in Drawn(init) + {DrawnCell(ds[|ds| - 1])} {
          var k :| 0 <= k < |ds| && c == DrawnCell(ds[k]);
          if k < |ds| - 1 {
            assert init[k] == ds[k];
          }
        }
        forall c | c in Drawn(init) ensures c in Drawn(ds) {
          var k :| 0 <= k < |init| && c == DrawnCell(init[k]);
          assert ds[k] == init[k];
        }
      }
    }
  }

  /** Duplicate draws have no extra effect: at most |ds| cells are seeded. */
  lemma {:induction false} DrawnAtMost(ds: seq<(nat, nat)>)
    ensures |Drawn(ds)| <= |ds|
    decreases |ds|
  {
    if ds != [] {
      var init := ds[..|ds| - 1];
      DrawnAtMost(init);
      assert Drawn(ds) <= Drawn(init) + {DrawnCell(ds[|ds| - 1])} by {
        forall c | c in Drawn(ds) ensures c in Drawn(init) + {DrawnCell(ds[|ds| - 1])} {
          var k :| 0 <= k < |ds| && c == DrawnCell(ds[k]);
          if k < |ds| - 1 {
            assert init[k] == ds[k];
          }
        }
      }
      SubsetSize(Drawn(ds), Drawn(init) + {DrawnCell(ds[|ds| - 1])});
    }
  }

  lemma SubsetSize<T>(a: set<T>, b: set<T>)
    requires a <= b
    ensures |a| <= |b|
  {
    assert b == a + (b - a);
  }

  /** initRandom: `repetition` times, sets alive the cell chosen by the next
      pair of rand() results, taken from `draws`; a negative count draws nothing. */
  method InitRandom(grid: array2<int>, repetition: int, draws: seq<(nat, nat)>)
    requires grid.Length0 == SIZE && grid.Length1 == SIZE
    requires repetition <= |draws|
    modifies grid
    ensures Cells(grid) == Seeded(old(Cells(grid)), draws[..if repetition < 0 then 0 else repetition])
  {
    ghost var s := Cells(grid);
    var r := 0;
    while r < repetition
      invariant 0 <= r <= if repetition < 0 then 0 else repetition
      invariant Cells(grid) == Seeded(s, draws[..r])
    {
      var initialAliveX := Coordinate(draws[r].0);
      var initialAliveY := Coordinate(draws[r].1);
      grid[initialAliveX, initialAliveY] := 1;
      assert draws[..r + 1][..r] == draws[..r];
      SameCells(Cells(grid), Seeded(s, draws[..r + 1]), SIZE);
      r := r + 1;
    }
  }
}
