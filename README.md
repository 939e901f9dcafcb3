# Conway's Game of Life engine — a Dafny model

This project models the simulation core of an interactive Game of Life
program (`main.cpp`). The grid is a `SIZE` x `SIZE` array of `int`
(`SIZE = RAW_SIZE + 2`). It has a one-cell border around a
`RAW_SIZE` x `RAW_SIZE` interior. Beside it sits a padded heat map with one
cell per `HEAT_BLOCKSIZE` x `HEAT_BLOCKSIZE` block of the interior. The
model covers these operations:

- zero-filling the grid and the heat map (`initDead`, `initDeadHeat`);
- seeding live cells at random coordinates (`initRandom`);
- one generation of the B3/S23 rule, computed into a second buffer that is
  then copied back (`updateGrid`);
- reducing the grid into block sums (`updateHeatMap`);
- clearing (`nuke`) or randomly reviving (`repopulate`) every cell within
  `NUKE_RADIUS` of a centre cell.

The arrays stay arrays. Each operation is a method over `array2<int>` with
`modifies` clauses and loops carrying their invariants. Every method's
`ensures` ties the array's contents after the call (`Cells(a)`, the array
read as a sequence of rows) to a pure function of its contents before it:
`Step`, `Heat`, `Nuked`, `Repopulated`, `Seeded`, `Zeros`. The properties
the program relies on are lemmas about those functions.

Modules, one per component of `main.cpp`:

- `Config` (config.dfy): the simulation constants of main.cpp:15-30, with
  the values they evaluate to.
- `Grids`, `RectSums` (grids.dfy): grids as values, and sums over
  rectangles of cells with their splitting and counting lemmas.
- `Seeding` (seeding.dfy): zero-filling and random seeding.
- `Stepper` (stepper.dfy): the generation step.
- `HeatMap` (heatmap.dfy): the block reduction.
- `Region` (region.dfy): the circular clear and revive.

Modelling decisions:

- `rand()` is not modelled. `initRandom` takes a sequence of pairs of
  `rand()` results (row first, then column) and reduces each one itself with
  `% LAST + FIRST`. `repopulate` takes a sequence of `rand()` results and
  tests each with `% 2 == 0`. Because of the `&&` short-circuit at
  main.cpp:271, a value is drawn only for a cell that passes the distance
  test, in row-major order. `CoinIndex` is the position of that cell's draw
  in the sequence, and `Repopulate` returns how many values it drew.
- The distance test `sqrt(dx*dx + dy*dy) <= NUKE_RADIUS` is in single
  precision. It is modelled as `dx*dx + dy*dy <= NUKE_RADIUS * NUKE_RADIUS`.
  The two agree for every centre whose differences `i - cx` and `j - cy`
  do not overflow a C `int` (the program's centres lie in -1..250). If `|dx|` and `|dy|` are both at
  most 20, every `float` step is exact, and a correctly rounded square root
  is at most 20 exactly when its argument is at most 400. Otherwise one of
  them is at least 21, and so is its rounded `float` conversion, because
  rounding is monotone and 21 is representable. The rounded sum of squares
  is then at least 441 (or infinite), its square root exceeds 20, and the
  test fails on both sides.
- The centre `(cx, cy)` of a clear or revive is an integer input, and any
  integer is accepted. How the program derives it from a mouse position is
  not part of this model.
- Seeding and region edits are not confined to the interior, and the
  border is not always 0: `rand() % LAST + FIRST` ranges over
  `1..LAST`, and the clear/revive loops run over rows and columns
  `FIRST..LAST`. `LAST = SIZE - 1` is a border index, so seeding and
  reviving can make a cell of the last border row or column live
  (`Seeding.Coordinate` states when). Such a cell counts as a neighbour in
  the next `UpdateGrid`, which then resets the whole border to 0
  (`Stepper.Step`).
- `HEAT_SIZE` is 27. The reduction never writes the heat map's border
  rows and columns (indices 0 and 26), and `Heat` keeps whatever they held
  before.
- `INIT_ALIVE` is `RAW_SIZE * RAW_SIZE * 0.05`, a `double` truncated to
  `int`. For `RAW_SIZE = 250` that is 3125, and `Config` writes it as
  `RAW_SIZE * RAW_SIZE / 20`.

## Model

| member | source | states |
|---|---|---|
| `Config.Values` | main.cpp:15-30 | the constants evaluate to SIZE 252, LAST 251, 3125 initial seeds, block size 10, 25 blocks per side, heat array 27 x 27 |
| `Seeding.ZeroFill` | main.cpp:97-103 | after the double loop every cell of the n x n array, border included, is 0 |
| `Seeding.InitDead` | main.cpp:94-104 | every grid cell, border included, is 0 afterwards |
| `Seeding.InitDeadHeat` | main.cpp:106-116 | every heat-map cell, border included, is 0 afterwards |
| `Seeding.Coordinate` | main.cpp:123-124 | `rand() % LAST + FIRST` lies in FIRST..LAST, and it is the border index LAST exactly when the draw is congruent to RAW_SIZE modulo LAST |
| `Seeding.SeededCells` | main.cpp:118-130 | after seeding, a cell is 1 if it is one of the drawn cells; every other cell keeps its old value |
| `Seeding.DrawnAtMost` | main.cpp:120-129 | repeated draws add nothing, so at most `repetition` cells are seeded |
| `Seeding.InitRandom` | main.cpp:118-130 | the grid becomes the old grid seeded with the first `repetition` draws, in order; with `repetition <= 0` it is unchanged |
| `Stepper.Rule` | main.cpp:151-168 | the next state is 1 exactly when the cell is 1 with 2 or 3 neighbours, or is not 1 with exactly 3; it is always 0 or 1 |
| `Stepper.Step` | main.cpp:136-178 | after a step every border cell is 0 and every cell is 0 or 1, whatever the input held |
| `Stepper.StepRule` | main.cpp:141-168 | an interior cell is 1 after a step exactly when, in the previous grid, it was 1 with 2 or 3 live neighbours (border included) or was not 1 with exactly 3 |
| `Stepper.NextRow` | main.cpp:139-169 | the inner loop gives each interior cell of row i of the buffer its next state, read from the unchanged grid; no other buffer cell changes |
| `Stepper.NextGeneration` | main.cpp:136-170 | the zero-initialised buffer ends up holding the next generation of the grid |
| `Stepper.CopyBack` | main.cpp:172-178 | every grid cell, border included, receives the buffer's value |
| `Stepper.UpdateGrid` | main.cpp:133-179 | the grid is replaced by the next generation of its old contents |
| `Stepper.DeadStaysDead` | main.cpp:133-179 | an all-zero grid stays all-zero for any number of generations |
| `Stepper.BlockIsStill` | main.cpp:133-179 | on an otherwise dead grid, a 2x2 block of live cells anywhere in the interior is unchanged by a step |
| `Stepper.BlinkerOscillates` | main.cpp:133-179 | on an otherwise dead grid, a three-cell blinker away from the border turns into its other phase after one step and returns to itself after two |
| `HeatMap.BlockOrigin` | main.cpp:184-194 | the block of every heat row/column 1..HEAT_RAW_SIZE lies within interior rows/columns 1..RAW_SIZE |
| `HeatMap.BlockOriginStep` | main.cpp:184-201 | the loop index advances by the block size, and the test `i <= LAST - HEAT_BLOCKSIZE` holds exactly for the origins of blocks 1..HEAT_RAW_SIZE |
| `HeatMap.SumBlock` | main.cpp:189-196 | the running `sum` ends as the sum of the K x K block at (i, j) |
| `HeatMap.ReduceBand` | main.cpp:186-200 | heat row `row`, columns 1..HEAT_RAW_SIZE, receive their block sums; every other heat cell keeps its value |
| `HeatMap.UpdateHeatMap` | main.cpp:181-203 | heat cell (r, c), 1 <= r, c <= HEAT_RAW_SIZE, becomes the sum of grid cells (1+(r-1)K+x, 1+(c-1)K+y), 0 <= x, y < K; all other heat cells and the grid are unchanged |
| `HeatMap.HeatBounds` | main.cpp:189-198 | on a grid whose interior holds only 0 and 1, every written heat value lies in [0, K*K] |
| `HeatMap.HeatTotal` | main.cpp:183-202 | the written heat cells add up to the sum of the covered (RAW_SIZE/K)*K square of the grid; on a 0/1 grid that is its number of live cells |
| `Region.Nuke` | main.cpp:235-247 | the grid becomes the old grid with every cell of rows/columns FIRST..LAST within the radius set to 0 and all other cells unchanged |
| `Region.NukeIdempotent` | main.cpp:235-247 | clearing the same region twice gives the same grid as clearing it once |
| `Region.NukedBlockIsCold` | main.cpp:235-247 | after clearing, a heat block lying wholly inside the radius reduces to 0 |
| `Region.CoinOrder` | main.cpp:264-276 | flips are drawn in row-major order: a region cell's draw comes before that of any later cell |
| `Region.CoinsDistinct` | main.cpp:264-276 | distinct region cells consume distinct draws |
| `Region.CoinInRange` | main.cpp:264-276 | every region cell's draw is among the first RegionSize draws |
| `Region.RepopulateOnlyRevives` | main.cpp:264-276 | a revive changes only cells within the radius, only to 1, so no live cell dies; a cell within the radius whose draw is even becomes 1 |
| `Region.RepopulateRow` | main.cpp:266-275 | the inner loop revives row i as `Repopulated` does and advances the draw position to the start of row i+1 |
| `Region.Repopulate` | main.cpp:264-276 | the grid becomes `Repopulated` of its old contents, and exactly RegionSize draws are consumed |

## Left out

- `drawGrid`, `drawHeatMap` and the heat colour ratio (main.cpp:32-92) are rendering.
- `isMouseOverButton`, the click filtering in `main` and the pixel-to-cell conversion of the centre in `nuke`/`repopulate` (main.cpp:210-233, 250-262) are input handling. The centre is an input of the model.
- The sound playback, the outline circle and the console output in `nuke` and `repopulate` are presentation side effects.
- The display constants `RS_FLOAT`, `CELLSIZE`, `HEAT_CELL_SCALE` (float) and `HEAT_CELLSIZE`, `HEAT_QUAD_FACTOR` (int) (main.cpp:20-21, 23, 27, 29) only size and colour what is drawn and convert pixels to cells, so they belong to rendering and input handling.
- `toggle` (main.cpp:205-208) only flips the view flag and never touches the grid or the heat map.
- `main` (main.cpp:279-439) is not modelled: asset loading, the window event loop, the frame delay and counter, and the start-up calls that pass `INIT_ALIVE` to `initRandom`. The constant itself is in `Config`.
- `rand()` itself is not modelled. Its results are input sequences. `InitRandom` requires at least `repetition` draw pairs, and `Repopulate` requires at least RegionSize coins. These are finite stand-ins for the endless `rand()` stream.
- The statistical claim that repeated revives push the live fraction inside the radius towards 0.75 is a probability statement. The model proves only the per-draw effect (`Region.RepopulateOnlyRevives`).
- C `int` overflow is not modelled. Cells, neighbour sums, block sums and the centre differences `i - cx`, `j - cy` of the distance test are unbounded integers. Neighbour and block sums cannot overflow while cells hold 0 or 1.
