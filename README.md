# Minesweeper board — a Dafny model

This project models the board of a console Minesweeper game written in
Kotlin: the `MineField` aggregate and the `MineFieldConverter` that renders
it.

A board has a positive height and width and one cell per in-bounds
coordinate. A cell is a mine or an empty space, and each cell has a
revealed flag. Building a board fails with the message
"Cells의 개수가 보드 크기와 일치하지 않습니다." when the number of cells
differs from height × width. The source computes that product as a 32-bit
`Int`, which wraps; the model uses the exact product and records the wrap
under "## Findings".

The board offers these operations:

- It counts the mines among the (up to eight) in-bounds neighbours of a
  coordinate.
- It opens a coordinate. A revealed cell is left alone. Otherwise the cell
  is revealed. If it is an empty cell with no mine around it, every
  unrevealed in-bounds neighbour is revealed, recursively.
- It classifies a move as game over, game cleared or continue.

The converter turns the board into a grid of characters. The grid has one
row per `y` and one column per `x`. A mine shows as `*` and an empty cell
shows as the digit of its mine count.

Modules:

- `Coordinates` (`coordinate.dfy`): coordinates, their eight neighbours,
  the bounds test, and the set of in-bounds coordinates.
- `CellKinds` (`cell.dfy`): the two kinds of cell. The keyed collection of
  cells is the board's `cells` map.
- `Reachability` (`reachability.dfy`): the least region closed under a
  spreading relation. The flood fill is specified as such a region.
- `MineFields` (`mine_field.dfy`): the board, as a class.
  - The layout (`height`, `width`, `cells`) is constant.
  - The revealed flags are the set `revealed`, which `Open` updates in
    place.
  - `Open` and the recursive `OpenAdjacentEmptyCells` /
    `OpenNeighbour` are methods with a loop, like the source.
  - They are proved to reveal exactly `FloodRegion`, the least region that
    contains the opened cell and that the reveal does not spread out of.
    It follows that the visiting order does not matter, that only the
    opened cell can be a mine, and that a repeated open changes nothing.
- `MineFieldConverter` (`mine_field_converter.dfy`): the view, as pure
  functions.
- `MineFieldScenarios` (`scenarios.dfy`): the boards of the repository's
  test suite, with the facts each test checks, proved.
- `Wrappers` (`wrappers.dfy`): the `Result` type for the failure of
  construction.

## Model

| member | source | states |
|---|---|---|
| Coordinates.Coordinate.AdjacentCoordinates | src/main/kotlin/minesweeper/entity/MineField.kt:22-23 | the neighbour list has eight distinct coordinates, and a coordinate is in it iff it touches the cell horizontally, vertically or diagonally and is not the cell itself |
| Coordinates.FillsBounds | src/main/kotlin/minesweeper/entity/MineField.kt:8-11 | a set of in-bounds coordinates has width × height elements iff it is every in-bounds coordinate |
| MineFields.WrapInt32 | src/main/kotlin/minesweeper/entity/MineField.kt:9 | the result is a 32-bit `Int`, congruent to the exact value modulo 2^32, and equal to it whenever it fits |
| MineFields.SizeCheckAsWritten | src/main/kotlin/minesweeper/entity/MineField.kt:9 | the size check as written passes iff the cell count is below 2^31 and congruent to height × width modulo 2^32 |
| MineFields.SizeCheckAsWrittenWithoutOverflow | src/main/kotlin/minesweeper/entity/MineField.kt:9 | while height × width fits in an `Int`, the size check as written accepts exactly the counts equal to height × width |
| MineFields.WrappedSizeCheckAcceptsEmptyBoard | src/main/kotlin/minesweeper/entity/MineField.kt:9 | the size check as written accepts a 65536 × 65536 board with no cells, although 0 ≠ 65536 × 65536 |
| MineFields.MineField.constructor | src/main/kotlin/minesweeper/entity/MineField.kt:3-7 | the new board has the given height, width and cells, and nothing is revealed |
| MineFields.MineField.Create | src/main/kotlin/minesweeper/entity/MineField.kt:3-12 | construction fails iff the cell count is not height × width, and then with exactly the fixed message; on success the board is well formed, keeps the given extents and cells, and has nothing revealed; whenever height × width fits in an `Int`, it succeeds exactly when the size check as written passes |
| MineFields.MineField.SizeCheckMeansFullCoverage | src/main/kotlin/minesweeper/entity/MineField.kt:8-11 | for cells at in-bounds keys, the count check passes iff every in-bounds coordinate has a cell |
| MineFields.MineField.AllCells | src/main/kotlin/minesweeper/entity/MineField.kt:14-15 | the list of cells has height × width entries; it holds the cell at every key, and every entry is the cell stored at its own coordinate |
| MineFields.MineField.FindCell | src/main/kotlin/minesweeper/entity/MineField.kt:17-19 | the cell found is a cell of the board and sits at the coordinate asked for |
| MineFields.MineField.CountMinesInIsCardinality | src/main/kotlin/minesweeper/entity/MineField.kt:22-24 | filtering a duplicate-free coordinate list to in-bounds entries and counting the mines gives the number of distinct mine coordinates in it |
| MineFields.MineField.CountAroundMines | src/main/kotlin/minesweeper/entity/MineField.kt:21-25 | the count is between 0 and 8 and equals the number of mines among the in-bounds neighbours of the coordinate, the coordinate itself excluded |
| MineFields.MineField.ShouldOpenAdjacentCells | src/main/kotlin/minesweeper/entity/MineField.kt:37-39 | a cell spreads the reveal iff it is empty and the set of mines among its in-bounds neighbours is empty |
| MineFields.MineField.ShouldOpenMeansNoMineAround | src/main/kotlin/minesweeper/entity/MineField.kt:37-39 | a cell spreads the reveal iff it is empty and none of its in-bounds neighbours is a mine |
| MineFields.MineField.NextToMineStopsSpread | src/main/kotlin/minesweeper/entity/MineField.kt:37-39 | a cell with a mine next to it never spreads the reveal |
| MineFields.MineField.FloodRegion | src/main/kotlin/minesweeper/entity/MineField.kt:27-51 | the region a reveal opens contains the opened cell and only coordinates of the board |
| MineFields.MineField.FloodRegionIsLeastClosed | src/main/kotlin/minesweeper/entity/MineField.kt:41-51 | the reveal does not spread out of the flood region; the region holds nothing revealed before, except possibly the opened cell; and it is contained in every other region with those properties, so it does not depend on the visiting order |
| MineFields.MineField.FloodRegionIsSupported | src/main/kotlin/minesweeper/entity/MineField.kt:41-51 | every cell of the region other than the opened one neighbours a zero-count empty cell of the region |
| MineFields.MineField.FloodRegionIsSafe | src/main/kotlin/minesweeper/entity/MineField.kt:41-51 | the flood fill never reaches a mine; only the opened cell itself may be one |
| MineFields.MineField.FloodRegionOfNonZeroCell | src/main/kotlin/minesweeper/entity/MineField.kt:31-34 | opening a mine, or an empty cell with a mine next to it, reveals only that cell |
| MineFields.MineField.FloodRegionOfOneStep | src/main/kotlin/minesweeper/entity/MineField.kt:41-51 | from a zero-count empty cell whose unrevealed neighbours each have a mine next to them, the reveal opens exactly that cell and those neighbours |
| MineFields.MineField.SpreadRevealsFloodRegion | src/main/kotlin/minesweeper/entity/MineField.kt:31-34 | a reveal that stays in the flood region, and has spread from every cell it revealed, has revealed the whole flood region |
| MineFields.MineField.UnrevealedWithinBounds | src/main/kotlin/minesweeper/entity/MineField.kt:42-43 | the filtered neighbour list holds exactly the in-bounds neighbours that are not revealed when the filter runs |
| MineFields.MineField.Open | src/main/kotlin/minesweeper/entity/MineField.kt:27-35 | opening a revealed cell changes nothing; otherwise the revealed set becomes the old one plus the flood region; the opened cell is then revealed, nothing is hidden again, every other newly revealed cell is empty, and the board stays well formed |
| MineFields.MineField.OpenAdjacentEmptyCells | src/main/kotlin/minesweeper/entity/MineField.kt:41-51 | reveals every neighbour the spread reaches and stays inside the flood region; every cell it reveals has spread in turn; if all neighbours were already revealed, nothing changes |
| MineFields.MineField.OpenNeighbour | src/main/kotlin/minesweeper/entity/MineField.kt:44-50 | one step of the loop reveals its neighbour and stays inside the flood region; every cell it reveals has spread; a neighbour revealed earlier by a sibling's recursion is left as it is |
| MineFields.MineField.IsAllSafeCellsRevealed | src/main/kotlin/minesweeper/entity/MineField.kt:63-67 | true iff every empty cell of the board is revealed |
| MineFields.MineField.DetermineAction | src/main/kotlin/minesweeper/entity/MineField.kt:53-61 | game over iff the cell at the coordinate is a mine; cleared iff it is empty and every unrevealed cell is a mine; continue iff it is empty and some empty cell is still unrevealed |
| MineFieldConverter.ConvertCellToView | src/main/kotlin/minesweeper/converter/MineFieldConverter.kt:17-28 | the character is `*` iff the cell is a mine; an empty cell shows a digit '0'..'8' whose value is its mine count |
| MineFieldConverter.MapToViewData | src/main/kotlin/minesweeper/converter/MineFieldConverter.kt:8-15 | the grid has height rows of width characters; the entry at row y, column x is `*` iff (x, y) is a mine, and otherwise the digit of its mine count; the grid depends only on the layout and never on the revealed flags |
| MineFieldConverter.ViewShowsExactlyTheMines | src/main/kotlin/minesweeper/converter/MineFieldConverter.kt:8-25 | the coordinates the grid shows as `*` are exactly the board's mines |
| MineFieldScenarios.CornerMineCounts | src/test/kotlin/minesweeper/entity/MineFieldTest.kt:86-105 | on the 2 × 2 board with a mine at (0, 0), the counts at (1, 1), (1, 0) and (0, 0) are 1, 1 and 0 |
| MineFieldScenarios.DiagonalFloodRegion | src/test/kotlin/minesweeper/entity/MineFieldTest.kt:139-171 | on the 3 × 3 board with mines at (0, 0) and (2, 2), opening (2, 0) reveals exactly (2, 0), (1, 0), (1, 1) and (2, 1) |
| MineFieldScenarios.CornerOpensAlone | src/test/kotlin/minesweeper/entity/MineFieldTest.kt:194-211 | on the 2 × 2 board, opening any empty cell reveals only that cell |
| MineFieldScenarios.OpenNextToCornerMine | src/test/kotlin/minesweeper/entity/MineFieldTest.kt:194-205 | opening (0, 1) of a fresh 2 × 2 board leaves exactly (0, 1) revealed |
| MineFieldScenarios.CornerClearedOnceSafeCellsShown | src/test/kotlin/minesweeper/entity/MineFieldTest.kt:213-233 | once its three empty cells are revealed, every unrevealed cell of the 2 × 2 board is a mine |

The scenario methods in `scenarios.dfy` replay the remaining tests. They
have no contract of their own, but their assertions are proved:

- `ConstructionScenarios`: `MineFieldTest.kt:15-54`.
- `OpenMineScenario`: `MineFieldTest.kt:108-137`.
- `FloodFillScenario`: `MineFieldTest.kt:139-171`. There (1, 0) has a
  mine count of 1, from the mine at (0, 0). It is revealed as a neighbour
  of (2, 0) and does not spread further.
- `GameOverScenario`, `ContinueScenario`, `ClearedScenario`:
  `MineFieldTest.kt:175-233`.
- `RepeatedOpenScenario`: a second open of the same cell changes nothing,
  and the view does not change when cells are revealed.

## Left out

- Exceptions: the failing size check is a `Failure` value of `Create`
  carrying the same message, not an `IllegalArgumentException`.
- MineFields.MineField.Create: requires every key to be in bounds and to
  hold the cell at that coordinate. `Cells.kt` is not part of this model.
  Its `findCell` behaviour on a missing or out-of-bounds key is unknown,
  so a board whose keys are off the board is not modelled.
- `Height`/`Width` validation is not part of this model. Both are a
  positive `Dimension`.
- `Coordinate.kt` and `Cell.kt` are not part of this model.
  - The neighbour order of `adjacentCoordinates` is taken as x-offset
    first. No stated property depends on the order.
  - The revealed flag and `open()` of a cell are represented by membership
    in the board's `revealed` set.
- MineFields.MineField.AllCells: the `cells` list is a set, so the order
  of the list is not modelled. Its size and contents are.
- Aliasing: `Cell` objects shared with the caller are not modelled. Only
  the board reveals cells.
- Call-stack depth of the recursive flood fill (a JVM stack overflow on a
  very large board) is not modelled.
- The test framework, and console input and output, are left out.
- MineFields.MineField.DetermineAction takes the coordinate opened last,
  as the source does (`MineField.kt:53`). The tests call it with no
  argument, and the scenarios pass the coordinate each test opened last.
- MineFields.MineField.Create: compares the cell count with the exact
  height × width, not with the 32-bit wrapped product the source computes.
  For products of 2^31 or more it therefore rejects cell counts the source
  accepts (see "## Findings"). `Height` and `Width` are 32-bit `Int`
  values in the model too.

## Findings

| source | as written | input that shows it | evidently intended | confidence | as-written member | corrected member |
|---|---|---|---|---|---|---|
| src/main/kotlin/minesweeper/entity/MineField.kt:9 | `cells.size == height.value * width.value`, with the product in 32-bit `Int` arithmetic, which wraps | `Height(65536)`, `Width(65536)`, no cells: the product 2^32 wraps to 0, so an empty board is accepted | the cell count equals the exact product height × width | not executed; needs a board of 2^31 or more cells | MineFields.WrappedSizeCheckAcceptsEmptyBoard | MineFields.MineField.Create |
