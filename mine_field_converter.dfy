/**
 * Renders a whole board as a grid of characters, one row per y and one
 * column per x: a mine is `*`, an empty cell the digit of its adjacent-mine
 * count.  Revealed flags are not consulted; the view reads only the board's
 * fixed layout.
 */
module MineFieldConverter {
  import opened Coordinates
  import opened CellKinds
  import opened MineFields

  const MineView: char := '*'

  /** The decimal digit for `d`. */
  function DigitToChar(d: nat): char
    requires d <= 9
  {
    ('0' as int + d) as char
  }

  /** A mine as `*`, an empty cell as the digit of its adjacent-mine count. */
  function ConvertCellToView(cell: Cell, field: MineField): (view: char)
    requires field.WellFormed()
    ensures view == MineView <==> cell.Mine?
    ensures cell.Empty? ==> '0' <= view <= '8' && view as int - '0' as int == field.CountAroundMines(cell.coordinate)
  {
    match cell
    case Mine(_) => MineView
    case Empty(coordinate) => DigitToChar(field.CountAroundMines(coordinate))
  }

  /**
   * A height x width grid; the entry at row y, column x shows the cell at
   * Coordinate(x, y).
   */
  function MapToViewData(field: MineField): (grid: seq<seq<char>>)
    requires field.WellFormed()
    ensures |grid| == field.height
    ensures forall y :: 0 <= y < |grid| ==> |grid[y]| == field.width
    ensures forall y, x :: 0 <= y < |grid| && 0 <= x < |grid[y]| ==>
      (grid[y][x] == MineView <==> field.cells[Coordinate(x, y)].Mine?)
    ensures forall y, x :: 0 <= y < |grid| && 0 <= x < |grid[y]| && field.cells[Coordinate(x, y)].Empty? ==>
      '0' <= grid[y][x] <= '8' && grid[y][x] as int - '0' as int == field.CountAroundMines(Coordinate(x, y))
  {
    seq(field.height, y requires 0 <= y < field.height =>
      seq(field.width, x requires 0 <= x < field.width =>
        ConvertCellToView(field.FindCell(Coordinate(x, y)), field)))
  }

  /** The coordinates the grid shows as mines. */
  ghost function MinesShown(grid: seq<seq<char>>): set<Coordinate>
  {
    set y, x | 0 <= y < |grid| && 0 <= x < |grid[y]| && grid[y][x] == MineView :: Coordinate(x, y)
  }

  /** Reading the mines back off the view gives exactly the board's mines. */
  lemma ViewShowsExactlyTheMines(field: MineField)
    requires field.WellFormed()
    ensures MinesShown(MapToViewData(field)) == set k | k in field.cells && field.cells[k].Mine?
  {
    var grid := MapToViewData(field);
    forall k | k in field.cells && field.cells[k].Mine? ensures k in MinesShown(grid) {
      assert grid[k.y][k.x] == MineView;
    }
  }
}
