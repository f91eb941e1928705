/**
 * The board's test cases replayed against the model: construction with a
 * matching and a mismatching cell count, mine counts on a 2 x 2 board,
 * opening a mine and flood-filling on a 3 x 3 board, and the three game
 * outcomes.  The status query is given the coordinate opened last.
 *
 * Each fixed board is built once by a factory method that describes it by
 * which of its in-bounds cells are mines; the facts about a board are
 * lemmas over that description, and the scenarios follow the calls.
 */
module MineFieldScenarios {
  import opened Wrappers
  import opened Coordinates
  import opened CellKinds
  import opened MineFields
  import opened MineFieldConverter

  // ----- the 3 x 3 board with mines at (0, 0) and (2, 2) -----------------

  function DiagonalMines(): map<Coordinate, Cell>
  {
    map[Coordinate(0, 0) := Mine(Coordinate(0, 0)), Coordinate(1, 0) := Empty(Coordinate(1, 0)),
        Coordinate(2, 0) := Empty(Coordinate(2, 0)), Coordinate(0, 1) := Empty(Coordinate(0, 1)),
        Coordinate(1, 1) := Empty(Coordinate(1, 1)), Coordinate(2, 1) := Empty(Coordinate(2, 1)),
        Coordinate(0, 2) := Empty(Coordinate(0, 2)), Coordinate(1, 2) := Empty(Coordinate(1, 2)),
        Coordinate(2, 2) := Mine(Coordinate(2, 2))]
  }

  ghost predicate IsDiagonalBoard(field: MineField) {
    field.height == 3 && field.width == 3 && field.WellFormed() &&
    forall k :: k in field.cells ==> (field.cells[k].Mine? <==> k == Coordinate(0, 0) || k == Coordinate(2, 2))
  }

  method NewDiagonalBoard() returns (field: MineField)
    ensures fresh(field) && field.Valid() && field.revealed == {} && IsDiagonalBoard(field)
  {
    field := new MineField(3, 3, DiagonalMines());
  }

  lemma DiagonalNeighbourhood(field: MineField)
    requires IsDiagonalBoard(field)
    ensures field.Neighbourhood(Coordinate(2, 0)) == {Coordinate(1, 0), Coordinate(1, 1), Coordinate(2, 1)}
  {
    var n := field.Neighbourhood(Coordinate(2, 0));
    assert Coordinate(1, 0) in n && Coordinate(1, 1) in n && Coordinate(2, 1) in n;
  }

  /** Opening (2, 0) reveals it and its three neighbours, each of which touches a mine. */
  lemma DiagonalFloodRegion(field: MineField)
    requires IsDiagonalBoard(field)
    ensures field.FloodRegion({}, Coordinate(2, 0)) ==
      {Coordinate(2, 0), Coordinate(1, 0), Coordinate(1, 1), Coordinate(2, 1)}
  {
    var c := Coordinate(2, 0);
    DiagonalNeighbourhood(field);
    forall q | q in field.Neighbourhood(c) && q !in {} ensures field.MinesAround(q) != {} {
      if q == Coordinate(2, 1) {
        assert Coordinate(2, 2) in field.MinesAround(q);
      } else {
        assert Coordinate(0, 0) in field.MinesAround(q);
      }
    }
    var expected := {Coordinate(2, 0), Coordinate(1, 0), Coordinate(1, 1), Coordinate(2, 1)};
    assert expected == {c} + (field.Neighbourhood(c) - {});
    field.FloodRegionOfOneStep({}, c, expected);
  }

  // ----- the 2 x 2 board with a mine at (0, 0) ----------------------------

  function CornerMine(): map<Coordinate, Cell>
  {
    map[Coordinate(0, 0) := Mine(Coordinate(0, 0)), Coordinate(1, 0) := Empty(Coordinate(1, 0)),
        Coordinate(0, 1) := Empty(Coordinate(0, 1)), Coordinate(1, 1) := Empty(Coordinate(1, 1))]
  }

  ghost predicate IsCornerBoard(field: MineField) {
    field.height == 2 && field.width == 2 && field.WellFormed() &&
    forall k :: k in field.cells ==> (field.cells[k].Mine? <==> k == Coordinate(0, 0))
  }

  method NewCornerBoard() returns (field: MineField)
    ensures fresh(field) && field.Valid() && field.revealed == {} && IsCornerBoard(field)
  {
    field := new MineField(2, 2, CornerMine());
  }

  lemma CornerMineCounts(field: MineField)
    requires IsCornerBoard(field)
    ensures field.CountAroundMines(Coordinate(1, 1)) == 1
    ensures field.CountAroundMines(Coordinate(1, 0)) == 1
    ensures field.CountAroundMines(Coordinate(0, 0)) == 0
  {
    assert Coordinate(0, 0) in field.cells;
    assert field.MinesAround(Coordinate(1, 1)) == {Coordinate(0, 0)};
    assert field.MinesAround(Coordinate(1, 0)) == {Coordinate(0, 0)};
    assert field.MinesAround(Coordinate(0, 0)) == {};
  }

  /** A cell with a mine next to it opens only itself. */
  lemma CornerOpensAlone(field: MineField, c: Coordinate)
    requires IsCornerBoard(field) && c in field.cells && c != Coordinate(0, 0)
    ensures field.FloodRegion({}, c) == {c}
  {
    assert Coordinate(0, 0) in field.cells;
    field.NextToMineStopsSpread(c, Coordinate(0, 0));
    field.FloodRegionOfNonZeroCell({}, c);
  }

  /** Once its three empty cells are revealed, the 2 x 2 board is cleared. */
  lemma CornerClearedOnceSafeCellsShown(field: MineField)
    requires IsCornerBoard(field) && field.Valid()
    requires Coordinate(1, 0) in field.revealed && Coordinate(0, 1) in field.revealed
    requires Coordinate(1, 1) in field.revealed
    ensures forall k :: k in field.cells && k !in field.revealed ==> field.cells[k].Mine?
  {
  }

  // ----- the scenarios ----------------------------------------------------

  method ConstructionScenarios()
  {
    var cells := map[Coordinate(0, 0) := Mine(Coordinate(0, 0)), Coordinate(1, 0) := Empty(Coordinate(1, 0)),
                     Coordinate(0, 1) := Empty(Coordinate(0, 1)), Coordinate(1, 1) := Mine(Coordinate(1, 1))];
    assert cells.Keys == {Coordinate(0, 0), Coordinate(1, 0), Coordinate(0, 1), Coordinate(1, 1)};
    var made := MineField.Create(2, 2, cells);
    assert made.Success?;
    assert |made.value.AllCells()| == 4;

    var tooFew := map[Coordinate(0, 0) := Mine(Coordinate(0, 0)), Coordinate(1, 0) := Empty(Coordinate(1, 0))];
    assert tooFew.Keys == {Coordinate(0, 0), Coordinate(1, 0)};
    var refused := MineField.Create(3, 3, tooFew);
    assert refused.Failure? && refused.error == SizeMismatchMessage;
  }

  method CountScenario()
  {
    var field := NewCornerBoard();
    CornerMineCounts(field);
    var n := field.CountAroundMines(Coordinate(1, 1));
    assert n == 1;
  }

  method OpenMineScenario()
  {
    var field := NewDiagonalBoard();
    assert field.cells[Coordinate(0, 0)].Mine?;
    field.FloodRegionOfNonZeroCell({}, Coordinate(0, 0));
    field.Open(Coordinate(0, 0));
    assert field.revealed == {Coordinate(0, 0)};
  }

  method FloodFillScenario()
  {
    var field := NewDiagonalBoard();
    DiagonalFloodRegion(field);
    field.Open(Coordinate(2, 0));
    assert field.revealed == {Coordinate(2, 0), Coordinate(1, 0), Coordinate(1, 1), Coordinate(2, 1)};
  }

  method GameOverScenario()
  {
    var field := NewCornerBoard();
    field.Open(Coordinate(0, 0));
    var action := field.DetermineAction(Coordinate(0, 0));
    assert action == GameOver;
  }

  /** Opening (0, 1) of the 2 x 2 board reveals that cell alone. */
  method OpenNextToCornerMine() returns (field: MineField)
    ensures fresh(field) && field.Valid() && IsCornerBoard(field) && field.revealed == {Coordinate(0, 1)}
  {
    field := NewCornerBoard();
    CornerOpensAlone(field, Coordinate(0, 1));
    field.Open(Coordinate(0, 1));
  }

  method ContinueScenario()
  {
    var field := OpenNextToCornerMine();
    assert Coordinate(0, 1) in field.cells && Coordinate(1, 1) in field.cells;
    var action := field.DetermineAction(Coordinate(0, 1));
    assert action == Continue;
  }

  method ClearedScenario()
  {
    var field := NewCornerBoard();
    field.Open(Coordinate(0, 1));
    field.Open(Coordinate(1, 1));
    field.Open(Coordinate(1, 0));
    CornerClearedOnceSafeCellsShown(field);
    var action := field.DetermineAction(Coordinate(1, 0));
    assert action == GameCleared;
  }

  /** Opening twice reveals what opening once does, and the view does not change. */
  method RepeatedOpenScenario()
  {
    var field := NewDiagonalBoard();
    var view := MapToViewData(field);
    field.Open(Coordinate(2, 0));
    var once := field.revealed;
    field.Open(Coordinate(2, 0));
    assert field.revealed == once;
    assert MapToViewData(field) == view;
  }
}
