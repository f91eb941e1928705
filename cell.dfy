/** A board unit: a mine or an empty space, each knowing where it sits. */
module CellKinds {
  import opened Coordinates

  datatype Cell = Mine(coordinate: Coordinate) | Empty(coordinate: Coordinate) {
    /** Only empty cells are safe to open. */
    predicate IsSafe() {
      Empty?
    }
  }
}
