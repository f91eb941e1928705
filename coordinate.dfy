/**
 * Board positions and board extents, as the board uses them: a coordinate
 * produces its eight surrounding coordinates (without filtering for the
 * board) and can be tested against a width and a height.
 */
module Coordinates {

  /** A validated board extent (`Height` or `Width`): a positive 32-bit `Int`. */
  type Dimension = n: int | 0 < n < 0x8000_0000 witness 1

  datatype Coordinate = Coordinate(x: int, y: int) {

    /** `0 <= x < width` and `0 <= y < height`. */
    predicate IsWithinBounds(width: int, height: int) {
      0 <= x < width && 0 <= y < height
    }

    /**
     * The eight coordinates offset by every combination of {-1, 0, 1}
     * on both axes except (0, 0), in a fixed order.
     */
    function AdjacentCoordinates(): (r: seq<Coordinate>)
      ensures |r| == 8
      ensures forall i, j :: 0 <= i < j < |r| ==> r[i] != r[j]
      ensures forall q :: q in r <==> IsAdjacent(this, q)
    {
      [Coordinate(x - 1, y - 1), Coordinate(x - 1, y), Coordinate(x - 1, y + 1),
       Coordinate(x, y - 1), Coordinate(x, y + 1),
       Coordinate(x + 1, y - 1), Coordinate(x + 1, y), Coordinate(x + 1, y + 1)]
    }
  }

  /** `q` touches `p` horizontally, vertically or diagonally, and is not `p`. */
  ghost predicate IsAdjacent(p: Coordinate, q: Coordinate) {
    p != q && -1 <= q.x - p.x <= 1 && -1 <= q.y - p.y <= 1
  }

  /** The coordinates (0, y) .. (width - 1, y). */
  ghost function Row(width: nat, y: int): (row: set<Coordinate>)
    ensures forall c :: c in row <==> c.y == y && 0 <= c.x < width
    ensures |row| == width
  {
    if width == 0 then {} else
      var rest := Row(width - 1, y);
      assert Coordinate(width - 1, y) !in rest;
      rest + {Coordinate(width - 1, y)}
  }

  /** Every coordinate within a width x height board. */
  ghost function Bounds(width: nat, height: nat): (b: set<Coordinate>)
    ensures forall c :: c in b <==> c.IsWithinBounds(width, height)
    ensures |b| == width * height
  {
    if height == 0 then {} else
      var rest := Bounds(width, height - 1);
      var row := Row(width, height - 1);
      assert rest !! row;
      rest + row
  }

  /** A set of in-bounds coordinates has width * height elements exactly when it is all of them. */
  lemma {:induction false} FillsBounds(width: nat, height: nat, keys: set<Coordinate>)
    requires forall k :: k in keys ==> k.IsWithinBounds(width, height)
    ensures |keys| == width * height <==> keys == Bounds(width, height)
  {
    var all := Bounds(width, height);
    assert keys <= all;
    var rest := all - keys;
    assert all == keys + rest && keys !! rest;
    assert |all| == |keys| + |rest|;
    if |keys| == width * height {
      assert rest == {};
    }
  }
}
