/**
 * The board aggregate: its extents, the cell at every coordinate, and the
 * revealed flags the player's moves turn on.  It counts the mines around a
 * coordinate, reveals cells with a recursive flood fill over zero-count
 * empty cells, and classifies the outcome of a move.
 */
module MineFields {
  import opened Wrappers
  import opened Coordinates
  import opened CellKinds
  import opened Reachability

  datatype Action = GameOver | GameCleared | Continue

  /** Message of the construction failure when the cell count is not height * width. */
  const SizeMismatchMessage: string := "Cells의 개수가 보드 크기와 일치하지 않습니다."

  // ----- the size check as the source writes it ------------------------------

  /** `n` as a 32-bit two's-complement `Int`, the way Kotlin's `Int` arithmetic wraps. */
  function WrapInt32(n: int): (r: int)
    ensures -0x8000_0000 <= r < 0x8000_0000
    ensures -0x8000_0000 <= n < 0x8000_0000 ==> r == n
    ensures (r - n) % 0x1_0000_0000 == 0
  {
    var m := n % 0x1_0000_0000;
    if m < 0x8000_0000 then m else m - 0x1_0000_0000
  }

  /**
   * The construction check as written: the cell count is compared with
   * height * width computed in 32-bit `Int` arithmetic.
   */
  predicate SizeCheckAsWritten(height: Dimension, width: Dimension, count: nat)
    ensures SizeCheckAsWritten(height, width, count) <==>
      count < 0x8000_0000 && (count - height * width) % 0x1_0000_0000 == 0
  {
    count == WrapInt32(height * width)
  }

  /** Whenever height * width fits in an `Int`, the check as written is the intended one. */
  lemma SizeCheckAsWrittenWithoutOverflow(height: Dimension, width: Dimension, count: nat)
    requires height * width < 0x8000_0000
    ensures SizeCheckAsWritten(height, width, count) <==> count == height * width
  {
  }

  /**
   * The product 65536 * 65536 = 2^32 wraps to 0, so the check as written
   * accepts a 65536 x 65536 board with no cells at all.
   */
  lemma WrappedSizeCheckAcceptsEmptyBoard()
    ensures SizeCheckAsWritten(65536, 65536, 0)
    ensures 0 != 65536 * 65536
  {
    assert 65536 * 65536 == 0x1_0000_0000;
    assert WrapInt32(0x1_0000_0000) == 0;
  }

  class MineField {
    const height: Dimension
    const width: Dimension
    /** The cell at each coordinate; kinds and coordinates never change. */
    const cells: map<Coordinate, Cell>
    /** The coordinates whose cell's revealed flag is set. */
    var revealed: set<Coordinate>

    /** One cell per in-bounds coordinate, each sitting at its own key. */
    ghost predicate WellFormed() {
      (forall k :: k in cells <==> k.IsWithinBounds(width, height)) &&
      (forall k :: k in cells ==> cells[k].coordinate == k)
    }

    ghost predicate Valid()
      reads this
    {
      WellFormed() && revealed <= cells.Keys
    }

    constructor (height: Dimension, width: Dimension, cells: map<Coordinate, Cell>)
      requires forall k :: k in cells <==> k.IsWithinBounds(width, height)
      requires forall k :: k in cells ==> cells[k].coordinate == k
      ensures Valid()
      ensures this.height == height && this.width == width && this.cells == cells
      ensures revealed == {}
    {
      this.height := height;
      this.width := width;
      this.cells := cells;
      revealed := {};
    }

    /**
     * Builds a board after checking that there are exactly height * width
     * cells.  The cells handed in already sit at their own, in-bounds keys;
     * under that, the count check is what guarantees that every in-bounds
     * coordinate has a cell (see SizeCheckMeansFullCoverage).  The count is
     * compared with the exact product; it agrees with the 32-bit check as
     * written whenever that product fits in an `Int`.
     */
    static method Create(height: Dimension, width: Dimension, cells: map<Coordinate, Cell>)
      returns (r: Result<MineField, string>)
      requires forall k :: k in cells ==> k.IsWithinBounds(width, height) && cells[k].coordinate == k
      ensures r.Failure? <==> |cells| != height * width
      ensures r.Failure? ==> r.error == SizeMismatchMessage
      ensures r.Success? ==> fresh(r.value) && r.value.Valid() && r.value.revealed == {}
      ensures r.Success? ==> r.value.height == height && r.value.width == width && r.value.cells == cells
      ensures height * width < 0x8000_0000 ==> (r.Success? <==> SizeCheckAsWritten(height, width, |cells|))
    {
      if height * width < 0x8000_0000 {
        SizeCheckAsWrittenWithoutOverflow(height, width, |cells|);
      }
      if |cells| != height * width {
        return Failure(SizeMismatchMessage);
      }
      SizeCheckMeansFullCoverage(height, width, cells);
      var field := new MineField(height, width, cells);
      return Success(field);
    }

    /** The list of all cells, order aside: one per in-bounds coordinate. */
    function AllCells(): (list: set<Cell>)
      requires WellFormed()
      ensures |list| == height * width
      ensures forall k :: k in cells ==> cells[k] in list
      ensures forall cell :: cell in list ==> cell.coordinate in cells && cells[cell.coordinate] == cell
    {
      assert cells.Keys == Bounds(width, height);
      CellsAreDistinct(cells.Keys);
      assert (set k | k in cells.Keys :: cells[k]) == cells.Values;
      cells.Values
    }

    function FindCell(c: Coordinate): (cell: Cell)
      requires WellFormed() && c.IsWithinBounds(width, height)
      ensures cell.coordinate == c && cell in cells.Values
    {
      cells[c]
    }

    /** The in-bounds coordinates that touch `c`. */
    ghost function Neighbourhood(c: Coordinate): (n: set<Coordinate>)
      ensures n <= cells.Keys
    {
      set q | q in cells && IsAdjacent(c, q)
    }

    /** The mines among the in-bounds coordinates that touch `c`. */
    ghost function MinesAround(c: Coordinate): set<Coordinate>
    {
      set q | q in Neighbourhood(c) && cells[q].Mine?
    }

    /** Counts the in-bounds coordinates of `s` whose cell is a mine. */
    function CountMinesIn(s: seq<Coordinate>): (n: nat)
      requires WellFormed()
      ensures n <= |s|
    {
      if s == [] then 0
      else
        (if s[0].IsWithinBounds(width, height) && cells[s[0]].Mine? then 1 else 0)
        + CountMinesIn(s[1..])
    }

    /** The in-bounds coordinates of `s` whose cell is a mine. */
    ghost function MinesIn(s: seq<Coordinate>): set<Coordinate>
      requires WellFormed()
    {
      set q | q in s && q.IsWithinBounds(width, height) && cells[q].Mine?
    }

    /** Counting a duplicate-free list of coordinates counts the set of its mines. */
    lemma {:induction false} CountMinesInIsCardinality(s: seq<Coordinate>)
      requires WellFormed()
      requires forall i, j :: 0 <= i < j < |s| ==> s[i] != s[j]
      ensures CountMinesIn(s) == |MinesIn(s)|
    {
      if s != [] {
        var tail := s[1..];
        assert forall i, j :: 0 <= i < j < |tail| ==> tail[i] != tail[j] by {
          forall i, j | 0 <= i < j < |tail| ensures tail[i] != tail[j] {
            assert tail[i] == s[i + 1] && tail[j] == s[j + 1];
          }
        }
        CountMinesInIsCardinality(tail);
        assert s[0] !in tail by {
          forall j | 0 <= j < |tail| ensures tail[j] != s[0] {
            assert tail[j] == s[j + 1];
          }
        }
        if s[0].IsWithinBounds(width, height) && cells[s[0]].Mine? {
          assert MinesIn(s) == MinesIn(tail) + {s[0]};
        } else {
          assert MinesIn(s) == MinesIn(tail);
        }
      }
    }

    /**
     * Number of mines among the in-bounds neighbours of `c`; `c` itself is
     * not counted.
     */
    function CountAroundMines(c: Coordinate): (n: nat)
      requires WellFormed()
      ensures n <= 8
      ensures n == |MinesAround(c)|
    {
      var adjacent := c.AdjacentCoordinates();
      CountMinesInIsCardinality(adjacent);
      assert MinesIn(adjacent) == MinesAround(c);
      CountMinesIn(adjacent)
    }

    /** An empty cell with no mine around it spreads the reveal to its neighbours. */
    predicate ShouldOpenAdjacentCells(cell: Cell)
      requires WellFormed()
      ensures ShouldOpenAdjacentCells(cell) <==> cell.Empty? && MinesAround(cell.coordinate) == {}
    {
      cell.Empty? && CountAroundMines(cell.coordinate) == 0
    }

    /** A cell spreads the reveal exactly when it is empty and no neighbour is a mine. */
    lemma ShouldOpenMeansNoMineAround(cell: Cell)
      requires WellFormed()
      ensures ShouldOpenAdjacentCells(cell) <==>
        cell.Empty? && forall q :: q in Neighbourhood(cell.coordinate) ==> cells[q].Empty?
    {
      var around := MinesAround(cell.coordinate);
      if forall q :: q in Neighbourhood(cell.coordinate) ==> cells[q].Empty? {
        assert around == {};
      } else {
        var q :| q in Neighbourhood(cell.coordinate) && !cells[q].Empty?;
        assert q in around;
      }
    }

    /** A cell with a mine next to it never spreads the reveal. */
    lemma NextToMineStopsSpread(c: Coordinate, m: Coordinate)
      requires WellFormed() && c in cells && m in cells && cells[m].Mine? && IsAdjacent(c, m)
      ensures !ShouldOpenAdjacentCells(cells[c])
    {
      assert m in MinesAround(c);
    }

    predicate IsRevealed(c: Coordinate)
      reads this
    {
      c in revealed
    }

    // ----- the flood fill's specification -------------------------------

    /**
     * Where a reveal spreads from each cell: to all its in-bounds neighbours
     * when it is an empty cell with no mine around it, nowhere otherwise.
     */
    ghost function SpreadMap(): (m: map<Coordinate, set<Coordinate>>)
      requires WellFormed()
      ensures m.Keys == cells.Keys
      ensures SpreadsLikeBoard(m)
    {
      map p | p in cells :: if ShouldOpenAdjacentCells(cells[p]) then Neighbourhood(p) else {}
    }

    /**
     * `succ` sends each zero-count empty cell to its in-bounds neighbours and
     * every other cell nowhere.
     */
    ghost predicate SpreadsLikeBoard(succ: map<Coordinate, set<Coordinate>>)
      requires WellFormed()
    {
      forall p {:trigger ShouldOpenAdjacentCells(cells[p])} :: p in cells ==>
        p in succ && succ[p] == if ShouldOpenAdjacentCells(cells[p]) then Neighbourhood(p) else {}
    }

    lemma SpreadMapIsGraph()
      requires WellFormed()
      ensures IsGraph(SpreadMap())
    {
      var m := SpreadMap();
      forall p | p in m ensures m[p] <= m.Keys {
        if ShouldOpenAdjacentCells(cells[p]) {
          assert m[p] == Neighbourhood(p);
        }
      }
    }

    /**
     * The cells a reveal at `c` opens when the cells of `base` are already
     * revealed: `c` and everything the reveal spreads to from it.
     */
    ghost function FloodRegion(base: set<Coordinate>, c: Coordinate): (r: set<Coordinate>)
      requires WellFormed() && c in cells
      ensures c in r && r <= cells.Keys
    {
      SpreadMapIsGraph();
      Closure(SpreadMap(), base, {c})
    }

    // ----- properties of the flood region --------------------------------

    /**
     * A reveal with the cells of `base` already revealed spreads no further
     * than `t`: every in-bounds neighbour of a zero-count empty cell of `t`
     * is in `t` or in `base`.
     */
    ghost predicate SpreadsNoFurther(base: set<Coordinate>, t: set<Coordinate>)
      requires WellFormed()
    {
      forall p, q :: p in t && p in cells && ShouldOpenAdjacentCells(cells[p]) && q in Neighbourhood(p) && q !in base
        ==> q in t
    }

    /**
     * The flood region spreads no further, holds nothing revealed before
     * except possibly `c`, and is the least such region containing `c`: its
     * contents do not depend on the order in which neighbours are visited.
     */
    lemma FloodRegionIsLeastClosed(base: set<Coordinate>, c: Coordinate, t: set<Coordinate>)
      requires WellFormed() && c in cells
      ensures SpreadsNoFurther(base, FloodRegion(base, c))
      ensures FloodRegion(base, c) - {c} !! base
      ensures c in t && SpreadsNoFurther(base, t) ==> FloodRegion(base, c) <= t
    {
      var succ := SpreadMap();
      ClosureIsClosed(succ, base, {c});
      if c in t && SpreadsNoFurther(base, t) {
        forall p, q | p in t && p in succ && q in succ[p] && q !in base ensures q in t {
          assert ShouldOpenAdjacentCells(cells[p]);
        }
        ClosureIsLeast(succ, base, {c}, t);
      }
    }

    /**
     * From an empty cell with no mine next to it, whose unrevealed neighbours
     * each have a mine next to them, the reveal opens exactly that cell and
     * those neighbours.
     */
    lemma FloodRegionOfOneStep(base: set<Coordinate>, c: Coordinate, t: set<Coordinate>)
      requires WellFormed() && c in cells && cells[c].Empty?
      requires forall q :: q in Neighbourhood(c) ==> cells[q].Empty?
      requires forall q {:trigger q in Neighbourhood(c)} :: q in Neighbourhood(c) && q !in base ==> MinesAround(q) != {}
      requires t == {c} + (Neighbourhood(c) - base)
      ensures FloodRegion(base, c) == t
    {
      assert cells[c].coordinate == c;
      ShouldOpenMeansNoMineAround(cells[c]);
      forall p | p in Neighbourhood(c) && p !in base ensures !ShouldOpenAdjacentCells(cells[p]) {
        assert cells[p].coordinate == p;
      }
      FloodRegionIsLeastClosed(base, c, t);
    }

    /** Every cell of the flood region other than `c` neighbours a zero-count empty cell of it. */
    lemma FloodRegionIsSupported(base: set<Coordinate>, c: Coordinate)
      requires WellFormed() && c in cells
      ensures forall q :: q in FloodRegion(base, c) && q != c ==>
        exists p :: p in FloodRegion(base, c) && ShouldOpenAdjacentCells(cells[p]) && q in Neighbourhood(p)
    {
      var succ := SpreadMap();
      ClosureIsSupported(succ, base, {c}, {c});
      forall q | q in FloodRegion(base, c) && q != c
        ensures exists p :: p in FloodRegion(base, c) && ShouldOpenAdjacentCells(cells[p]) && q in Neighbourhood(p)
      {
        var p :| p in FloodRegion(base, c) && p in succ && q in succ[p];
        assert ShouldOpenAdjacentCells(cells[p]) && q in Neighbourhood(p);
      }
    }

    /** The flood fill never reaches a mine: only `c` itself may be one. */
    lemma FloodRegionIsSafe(base: set<Coordinate>, c: Coordinate)
      requires WellFormed() && c in cells
      ensures forall q :: q in FloodRegion(base, c) && q != c ==> cells[q].Empty?
    {
      FloodRegionIsSupported(base, c);
      forall q | q in FloodRegion(base, c) && q != c ensures cells[q].Empty? {
        var p :| p in FloodRegion(base, c) && ShouldOpenAdjacentCells(cells[p]) && q in Neighbourhood(p);
        assert cells[p].coordinate == p;
        ShouldOpenMeansNoMineAround(cells[p]);
      }
    }

    /** A mine, or an empty cell with a mine next to it, opens only itself. */
    lemma FloodRegionOfNonZeroCell(base: set<Coordinate>, c: Coordinate)
      requires WellFormed() && c in cells && !ShouldOpenAdjacentCells(cells[c])
      ensures FloodRegion(base, c) == {c}
    {
      ClosureOfSink(SpreadMap(), base, c);
    }

    /**
     * A reveal at `c` that stays inside the flood region, and after which
     * every newly revealed cell has had its spread revealed too, has revealed
     * the whole flood region.
     */
    lemma SpreadRevealsFloodRegion(base: set<Coordinate>, c: Coordinate, now: set<Coordinate>,
                                   succ: map<Coordinate, set<Coordinate>>)
      requires WellFormed() && c in cells && c !in base && succ == SpreadMap()
      requires base <= now <= base + FloodRegion(base, c) && c in now
      requires forall q {:trigger succ[q]} :: q in now - base && q in succ ==> succ[q] <= now
      ensures now == base + FloodRegion(base, c)
    {
      SpreadMapIsGraph();
      var shown := now - base;
      forall p, q | p in shown && p in succ && q in succ[p] && q !in base ensures q in shown {
        assert succ[p] <= now;
      }
      ClosureIsLeast(succ, base, {c}, shown);
    }

    // ----- the reveal algorithm -----------------------------------------

    /** The snapshot of the in-bounds coordinates of `s` not revealed yet. */
    function UnrevealedWithinBounds(s: seq<Coordinate>): (r: seq<Coordinate>)
      reads this
      ensures forall q :: q in r <==> q in s && q.IsWithinBounds(width, height) && q !in revealed
    {
      if s == [] then []
      else
        (if s[0].IsWithinBounds(width, height) && !IsRevealed(s[0]) then [s[0]] else [])
        + UnrevealedWithinBounds(s[1..])
    }

    /**
     * Reveals the cell at `c` unless it is already revealed; from an empty
     * cell with no mine around it, keeps revealing neighbours.
     */
    method Open(c: Coordinate)
      requires Valid() && c.IsWithinBounds(width, height)
      modifies this
      ensures Valid()
      ensures c in old(revealed) ==> revealed == old(revealed)
      ensures c !in old(revealed) ==> revealed == old(revealed) + FloodRegion(old(revealed), c)
      ensures c in revealed && old(revealed) <= revealed
      ensures forall q :: q in revealed - old(revealed) && q != c ==> cells[q].Empty?
    {
      var cell := FindCell(c);
      if IsRevealed(cell.coordinate) {
        return;
      }
      ghost var base := revealed;
      ghost var succ := SpreadMap();
      SpreadMapIsGraph();
      ghost var region := FloodRegion(base, c);
      ClosureIsClosed(succ, base, {c});
      FloodRegionIsSafe(base, c);

      revealed := revealed + {c};
      if ShouldOpenAdjacentCells(cell) {
        OpenAdjacentEmptyCells(c, succ, base, region);
        SpreadRevealsFloodRegion(base, c, revealed, succ);
      } else {
        FloodRegionOfNonZeroCell(base, c);
      }
    }

    /**
     * Reveals every in-bounds neighbour of `c` that is not revealed at the
     * start of the call, recursing from each one that is an empty cell with no
     * mine around it.  `succ` (the spread map), `base` (revealed before the
     * move) and `region` (the flood region of the move) are proof-only.
     */
    method OpenAdjacentEmptyCells(c: Coordinate, ghost succ: map<Coordinate, set<Coordinate>>,
                                  ghost base: set<Coordinate>, ghost region: set<Coordinate>)
      requires Valid() && succ.Keys == cells.Keys && SpreadsLikeBoard(succ)
      requires c in region && c in revealed && ShouldOpenAdjacentCells(cells[c])
      requires base <= revealed <= base + region && Closed(succ, base, region)
      modifies this
      decreases cells.Keys - revealed, 1
      ensures Valid()
      ensures old(revealed) <= revealed <= base + region
      ensures succ[c] <= revealed
      ensures forall q {:trigger succ[q]} :: q in revealed - old(revealed) ==> succ[q] <= revealed
      ensures succ[c] <= old(revealed) ==> revealed == old(revealed)
    {
      ghost var entry := revealed;
      var targets := UnrevealedWithinBounds(c.AdjacentCoordinates());
      assert forall j :: 0 <= j < |targets| ==> targets[j] in succ[c] && targets[j] !in revealed;
      assert |targets| > 0 ==> targets[0] in succ[c] && targets[0] !in revealed;
      var i := 0;
      while i < |targets|
        invariant 0 <= i <= |targets|
        invariant revealed <= cells.Keys
        invariant entry <= revealed <= base + region
        invariant forall j :: 0 <= j < i ==> targets[j] in revealed
        invariant forall q {:trigger succ[q]} :: q in revealed - entry ==> succ[q] <= revealed
        invariant i == 0 ==> revealed == entry
      {
        ghost var before := revealed;
        assert targets[i] in region;
        OpenNeighbour(targets[i], succ, base, region, entry);
        forall j | 0 <= j <= i ensures targets[j] in revealed {
          if j < i {
            assert targets[j] in before;
          }
        }
        forall q {:trigger succ[q]} | q in revealed - entry ensures succ[q] <= revealed {
          if q in before - entry {
            assert succ[q] <= before;
          }
        }
        i := i + 1;
      }
      assert forall q :: q in succ[c] && q !in entry ==> q in targets;
    }

    /**
     * What the loop above does for one neighbour `target`: reveal it and,
     * when it has no mine around it, spread from it too.  `outer` is what was
     * revealed when the enclosing call began; a neighbour an earlier sibling
     * already revealed has already spread, so revealing it again changes
     * nothing.
     */
    method OpenNeighbour(target: Coordinate, ghost succ: map<Coordinate, set<Coordinate>>,
                         ghost base: set<Coordinate>, ghost region: set<Coordinate>, ghost outer: set<Coordinate>)
      requires Valid() && succ.Keys == cells.Keys && SpreadsLikeBoard(succ)
      requires target.IsWithinBounds(width, height) && target in region && target !in outer
      requires base <= outer <= revealed <= base + region && Closed(succ, base, region)
      requires forall q {:trigger succ[q]} :: q in revealed - outer ==> succ[q] <= revealed
      modifies this
      decreases cells.Keys - outer, 0
      ensures Valid()
      ensures old(revealed) + {target} <= revealed <= base + region
      ensures forall q {:trigger succ[q]} :: q in revealed - old(revealed) ==> succ[q] <= revealed
      ensures target in old(revealed) ==> revealed == old(revealed)
    {
      var cell := FindCell(target);
      revealed := revealed + {cell.coordinate};
      if ShouldOpenAdjacentCells(cell) {
        assert cells[target] == cell;
        ShrinksUnexplored(cells.Keys, outer, revealed);
        assert target in old(revealed) ==> succ[target] <= old(revealed);
        OpenAdjacentEmptyCells(target, succ, base, region);
      } else {
        assert succ[target] == {};
      }
    }

    // ----- the outcome of a move ----------------------------------------

    /** Every safe cell is revealed. */
    predicate IsAllSafeCellsRevealed()
      reads this
      requires Valid()
      ensures IsAllSafeCellsRevealed() <==> forall k :: k in cells && cells[k].Empty? ==> k in revealed
    {
      forall cell | cell in cells.Values && cell.IsSafe() :: IsRevealed(cell.coordinate)
    }

    /** The outcome of the move that opened `c`. */
    function DetermineAction(c: Coordinate): (action: Action)
      reads this
      requires Valid() && c.IsWithinBounds(width, height)
      ensures action == GameOver <==> cells[c].Mine?
      ensures action == GameCleared <==>
        cells[c].Empty? && forall k :: k in cells && k !in revealed ==> cells[k].Mine?
      ensures action == Continue <==>
        cells[c].Empty? && exists k :: k in cells && k !in revealed && cells[k].Empty?
    {
      var cell := FindCell(c);
      if cell.Mine? then GameOver
      else if IsAllSafeCellsRevealed() then GameCleared
      else Continue
    }

    // ----- construction ---------------------------------------------------

    /**
     * For cells that sit at their own in-bounds keys, having height * width
     * of them is the same as having one at every in-bounds coordinate.
     */
    static lemma SizeCheckMeansFullCoverage(height: Dimension, width: Dimension, cells: map<Coordinate, Cell>)
      requires forall k :: k in cells ==> k.IsWithinBounds(width, height)
      ensures |cells| == height * width <==> forall k :: k in cells <==> k.IsWithinBounds(width, height)
    {
      FillsBounds(width, height, cells.Keys);
      assert |cells| == |cells.Keys|;
      assert height * width == width * height;
    }

    /** Distinct keys hold distinct cells, so there are as many cells as keys. */
    lemma {:induction false} CellsAreDistinct(keys: set<Coordinate>)
      requires WellFormed() && keys <= cells.Keys
      ensures |set k | k in keys :: cells[k]| == |keys|
    {
      if keys != {} {
        var k :| k in keys;
        var rest := keys - {k};
        CellsAreDistinct(rest);
        var image := set j | j in rest :: cells[j];
        assert cells[k] !in image;
        assert (set j | j in keys :: cells[j]) == image + {cells[k]};
      }
    }
  }
}
