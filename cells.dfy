/** Value types of the board header: cell coordinates, cell states, players,
    the fixed board height and the errors the core raises. */
module Cells {

  /** Number of rows of every board. */
  const Height: int := 4

  /** What a board cell holds. */
  datatype CellState = Empty | Maker | Breaker

  /** The two players; Maker moves first. */
  datatype Player = Maker | Breaker

  /** A coordinate pair (32-bit in the source, unbounded here). */
  datatype Cell = Cell(row: int, col: int)

  /** The exceptions of the core, one constructor per kind. */
  datatype Error =
    | InvalidSize   // Board constructor: width not positive
    | OutOfRange    // Board get/set: coordinates outside the board
    | InvalidCell   // Game make_move: coordinates outside the board
    | CellOccupied  // Game make_move: the cell is not empty

  /** The order on cells: row first, then column. */
  predicate CellLess(a: Cell, b: Cell): (r: bool)
    ensures r <==> a.row < b.row || (a.row == b.row && a.col < b.col)
    ensures r ==> a != b
  {
    if a.row != b.row then a.row < b.row else a.col < b.col
  }

  /** Cell equality is componentwise and CellLess is a strict total order
      consistent with it. */
  lemma CellOrder(a: Cell, b: Cell, c: Cell)
    ensures a == b <==> a.row == b.row && a.col == b.col
    ensures !CellLess(a, a)
    ensures CellLess(a, b) ==> !CellLess(b, a)
    ensures CellLess(a, b) && CellLess(b, c) ==> CellLess(a, c)
    ensures a == b || CellLess(a, b) || CellLess(b, a)
  {
  }

  /** Cells in strictly increasing order (hence each at most once). */
  predicate Increasing(s: seq<Cell>) {
    forall i, j :: 0 <= i < j < |s| ==> CellLess(s[i], s[j])
  }

  /** Cells in non-decreasing order: what a sort produces. */
  predicate NonDecreasing(s: seq<Cell>) {
    forall i, j :: 0 <= i < j < |s| ==> !CellLess(s[j], s[i])
  }
}
