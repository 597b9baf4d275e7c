/** The 4-row board: a dense row-major vector of cell states with
    bounds-checked access. */
module Boards {
  import opened Wrappers
  import opened Cells

  /** Position of a valid cell in the row-major cell vector. */
  function Index(cols: int, c: Cell): (i: int)
    requires 0 <= c.row < Height && 0 <= c.col < cols
    ensures 0 <= i < Height * cols
  {
    c.row * cols + c.col
  }

  /** Row-major indexing is a bijection onto the vector positions that
      preserves the order of cells. */
  lemma IndexRowMajor(cols: int, a: Cell, b: Cell)
    requires 0 <= a.row < Height && 0 <= a.col < cols
    requires 0 <= b.row < Height && 0 <= b.col < cols
    ensures CellLess(a, b) <==> Index(cols, a) < Index(cols, b)
    ensures a == b <==> Index(cols, a) == Index(cols, b)
  {
    if a.row < b.row {
      assert a.row * cols + cols <= b.row * cols by {
        assert (b.row - a.row) * cols >= cols;
      }
    } else if b.row < a.row {
      assert b.row * cols + cols <= a.row * cols by {
        assert (a.row - b.row) * cols >= cols;
      }
    }
  }

  /** The contents of a board: its width and its cell vector. */
  datatype Grid = Grid(cols: int, cells: seq<CellState>) {

    /** A constructed board: positive width, 4 * width cells. */
    predicate Wf() {
      cols > 0 && |cells| == Height * cols
    }

    /** Board::is_valid: a valid cell addresses the cell vector in bounds. */
    predicate IsValid(c: Cell): (b: bool)
      ensures b <==> 0 <= c.row < Height && 0 <= c.col < cols
      ensures b ==> 0 <= Index(cols, c) < Height * cols
    {
      0 <= c.row < Height && 0 <= c.col < cols
    }

    /** Board::get: the state of a cell, or OutOfRange. */
    function Get(c: Cell): (r: Result<CellState, Error>)
      requires Wf()
      ensures r.Success? <==> IsValid(c)
      ensures r.Failure? ==> r.error == OutOfRange
    {
      if IsValid(c) then Success(cells[Index(cols, c)]) else Failure(OutOfRange)
    }

    /** Board::is_empty: never fails, false outside the board. */
    function IsEmpty(c: Cell): (b: bool)
      requires Wf()
      ensures b <==> Get(c) == Success(Empty)
      ensures b ==> IsValid(c)
    {
      IsValid(c) && Get(c).value == Empty
    }

    /** The board after the write of a successful Board::set. */
    function With(c: Cell, s: CellState): (g: Grid)
      requires Wf() && IsValid(c)
      ensures g.Wf() && g.cols == cols
      ensures g.Get(c) == Success(s)
    {
      Grid(cols, cells[Index(cols, c) := s])
    }
  }

  /** A freshly constructed board of the given width. */
  function Blank(cols: int): (g: Grid)
    requires cols > 0
    ensures g.Wf() && g.cols == cols
    ensures forall c :: g.IsValid(c) ==> g.Get(c) == Success(Empty)
  {
    Grid(cols, seq(Height * cols, _ => Empty))
  }

  /** After a write, the written cell reads back the new state and every
      other cell reads as before. */
  lemma GetAfterWith(g: Grid, c: Cell, s: CellState, d: Cell)
    requires g.Wf() && g.IsValid(c)
    ensures g.With(c, s).Get(d) == if d == c then Success(s) else g.Get(d)
  {
    if g.IsValid(d) {
      IndexRowMajor(g.cols, c, d);
    }
  }

  /** The board object: its width and its cell vector, written in place. */
  class Board {
    const cols: int
    const cells: array<CellState>

    ghost predicate Valid()
      reads this
    {
      cols > 0 && cells.Length == Height * cols
    }

    /** The current contents. */
    function Value(): (g: Grid)
      reads this, cells
      requires Valid()
      ensures g.Wf() && g.cols == cols
    {
      Grid(cols, cells[..])
    }

    /** Board::rows. */
    function Rows(): (r: int)
      ensures r == Height
    {
      4
    }

    /** Board::cols. */
    function Cols(): (r: int)
      reads this
      ensures r == cols
    {
      cols
    }

    constructor (numCols: int)
      requires numCols > 0
      ensures Valid() && fresh(cells)
      ensures cols == numCols && Value() == Blank(numCols)
    {
      cols := numCols;
      cells := new CellState[Height * numCols](_ => Empty);
    }

    /** Board::Board(num_cols): a width that is not positive is refused. */
    static method New(numCols: int) returns (r: Result<Board, Error>)
      ensures r.Failure? <==> numCols <= 0
      ensures r.Failure? ==> r.error == InvalidSize
      ensures r.Success? ==> fresh(r.value) && fresh(r.value.cells) && r.value.Valid()
      ensures r.Success? ==> r.value.cols == numCols && r.value.Value() == Blank(numCols)
    {
      if numCols <= 0 {
        return Failure(InvalidSize);
      }
      var b := new Board(numCols);
      r := Success(b);
    }

    /** Board::set: writes one cell, or fails with OutOfRange and writes nothing. */
    method Set(c: Cell, s: CellState) returns (r: Outcome<Error>)
      requires Valid()
      modifies cells
      ensures r == if old(Value()).IsValid(c) then Pass else Fail(OutOfRange)
      ensures Value() == if r.Pass? then old(Value()).With(c, s) else old(Value())
    {
      if !(0 <= c.row < Height && 0 <= c.col < cols) {
        return Fail(OutOfRange);
      }
      cells[c.row * cols + c.col] := s;
      r := Pass;
    }

    /** Board::get_empty_cells: every empty cell once, in row-major order. */
    method GetEmptyCells() returns (empty: seq<Cell>)
      requires Valid()
      ensures Increasing(empty)
      ensures forall c :: c in empty <==> Value().IsEmpty(c)
    {
      empty := [];
      var r := 0;
      while r < Height
        invariant 0 <= r <= Height
        invariant Increasing(empty)
        invariant forall x :: x in empty <==> Value().IsEmpty(x) && x.row < r
      {
        var c := 0;
        while c < cols
          invariant 0 <= c <= cols
          invariant Increasing(empty)
          invariant forall x :: x in empty <==>
            Value().IsEmpty(x) && (x.row < r || (x.row == r && x.col < c))
        {
          if Value().IsEmpty(Cell(r, c)) {
            empty := empty + [Cell(r, c)];
          }
          c := c + 1;
        }
        r := r + 1;
      }
    }
  }
}
