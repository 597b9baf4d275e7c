/** The game state machine: a board, the list of winning lines, the player
    to move and the number of moves made. A move writes the mover's mark,
    then scans the lines in order for one held entirely by Maker. */
module Games {
  import opened Wrappers
  import opened Cells
  import opened Boards
  import opened Edges
  import EdgeProperties

  /** What make_move reports. */
  datatype MoveResult = MoveResult(makerWins: bool, winningEdge: Option<Edge>)

  /** The mark a player writes. */
  function Mark(p: Player): (s: CellState)
    ensures s != Empty
    ensures s == CellState.Maker <==> p == Player.Maker
  {
    if p == Player.Maker then CellState.Maker else CellState.Breaker
  }

  /** The player to move next. */
  function Other(p: Player): (q: Player)
    ensures q != p
  {
    if p == Player.Maker then Player.Breaker else Player.Maker
  }

  // ---------------------------------------------------------------------
  // Scanning for a complete line
  // ---------------------------------------------------------------------

  /** Every cell of the line is on the board and Maker-occupied. */
  predicate Complete(g: Grid, e: Edge)
    requires g.Wf()
  {
    forall i :: 0 <= i < |e| ==> g.Get(e[i]) == Success(CellState.Maker)
  }

  /** Every cell of every line is on the board, so Board::get never fails. */
  predicate EdgesFit(g: Grid, es: seq<Edge>) {
    forall e, c :: e in es && c in e ==> g.IsValid(c)
  }

  /** Game::is_edge_complete: reads the cells in order and stops at the
      first one that is not Maker; Board::get fails on a cell off the board
      reached before that. */
  function IsEdgeComplete(g: Grid, e: Edge): (r: Result<bool, Error>)
    requires g.Wf()
    ensures r.Failure? ==> r.error == OutOfRange
    decreases |e|
  {
    if |e| == 0 then Success(true)
    else match g.Get(e[0])
      case Failure(err) => Failure(err)
      case Success(s) =>
        if s != CellState.Maker then Success(false)
        else IsEdgeComplete(g, e[1..])
  }

  /** is_edge_complete answers true exactly for a complete line, fails only
      when a cell of the line is off the board, and never fails on a line
      that lies on the board. */
  lemma {:induction false} IsEdgeCompleteMeaning(g: Grid, e: Edge)
    requires g.Wf()
    ensures IsEdgeComplete(g, e).Success? && IsEdgeComplete(g, e).value <==> Complete(g, e)
    ensures IsEdgeComplete(g, e).Failure? ==> exists i :: 0 <= i < |e| && !g.IsValid(e[i])
    ensures (forall c :: c in e ==> g.IsValid(c)) ==> IsEdgeComplete(g, e).Success?
    decreases |e|
  {
    if |e| > 0 && g.Get(e[0]) == Success(CellState.Maker) {
      IsEdgeCompleteMeaning(g, e[1..]);
      assert forall i :: 1 <= i < |e| ==> e[i] == e[1..][i - 1];
    }
  }

  /** e is the first line of es that is complete. */
  predicate FirstComplete(g: Grid, es: seq<Edge>, e: Edge)
    requires g.Wf()
  {
    exists i :: 0 <= i < |es| && es[i] == e && Complete(g, e)
      && forall k :: 0 <= k < i ==> !Complete(g, es[k])
  }

  /** Game::check_maker_win: true at the first complete line. */
  function CheckMakerWin(g: Grid, es: seq<Edge>): (r: Result<bool, Error>)
    requires g.Wf()
    ensures r == Success(true) ==> exists e :: e in es && Complete(g, e)
    ensures r == Success(false) ==> forall e :: e in es ==> !Complete(g, e)
    ensures r.Failure? ==> r.error == OutOfRange
    ensures EdgesFit(g, es) ==> r.Success?
    decreases |es|
  {
    if |es| == 0 then Success(false)
    else
      IsEdgeCompleteMeaning(g, es[0]);
      match IsEdgeComplete(g, es[0])
      case Failure(err) => Failure(err)
      case Success(done) =>
        if done then Success(true)
        else
          var rest := CheckMakerWin(g, es[1..]);
          assert es == [es[0]] + es[1..];
          rest
  }

  /** Game::find_winning_edge: the first complete line, if any. */
  function FindWinningEdge(g: Grid, es: seq<Edge>): (r: Result<Option<Edge>, Error>)
    requires g.Wf()
    ensures r.Success? && r.value.Some? ==> FirstComplete(g, es, r.value.value)
    ensures r == Success(None) ==> forall e :: e in es ==> !Complete(g, e)
    ensures r.Failure? ==> r.error == OutOfRange
    ensures EdgesFit(g, es) ==> r.Success?
    decreases |es|
  {
    if |es| == 0 then Success(None)
    else
      IsEdgeCompleteMeaning(g, es[0]);
      match IsEdgeComplete(g, es[0])
      case Failure(err) => Failure(err)
      case Success(done) =>
        if done then Success(Some(es[0]))
        else
          var rest := FindWinningEdge(g, es[1..]);
          assert es == [es[0]] + es[1..];
          FirstCompleteAfter(g, es);
          rest
  }

  /** Behind a first line that is not complete, the first complete line of
      the rest is the first complete line of the whole list. */
  lemma FirstCompleteAfter(g: Grid, es: seq<Edge>)
    requires g.Wf() && |es| > 0 && !Complete(g, es[0])
    ensures forall e :: FirstComplete(g, es[1..], e) ==> FirstComplete(g, es, e)
  {
    forall e | FirstComplete(g, es[1..], e)
      ensures FirstComplete(g, es, e)
    {
      var i :| 0 <= i < |es[1..]| && es[1..][i] == e && Complete(g, e)
        && forall k :: 0 <= k < i ==> !Complete(g, es[1..][k]);
      assert es[i + 1] == e;
      forall k | 0 <= k < i + 1
        ensures !Complete(g, es[k])
      {
        if k > 0 {
          assert es[k] == es[1..][k - 1];
        }
      }
    }
  }

  /** check_maker_win holds exactly when find_winning_edge returns a line,
      and the two fail on the same boards. */
  lemma {:induction false} WinAgreement(g: Grid, es: seq<Edge>)
    requires g.Wf()
    ensures CheckMakerWin(g, es).Failure? <==> FindWinningEdge(g, es).Failure?
    ensures CheckMakerWin(g, es) == Success(true) <==>
      FindWinningEdge(g, es).Success? && FindWinningEdge(g, es).value.Some?
    decreases |es|
  {
    if |es| > 0 && IsEdgeComplete(g, es[0]) == Success(false) {
      WinAgreement(g, es[1..]);
    }
  }

  /** The first complete line of a list is unique. */
  lemma FirstCompleteUnique(g: Grid, es: seq<Edge>, a: Edge, b: Edge)
    requires g.Wf() && FirstComplete(g, es, a) && FirstComplete(g, es, b)
    ensures a == b
  {
    var i :| 0 <= i < |es| && es[i] == a && Complete(g, a) && forall k :: 0 <= k < i ==> !Complete(g, es[k]);
    var j :| 0 <= j < |es| && es[j] == b && Complete(g, b) && forall k :: 0 <= k < j ==> !Complete(g, es[k]);
    assert !(i < j) && !(j < i);
  }

  /** The lines generated for the board's own width all fit on it. */
  lemma GeneratedEdgesFit(g: Grid, es: seq<Edge>)
    requires g.Wf() && IsEdgeList(g.cols, es)
    ensures EdgesFit(g, es)
  {
    forall e, c | e in es && c in e
      ensures g.IsValid(c)
    {
      var i :| 0 <= i < |e| && e[i] == c;
      EdgeProperties.EdgeCellsInBounds(g.cols, e, i);
    }
  }

  // ---------------------------------------------------------------------
  // The game object
  // ---------------------------------------------------------------------

  class Game {
    const board: Board
    const edges: seq<Edge>
    var currentPlayer: Player
    var moveCount: int

    ghost predicate Valid()
      reads this, board
    {
      board.Valid()
    }

    /** Game::Game with a positive width. */
    constructor (numCols: int, edges: seq<Edge>)
      requires numCols > 0
      ensures Valid() && fresh(board) && fresh(board.cells)
      ensures board.Value() == Blank(numCols) && this.edges == edges
      ensures currentPlayer == Player.Maker && moveCount == 0
    {
      board := new Board(numCols);
      this.edges := edges;
      currentPlayer := Player.Maker;
      moveCount := 0;
    }

    /** Game::Game: the board constructor refuses a width that is not positive. */
    static method New(numCols: int, edges: seq<Edge>) returns (r: Result<Game, Error>)
      ensures r.Failure? <==> numCols <= 0
      ensures r.Failure? ==> r.error == InvalidSize
      ensures r.Success? ==> fresh(r.value) && fresh(r.value.board) && fresh(r.value.board.cells)
      ensures r.Success? ==> r.value.Valid() && r.value.board.Value() == Blank(numCols)
      ensures r.Success? ==> r.value.edges == edges
      ensures r.Success? ==> r.value.currentPlayer == Player.Maker && r.value.moveCount == 0
    {
      if numCols <= 0 {
        return Failure(InvalidSize);
      }
      var game := new Game(numCols, edges);
      r := Success(game);
    }

    /** Game::make_move. A cell off the board or already occupied is
        refused and nothing changes. Otherwise the mover's mark is written,
        the move counted and the lines scanned; the player to move then
        changes, after a winning move too. A line reaching off the board
        makes the scan fail after the write and the count. */
    method MakeMove(cell: Cell) returns (r: Result<MoveResult, Error>)
      requires Valid()
      modifies this, board.cells
      ensures Valid()
      ensures !old(board.Value()).IsValid(cell) ==> r == Failure(InvalidCell)
      ensures old(board.Value()).IsValid(cell) && !old(board.Value()).IsEmpty(cell) ==>
        r == Failure(CellOccupied)
      ensures r == Failure(InvalidCell) || r == Failure(CellOccupied) ==>
        board.Value() == old(board.Value()) && currentPlayer == old(currentPlayer)
        && moveCount == old(moveCount)
      ensures old(board.Value()).IsEmpty(cell) ==>
        board.Value() == old(board.Value()).With(cell, Mark(old(currentPlayer)))
        && moveCount == old(moveCount) + 1
        && (r.Success? || r == Failure(OutOfRange))
        && (EdgesFit(board.Value(), edges) ==> r.Success?)
        && (r.Failure? <==> CheckMakerWin(board.Value(), edges).Failure?)
      ensures r.Success? ==> r.value.makerWins == exists e :: e in edges && Complete(board.Value(), e)
      ensures r.Success? ==> (r.value.winningEdge.Some? <==> r.value.makerWins)
      ensures r.Success? && r.value.makerWins ==> FirstComplete(board.Value(), edges, r.value.winningEdge.value)
      ensures currentPlayer == if r.Success? then Other(old(currentPlayer)) else old(currentPlayer)
    {
      var g := board.Value();
      if !g.IsValid(cell) {
        return Failure(InvalidCell);
      }
      if !g.IsEmpty(cell) {
        return Failure(CellOccupied);
      }
      var written := board.Set(cell, Mark(currentPlayer));
      moveCount := moveCount + 1;
      var after := board.Value();
      var win := CheckMakerWin(after, edges);
      if win.Failure? {
        return Failure(win.error);
      }
      var winning: Option<Edge> := None;
      if win.value {
        WinAgreement(after, edges);
        winning := FindWinningEdge(after, edges).value;
      } else {
        WinAgreement(after, edges);
      }
      currentPlayer := Other(currentPlayer);
      r := Success(MoveResult(win.value, winning));
    }
  }

  // ---------------------------------------------------------------------
  // A first-row win
  // ---------------------------------------------------------------------

  /** The board whose Maker cells are exactly the four leftmost cells of
      the top row. */
  ghost predicate TopLeftOnly(g: Grid)
    requires g.Wf()
  {
    forall c :: g.IsValid(c) ==> (g.Get(c) == Success(CellState.Maker) <==> c.row == 0 && c.col < 4)
  }

  /** On such a board the flush top-left line is the only complete line of
      width n. */
  lemma OnlyTopLeftComplete(g: Grid, e: Edge)
    requires g.Wf() && TopLeftOnly(g) && IsEdgeOf(g.cols, e)
    ensures Complete(g, e) ==> e == HLine(0, 0, 4)
  {
    var n := g.cols;
    if e in CornerStubs(n) {
      EdgeProperties.CornerStubsLiteral(n);
      var k :| 0 <= k < 6 && CornerStubs(n)[k] == e;
      assert g.Get(e[0]) != Success(CellState.Maker) || g.Get(e[1]) != Success(CellState.Maker);
    } else if IsBoundaryLine(n, e) {
      assert e[3] == Cell(e[0].row, e[0].col + 3);
    } else if IsInteriorLine(n, e) {
      assert g.Get(e[6]) != Success(CellState.Maker);
    } else {
      assert g.Get(e[1]) != Success(CellState.Maker);
    }
  }

  /** With the four leftmost cells of the top row Maker's and no other
      Maker cell, on a board of width n >= 4 with the generated lines,
      Maker has won and the flush top-left line is the one reported. */
  lemma TopLeftWin(g: Grid, es: seq<Edge>)
    requires g.Wf() && g.cols >= 4 && IsEdgeList(g.cols, es) && TopLeftOnly(g)
    ensures CheckMakerWin(g, es) == Success(true)
    ensures FindWinningEdge(g, es) == Success(Some(HLine(0, 0, 4)))
  {
    var line := HLine(0, 0, 4);
    assert line[0] == Cell(0, 0);
    assert IsBoundaryLine(g.cols, line);
    assert Complete(g, line);
    GeneratedEdgesFit(g, es);
    WinAgreement(g, es);
    var found := FindWinningEdge(g, es);
    assert found.value.Some? by {
      assert CheckMakerWin(g, es) != Success(false);
    }
    var i :| 0 <= i < |es| && es[i] == found.value.value && Complete(g, es[i]);
    OnlyTopLeftComplete(g, es[i]);
  }
}
