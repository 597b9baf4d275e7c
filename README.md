# 7inarow core in Dafny

A model of the combinatorial engine behind a Maker–Breaker game played on a
board with 4 rows and n columns. It has four parts.

- **The winning-line generator** (`EdgeGenerator`). For width n it builds the
  hyperedges (winning lines):
  - at each end of every row, a flush horizontal line of 4 cells;
  - interior horizontal lines of 7 cells;
  - one 4-cell line per column;
  - the 4-cell down-right and up-right diagonals;
  - six corner stubs of 3 and 2 cells.

  It then sorts the cells of each line, and sorts and deduplicates the whole
  list.
- **The board**: 4·n cells, each `Empty`, `Maker` or `Breaker`, stored row
  by row. `get` and `set` check bounds, `is_empty` never fails, and
  `get_empty_cells` lists the free cells in row-major order.
- **The game**: `make_move` refuses a cell that is off the board or occupied.
  Otherwise it writes the mover's mark, counts the move, scans the lines for
  one held entirely by Maker, reports the first such line, and passes the
  turn.
- **The potential calculator**. An l-line is a line with no Breaker cell and
  exactly l empty cells. The calculator keeps a histogram of l-lines for
  l = 1..7 and computes the Erdős–Selfridge potential Σ x_l·2^-(l-1) from it.
  Breaker's certificate is the strict test potential < 1.

Module layout:

- `wrappers.dfy`: `Option`, `Result` and `Outcome`.
- `cells.dfy`: `Cells`, from `Board.h`.
- `boards.dfy`: `Boards`, from `Board.cpp`. The `Grid` value is the board's
  contents. The `Board` class writes an `array` in place.
- `edges.dfy`: `Edges`, from `Edges.cpp`. The appending loops are methods,
  proved against the family functions.
- `edge_properties.dfy`: `EdgeProperties`, which states what the generated
  list looks like: bounds, lengths, families and counts.
- `games.dfy`: `Games`, from `Game.cpp`.
- `potential.dfy`: `Potential`, from `Potential.cpp`.

Exceptions are failure values. The `Error` type has four cases:

- `InvalidSize`: a width that is not positive;
- `OutOfRange`: `Board::get` or `Board::set` off the board;
- `InvalidCell`: `make_move` off the board;
- `CellOccupied`: `make_move` on an occupied cell.

The two `make_move` errors are both `std::invalid_argument` in the code. The
model keeps them apart so that its contract can say which check refused the
move.

In the following places the model follows what the code does:

- **One boundary policy.** The code has a single rule for the ends of a
  row: flush 4-cell lines plus corner stubs. There are no flush boundary
  lines of length 5 or 6.
- **Interior starts.** The interior loop at `src/core/Edges.cpp:55` gives
  start columns 1..n-8. So a 10-column board has 2 such lines per row, not
  the 3 that the comment in `tests/test_edges.cpp:22` counts, and 46 lines
  in all.
- **No terminal state.** The game has no state that stops play once Maker
  has won.
  `make_move` passes the turn after a winning move too, and later moves are
  accepted.
- **Failing scans.** `is_edge_complete` and `has_breaker_cell` call
  `Board::get`, which throws on a cell off the board. If the lines were built
  for a wider board than the one scanned, the scan can fail with
  `OutOfRange`: it does so when it reaches an off-board cell before it has
  decided, that is before it meets a cell that is not Maker's (or, for
  `has_breaker_cell`, a Breaker cell). `make_move` fails exactly when the
  win scan after the write fails, and then it has already written the mark
  and counted the move. `EdgesFit` names the condition under which this cannot happen,
  and `GeneratedEdgesFit` proves it holds for the lines generated for the
  board's own width.

The potential uses exact reals. `PotentialScaled` shows that 64 times it is
the integer Σ x_l·2^(7-l). The certificate holds exactly when that integer is
below 64.

## Model

| member | source | states |
|---|---|---|
| Cells.CellLess | src/core/Board.h:29-32 | `<` on cells holds exactly when the row is smaller, or the rows are equal and the column is smaller; it never holds between equal cells |
| Cells.CellOrder | src/core/Board.h:25-32 | cell equality is componentwise; `<` compares rows first, then columns; it is irreflexive, asymmetric, transitive and total, and consistent with `==` |
| Boards.Index | src/core/Board.cpp:19 | the row-major position of a valid cell lies inside the 4·n cell vector |
| Boards.IndexRowMajor | src/core/Board.cpp:19 | row·n+col is injective on valid cells and orders them as cell `<` does |
| Boards.Grid.IsValid | src/core/Board.cpp:34-40 | `is_valid` holds exactly for row in [0,4) and column in [0,n), and a valid cell's row-major position lies inside the cell vector |
| Boards.Grid.Get | src/core/Board.cpp:15-24 | `get` succeeds exactly on valid cells (row in [0,4), column in [0,n)) and otherwise fails with OutOfRange |
| Boards.Grid.IsEmpty | src/core/Board.cpp:26-32 | `is_empty` is true exactly when `get` would succeed with Empty, so it is false off the board and never fails |
| Boards.Grid.With | src/core/Board.cpp:42-47 | the write of a valid cell keeps the width and the vector size, and the written cell reads back the new state (the other cells: GetAfterWith) |
| Boards.Blank | src/core/Board.cpp:7-13 | a new board of positive width has 4·n cells, all Empty |
| Boards.GetAfterWith | src/core/Board.cpp:42-47 | after a write to a valid cell, that cell reads back the new state and every other cell reads as before |
| Boards.Board.Rows | src/core/Board.h:39 | `rows()` is 4 |
| Boards.Board.Cols | src/core/Board.h:40 | `cols()` is the constructed width |
| Boards.Board.constructor | src/core/Board.cpp:7-13 | a positive width gives a fresh all-Empty board of that width |
| Boards.Board.New | src/core/Board.cpp:7-13 | construction fails with InvalidSize exactly when the width is not positive; otherwise the board is all Empty |
| Boards.Board.Set | src/core/Board.cpp:42-51 | `set` writes exactly the given cell when it is valid; otherwise it fails with OutOfRange and changes nothing |
| Boards.Board.GetEmptyCells | src/core/Board.cpp:53-63 | the result holds exactly the Empty cells, each once, in strictly increasing row-major order |
| Edges.EdgeLess | src/core/Edges.cpp:27-28 | the lexicographic order on lines that `std::sort` uses never relates equal lines, and puts a proper prefix before the longer line |
| Edges.EdgeLessIrreflexive | src/core/Edges.cpp:27-28 | no line is below itself in the lexicographic order the sort uses |
| Edges.EdgeLessTransitive | src/core/Edges.cpp:27-28 | the lexicographic order on lines is transitive |
| Edges.EdgeLessTotal | src/core/Edges.cpp:27-28 | any two distinct lines are comparable |
| Edges.StrictlySortedDistinct | src/core/Edges.cpp:27-28 | a strictly increasing list holds no duplicates |
| Edges.StrictlySortedUnique | src/core/Edges.cpp:27-28 | two strictly increasing lists with the same elements are equal, so the output of sort plus unique is determined by its set of elements |
| Edges.SortedFormUnique | src/core/Edges.cpp:114-116 | a sorted arrangement of a line's cells is determined by the cells, so any sort gives the same canonical line |
| Edges.Canonicalize | src/core/Edges.cpp:114-116 | `canonicalize` returns the same cells (as a multiset) in non-decreasing order |
| Edges.LineShapesIncreasing | src/core/Edges.cpp:33-95 | horizontal lines, columns, down-right diagonals and sorted up-right diagonals have strictly increasing cells |
| Edges.RowEdgesMembers | src/core/Edges.cpp:35-61 | a row contributes exactly its flush boundary lines (n >= 4) and its interior 7-cell lines |
| Edges.HorizontalRowsMembers | src/core/Edges.cpp:33-63 | the horizontal lines of the first k rows are exactly the boundary and interior lines with row below k |
| Edges.VerticalMembers | src/core/Edges.cpp:65-74 | the vertical family is exactly the 4-cell columns 0..n-1 |
| Edges.DiagonalMembers | src/core/Edges.cpp:76-96 | the two diagonal families are exactly the down-right and up-right 4-cell diagonals that fit |
| Edges.SortedRawMembers | src/core/Edges.cpp:33-112 | the union of the canonical families holds exactly the lines of width n |
| Edges.EdgeIsCanonical | src/core/Edges.cpp:22-24 | every line of width n has strictly increasing cells, so it is canonical |
| Edges.UpDiagonalSameCells | src/core/Edges.cpp:88-95 | an up-right diagonal as generated and its sorted form hold the same cells |
| Edges.CornerStubsSameCells | src/core/Edges.cpp:98-112 | each corner stub as generated and its sorted form hold the same cells |
| Edges.SortedRawAt | src/core/Edges.cpp:22-24 | entry i of the canonical families is entry i of the generated families, sorted |
| Edges.AddHorizontalEdges | src/core/Edges.cpp:33-63 | appends, row by row, the two flush 4-cell lines (n >= 4) and the 7-cell lines starting at columns 1..n-8 |
| Edges.AddVerticalEdges | src/core/Edges.cpp:65-74 | appends one 4-cell column line per column |
| Edges.AddDiagonalEdges | src/core/Edges.cpp:76-96 | appends every down-right diagonal, then every up-right diagonal, with starts 0..n-4 |
| Edges.AddExtraEdges | src/core/Edges.cpp:98-112 | appends the six corner stubs when n >= 3 and nothing otherwise |
| Edges.InsertUnique | src/core/Edges.cpp:27-28 | inserting into a strictly increasing list keeps it strictly increasing, adds the line, and drops nothing |
| Edges.SortUnique | src/core/Edges.cpp:27-28 | sort plus unique gives a strictly increasing list with the same elements as its input |
| Edges.CanonicalFormsOfRaw | src/core/Edges.cpp:22-24 | sorting every generated line yields exactly the canonical families |
| Edges.CanonicalizeEach | src/core/Edges.cpp:22-24 | every line of the list is replaced by a sorted arrangement of its own cells |
| Edges.GenerateEdges | src/core/Edges.cpp:6-31 | the result is strictly increasing (sorted, duplicate-free) and holds exactly the lines of width n |
| EdgeProperties.CornerStubsLiteral | src/core/Edges.cpp:98-112 | helper: unfolds the list of canonical corner stubs into its six sorted literals for n >= 3; the claims about the stubs are carried by CornerStubsSameCells and StubsPresent |
| EdgeProperties.EdgeCellsInBounds | src/core/Edges.cpp:33-112 | every cell of every line of width n has row in [0,4) and column in [0,n) |
| EdgeProperties.EdgeLengths | src/core/Edges.cpp:33-112 | every line has 2, 3, 4 or 7 cells |
| EdgeProperties.InteriorLines | src/core/Edges.cpp:55-61 | a 7-cell line needs n >= 9, is horizontal, starts at a column in 1..n-8, and touches neither column 0 nor column n-1 |
| EdgeProperties.InteriorLinesPresent | src/core/Edges.cpp:55-61 | every horizontal 7-cell line starting at a column in 1..n-8 is generated |
| EdgeProperties.StubsOnlyFromThree | src/core/Edges.cpp:98-101 | lines of 2 or 3 cells exist only for n >= 3, and are corner stubs |
| EdgeProperties.StubsPresent | src/core/Edges.cpp:103-111 | for n >= 3 the six corner stubs, left and right mirrors, are generated |
| EdgeProperties.SingleColumnEdges | src/core/Edges.cpp:65-74 | the generated lines whose four cells lie in one column are exactly the vertical family |
| EdgeProperties.DownRightEdges | src/core/Edges.cpp:79-86 | the generated down-right lines are exactly the down-right family |
| EdgeProperties.UpRightEdges | src/core/Edges.cpp:88-95 | the generated up-right lines are exactly the up-right family |
| EdgeProperties.VerticalDistinct | src/core/Edges.cpp:65-74 | the column lines are pairwise distinct |
| EdgeProperties.DiagonalsDistinct | src/core/Edges.cpp:80-95 | the diagonals of each direction are pairwise distinct |
| EdgeProperties.ColumnCount | src/core/Edges.cpp:65-74 | the generated list has exactly n single-column lines (none when n <= 0) |
| EdgeProperties.SameColumnIsSingleColumn | src/core/Edges.cpp:65-74 | among the lines of width n, the four-cell lines whose cells share a column are exactly the column lines |
| EdgeProperties.SameColumnCount | tests/test_edges.cpp:59-89 | counting the four-cell lines whose cells share a column, as the test does, gives exactly n (none when n <= 0) |
| EdgeProperties.DiagonalCounts | src/core/Edges.cpp:80-95 | the generated list has exactly n-3 lines in each diagonal direction for n >= 4, and none for n < 4 |
| EdgeProperties.RowDistinct | src/core/Edges.cpp:35-61 | for n >= 5 the horizontal lines of a row are pairwise distinct |
| EdgeProperties.HorizontalDistinct | src/core/Edges.cpp:33-63 | for n >= 5 the horizontal lines are distinct, and each row gives 2 + max(0, n-8) of them |
| EdgeProperties.StubsDistinct | src/core/Edges.cpp:103-111 | for n >= 4 the six corner stubs are distinct |
| EdgeProperties.SortedRawDistinct | src/core/Edges.cpp:6-31 | for n >= 5 the canonical families, taken together, repeat no line, so deduplication removes nothing |
| EdgeProperties.EdgeCount | src/core/Edges.cpp:6-31 | for n >= 5 the list has 4·(2 + max(0, n-8)) + n + 2·(n-3) + 6 lines |
| EdgeProperties.TenColumns | tests/test_edges.cpp:18-38 | a 10-column board has 46 lines (at least the 45 the test requires) |
| Games.Mark | src/core/Game.cpp:22 | the mark written is never Empty, and it is Maker's exactly for Maker |
| Games.Other | src/core/Game.cpp:36 | the turn passes to the other player |
| Games.IsEdgeComplete | src/core/Game.cpp:59-66 | the scan fails only with OutOfRange |
| Games.IsEdgeCompleteMeaning | src/core/Game.cpp:59-66 | the scan answers true exactly when every cell of the line is Maker's; it fails only when some cell is off the board, and never fails on a line that lies on the board |
| Games.CheckMakerWin | src/core/Game.cpp:41-48 | true means some line is complete and false means none is; it fails only with OutOfRange, and never when all lines fit the board |
| Games.FindWinningEdge | src/core/Game.cpp:50-57 | a returned line is the first complete line in list order; none means no line is complete; it fails only with OutOfRange, and never when all lines fit the board |
| Games.FirstCompleteAfter | src/core/Game.cpp:50-57 | when the first line is not complete, the first complete line of the rest is the first complete line of the list |
| Games.WinAgreement | src/core/Game.cpp:41-57 | `check_maker_win` is true exactly when `find_winning_edge` returns a line, and the two fail on the same boards |
| Games.FirstCompleteUnique | src/core/Game.cpp:50-57 | the first complete line of a list is unique |
| Games.GeneratedEdgesFit | src/core/Game.cpp:59-66 | the lines generated for the board's own width never make `get` fail |
| Games.Game.constructor | src/core/Game.cpp:6-11 | a new game has an all-Empty board of the given width, stores the lines, has Maker to move and has 0 moves |
| Games.Game.New | src/core/Game.cpp:6-11 | construction fails with InvalidSize exactly when the width is not positive; otherwise it is the initial game |
| Games.Game.MakeMove | src/core/Game.cpp:13-39 | off-board: InvalidCell, and nothing changes; occupied: CellOccupied, and nothing changes; otherwise exactly that cell gets the mover's mark and the count rises by one, and the move fails (with OutOfRange) exactly when the win scan of the new board fails, which it never does when every line lies on the board; the move reports a win exactly when some line is complete, with the first complete line as witness; the turn passes on every successful move, a winning one included |
| Games.OnlyTopLeftComplete | src/core/Game.cpp:59-66 | when Maker holds exactly the four leftmost top-row cells, no generated line but the top-left flush line is complete |
| Games.TopLeftWin | src/core/Game.cpp:41-57 | on such a board, with the generated lines of width n >= 4, Maker has won and the top-left flush line is the reported witness |
| Potential.HasBreaker | src/metrics/Potential.cpp:55-62 | the scan fails only with OutOfRange |
| Potential.HasBreakerMeaning | src/metrics/Potential.cpp:55-62 | a successful scan answers whether some cell is Breaker's; it fails only when it reaches a cell off the board, and never fails on a line that lies on the board |
| Potential.EmptyCountMeaning | src/metrics/Potential.cpp:45-53 | the empty-cell count is at most the line's length, equals it exactly when every cell is empty, and is 0 exactly when no cell is |
| Potential.Histogram | src/metrics/Potential.cpp:25-39 | the histogram has seven buckets and fails only with OutOfRange |
| Potential.HistogramDefined | src/metrics/Potential.cpp:28-30 | the histogram is defined exactly when every line's Breaker scan succeeds |
| Potential.HistogramCounts | src/metrics/Potential.cpp:28-34 | bucket l-1 is the number of lines with no Breaker cell and exactly l empty cells, counted independently of the loop |
| Potential.HistogramTotal | src/metrics/Potential.cpp:25-39 | the buckets are non-negative and sum to at most the number of lines, and to exactly that number when every line lands in a bucket |
| Potential.BlankBoardTotal | tests/test_potential.cpp:31-54 | on an empty board the buckets sum to the number of lines, for lines of 1 to 7 cells that fit the board |
| Potential.GeneratedBlankTotal | tests/test_potential.cpp:31-54 | on an empty board with the generated lines, the buckets sum to the number of lines |
| Potential.PotentialScaled | src/metrics/Potential.cpp:15-20 | 64 times the potential Σ x_l·2^-(l-1) is the integer Σ x_l·2^(7-l) |
| Potential.PotentialSign | src/metrics/Potential.cpp:11-23 | with non-negative buckets the potential is at least 0, positive when some bucket is, and the scaled sum is at least the bucket total |
| Potential.CertificateScaled | src/metrics/Potential.cpp:41-43 | the potential is strictly below 1 exactly when the scaled sum is below 64 |
| Potential.BlankPotentialPositive | tests/test_potential.cpp:12-29 | an empty board with at least one generated line has positive potential |
| Potential.Weight | src/metrics/Potential.cpp:31-34 | a line adds to the scaled potential exactly when it lands in a bucket |
| Potential.ScaledIsWeightSum | src/metrics/Potential.cpp:11-39 | the scaled potential is the sum over the lines of 2^(7-l) for each l-line |
| Potential.BreakerMoveOnLine | src/metrics/Potential.cpp:55-62 | Breaker's mark on an empty cell kills every line through that cell and leaves the other lines' scans and counts unchanged |
| Potential.BreakerMoveWeights | tests/test_potential.cpp:56-85 | Breaker's mark on an empty cell never raises the weight sum, and lowers it when a counted line passes through the cell |
| Potential.BreakerMoveLowers | tests/test_potential.cpp:56-85 | Breaker's mark on an empty cell never raises the potential, and lowers it strictly when some counted line passes through the cell |
| Potential.PotentialCalculator.constructor | src/metrics/Potential.cpp:6-9 | the calculator holds the given board and lines |
| Potential.PotentialCalculator.CountEmptyCells | src/metrics/Potential.cpp:45-53 | the counting loop returns the number of empty cells of the line |
| Potential.PotentialCalculator.HasBreakerCell | src/metrics/Potential.cpp:55-62 | the early-exit loop returns the scan's answer, or its OutOfRange failure |
| Potential.PotentialCalculator.HistogramExtend | src/metrics/Potential.cpp:28-35 | one loop step adds one to bucket l-1 for an l-line with 1 <= l <= 7 and leaves every other bucket as it was |
| Potential.PotentialCalculator.HistogramFailsAt | src/metrics/Potential.cpp:28-30 | a line whose Breaker scan fails makes the whole histogram fail |
| Potential.PotentialCalculator.ComputeHistogram | src/metrics/Potential.cpp:25-39 | the loop over a local 7-entry array computes the histogram, reading and changing nothing else |
| Potential.PotentialCalculator.WeightedSum | src/metrics/Potential.cpp:16-20 | the summing loop computes Σ_{l=1..7} x_l·2^-(l-1) |
| Potential.PotentialCalculator.ComputePotential | src/metrics/Potential.cpp:11-23 | the potential is defined exactly when the histogram is, fails only with OutOfRange, and is the weighted sum, whose 64-fold is the scaled integer |
| Potential.PotentialCalculator.HasBreakerCertificate | src/metrics/Potential.cpp:41-43 | the certificate is defined exactly when the histogram is, fails only with OutOfRange, and holds exactly when the scaled potential is below 64, that is the potential is strictly below 1 |

## Left out

- In-place updates of vectors. `canonicalize`, the `add_*` helpers and the sort-and-erase of `generate_edges` work in place on a `std::vector`. The model returns new sequences and keeps only their order and contents.
- The algorithms of `std::sort` and `std::unique`. The model uses an insertion pass and proves that its output is the only strictly increasing list with the same elements, so the algorithm chosen does not matter.
- 32-bit arithmetic. Widths, coordinates, `move_count`, the row·n+col index and the histogram buckets are unbounded integers, so overflow of `int32_t` is not modelled.
- Floating point. The potential is an exact real, and `std::pow` with doubles and its rounding are not modelled.
- Boards.Board.New: the vector is allocated before the width check. Only the resulting failure on a width that is not positive is modelled.
- `Board::to_string`, `src/util/Format.*`, `src/util/Cli.*` and `src/main.cpp`. These are display, argument parsing and a random simulator, and are not part of this model.
- Aliasing of the edge vector. `Game` and `PotentialCalculator` hold the board as a shared `Board` object: a caller may write to `game.board` through `Board.Set`, exactly as through the mutable `Game::board()` reference, and a later `MakeMove` sees that write. The edge vector, which the code holds by reference in `PotentialCalculator`, is held as a value; it is never changed after generation, so no write through it is lost.
- Potential.BreakerMoveLowers: the n=7 scenario of `tests/test_potential.cpp:56-85` is a Maker move at (0,3) then a Breaker move at (1,3). It is not proved as a concrete instance. The general lemma covers the Breaker move, and a Maker move can raise the potential, so the lemma says nothing about the first step.
- EdgeProperties.EdgeCount: the total is stated only for n >= 5. For n = 4 the two flush lines of a row coincide, for n = 3 the left and right stubs coincide, and the deduplicated count then differs. The other family counts hold for every n.
