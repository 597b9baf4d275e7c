/** The winning-line generator for a 4-row board of width n: flush
    length-4 horizontal boundary lines, interior length-7 horizontal lines,
    one length-4 line per column, length-4 diagonals and six corner stubs,
    each line sorted, the whole list sorted and deduplicated. */
module Edges {
  import opened Cells

  /** A hyperedge (winning line). */
  type Edge = seq<Cell>

  // ---------------------------------------------------------------------
  // The order on edges: lexicographic over CellLess, a proper prefix first
  // ---------------------------------------------------------------------

  predicate EdgeLess(a: Edge, b: Edge)
    ensures EdgeLess(a, b) ==> a != b
    ensures |a| < |b| && a == b[..|a|] ==> EdgeLess(a, b)
    decreases |a|
  {
    if |a| == 0 then |b| > 0
    else if |b| == 0 then false
    else if CellLess(a[0], b[0]) then true
    else if CellLess(b[0], a[0]) then false
    else
      assert |a| < |b| && a == b[..|a|] ==> a[1..] == b[1..][..|a| - 1];
      EdgeLess(a[1..], b[1..])
  }

  lemma {:induction false} EdgeLessIrreflexive(a: Edge)
    ensures !EdgeLess(a, a)
    decreases |a|
  {
    if |a| > 0 {
      EdgeLessIrreflexive(a[1..]);
    }
  }

  lemma {:induction false} EdgeLessTransitive(a: Edge, b: Edge, c: Edge)
    requires EdgeLess(a, b) && EdgeLess(b, c)
    ensures EdgeLess(a, c)
    decreases |a|
  {
    if |a| > 0 && |c| > 0 && !CellLess(a[0], b[0]) && !CellLess(b[0], c[0]) {
      EdgeLessTransitive(a[1..], b[1..], c[1..]);
    }
  }

  lemma {:induction false} EdgeLessTotal(a: Edge, b: Edge)
    ensures a == b || EdgeLess(a, b) || EdgeLess(b, a)
    decreases |a|
  {
    if |a| > 0 && |b| > 0 && a[0] == b[0] {
      EdgeLessTotal(a[1..], b[1..]);
      if a[1..] == b[1..] {
        assert a == [a[0]] + a[1..] && b == [b[0]] + b[1..];
      }
    }
  }

  /** Edges in strictly increasing order: sorted and duplicate-free. */
  predicate StrictlySorted(es: seq<Edge>) {
    forall i, j :: 0 <= i < j < |es| ==> EdgeLess(es[i], es[j])
  }

  predicate NoDuplicates(es: seq<Edge>) {
    forall i, j :: 0 <= i < j < |es| ==> es[i] != es[j]
  }

  lemma StrictlySortedDistinct(es: seq<Edge>)
    requires StrictlySorted(es)
    ensures NoDuplicates(es)
  {
    forall i, j | 0 <= i < j < |es|
      ensures es[i] != es[j]
    {
      EdgeLessIrreflexive(es[i]);
    }
  }

  /** The head of a strictly sorted list is below every other element. */
  lemma HeadIsLeast(es: seq<Edge>, e: Edge)
    requires StrictlySorted(es) && e in es
    ensures es[0] == e || EdgeLess(es[0], e)
  {
  }

  /** Two strictly sorted lists with the same elements are equal: a sorted
      duplicate-free list is determined by its set of elements. */
  lemma {:induction false} StrictlySortedUnique(a: seq<Edge>, b: seq<Edge>)
    requires StrictlySorted(a) && StrictlySorted(b)
    requires forall e :: e in a <==> e in b
    ensures a == b
    decreases |a|
  {
    StrictlySortedDistinct(a);
    StrictlySortedDistinct(b);
    DistinctCount(a);
    DistinctCount(b);
    assert (set e | e in a) == (set e | e in b);
    if |a| > 0 {
      assert a[0] == b[0] by {
        HeadIsLeast(a, b[0]);
        HeadIsLeast(b, a[0]);
        if a[0] != b[0] {
          EdgeLessTransitive(a[0], b[0], a[0]);
          EdgeLessIrreflexive(a[0]);
        }
      }
      assert a == [a[0]] + a[1..] && b == [b[0]] + b[1..];
      forall e
        ensures e in a[1..] <==> e in b[1..]
      {
        EdgeLessIrreflexive(e);
        if e in a[1..] {
          var k :| 0 <= k < |a| - 1 && a[1..][k] == e;
          assert EdgeLess(a[0], a[k + 1]);
          assert e in b;
        }
        if e in b[1..] {
          var k :| 0 <= k < |b| - 1 && b[1..][k] == e;
          assert EdgeLess(b[0], b[k + 1]);
          assert e in a;
        }
      }
      StrictlySortedUnique(a[1..], b[1..]);
    }
  }

  /** A duplicate-free list has as many distinct elements as entries. */
  lemma {:induction false} DistinctCount(es: seq<Edge>)
    requires NoDuplicates(es)
    ensures |set e | e in es| == |es|
  {
    if |es| > 0 {
      var init := es[..|es| - 1];
      var last := es[|es| - 1];
      DistinctCount(init);
      assert (set e | e in es) == (set e | e in init) + {last};
      assert last !in (set e | e in init);
    }
  }

  lemma NoDuplicatesConcat(a: seq<Edge>, b: seq<Edge>)
    requires NoDuplicates(a) && NoDuplicates(b)
    requires forall e :: e in a ==> e !in b
    ensures NoDuplicates(a + b)
  {
    forall i, j | 0 <= i < j < |a + b|
      ensures (a + b)[i] != (a + b)[j]
    {
      if i < |a| && |a| <= j {
        assert (a + b)[i] in a && (a + b)[j] in b;
      }
    }
  }

  // ---------------------------------------------------------------------
  // Canonical form of one edge
  // ---------------------------------------------------------------------

  /** A sorted list of cells is determined by its multiset of cells. */
  lemma {:induction false} SortedFormUnique(a: Edge, b: Edge)
    requires NonDecreasing(a) && Increasing(b)
    requires multiset(a) == multiset(b)
    ensures a == b
    decreases |a|
  {
    if |a| == 0 {
      assert |multiset(b)| == 0;
    } else {
      assert |b| > 0 by {
        assert a[0] in multiset(a);
      }
      assert a[0] in multiset(b) && b[0] in multiset(a);
      var k :| 0 <= k < |b| && b[k] == a[0];
      var m :| 0 <= m < |a| && a[m] == b[0];
      assert a[0] == b[0] by {
        CellOrder(a[0], b[0], a[0]);
      }
      SameTails(a, b);
      SortedFormUnique(a[1..], b[1..]);
    }
  }

  /** Removing equal heads from two lists with the same cells leaves two
      lists with the same cells. */
  lemma SameTails(a: Edge, b: Edge)
    requires |a| > 0 && |b| > 0 && a[0] == b[0] && multiset(a) == multiset(b)
    ensures multiset(a[1..]) == multiset(b[1..])
  {
    assert a == [a[0]] + a[1..] && b == [b[0]] + b[1..];
    assert multiset(a[1..]) == multiset(a) - multiset{a[0]};
    assert multiset(b[1..]) == multiset(b) - multiset{b[0]};
  }

  /** Inserting a cell after the cells it does not precede and before
      the first one it precedes keeps a sorted list sorted. */
  lemma InsertSorted(sorted: Edge, j: int, x: Cell)
    requires NonDecreasing(sorted) && 0 <= j <= |sorted|
    requires forall k :: 0 <= k < j ==> !CellLess(x, sorted[k])
    requires j < |sorted| ==> CellLess(x, sorted[j])
    ensures NonDecreasing(sorted[..j] + [x] + sorted[j..])
    ensures multiset(sorted[..j] + [x] + sorted[j..]) == multiset(sorted) + multiset{x}
  {
    assert sorted == sorted[..j] + sorted[j..];
  }

  /** EdgeGenerator::canonicalize: the cells of an edge in sorted order. */
  method Canonicalize(edge: Edge) returns (sorted: Edge)
    ensures NonDecreasing(sorted)
    ensures multiset(sorted) == multiset(edge)
  {
    sorted := [];
    for i := 0 to |edge|
      invariant NonDecreasing(sorted)
      invariant multiset(sorted) == multiset(edge[..i])
    {
      var x := edge[i];
      var j := 0;
      while j < |sorted| && !CellLess(x, sorted[j])
        invariant 0 <= j <= |sorted|
        invariant forall k :: 0 <= k < j ==> !CellLess(x, sorted[k])
      {
        j := j + 1;
      }
      InsertSorted(sorted, j, x);
      sorted := sorted[..j] + [x] + sorted[j..];
      assert edge[..i + 1] == edge[..i] + [x];
    }
    assert edge[..|edge|] == edge;
  }

  // ---------------------------------------------------------------------
  // The line shapes
  // ---------------------------------------------------------------------

  /** `len` cells of one row starting at column `start`. */
  function HLine(row: int, start: int, len: nat): Edge {
    seq(len, i => Cell(row, start + i))
  }

  /** The four cells of one column. */
  function VLine(col: int): Edge {
    seq(Height, i => Cell(i, col))
  }

  /** (0,c), (1,c+1), (2,c+2), (3,c+3). */
  function DownDiagonal(start: int): Edge {
    seq(Height, i => Cell(i, start + i))
  }

  /** (3,c), (2,c+1), (1,c+2), (0,c+3), in the order generated. */
  function UpDiagonal(start: int): Edge {
    seq(Height, i => Cell(Height - 1 - i, start + i))
  }

  /** The same cells as UpDiagonal(start), sorted. */
  function UpDiagonalSorted(start: int): Edge {
    seq(Height, i => Cell(i, start + Height - 1 - i))
  }

  // ---------------------------------------------------------------------
  // The families, in the order the generator appends them
  // ---------------------------------------------------------------------

  /** Number of interior length-7 lines per row: starts 1 .. n-8. */
  function InteriorCount(n: int): nat {
    if n >= 9 then n - 8 else 0
  }

  /** Number of length-4 diagonals in each direction: starts 0 .. n-4. */
  function DiagonalCount(n: int): nat {
    if n >= 4 then n - 3 else 0
  }

  function RowEdges(n: int, row: int): seq<Edge> {
    (if n >= 4 then [HLine(row, 0, 4)] else [])
    + (if n >= 4 then [HLine(row, n - 4, 4)] else [])
    + seq(InteriorCount(n), i => HLine(row, 1 + i, 7))
  }

  /** The horizontal lines of the first `rows` rows. */
  function HorizontalRows(n: int, rows: nat): seq<Edge> {
    if rows == 0 then [] else HorizontalRows(n, rows - 1) + RowEdges(n, rows - 1)
  }

  function HorizontalEdges(n: int): seq<Edge> {
    HorizontalRows(n, Height)
  }

  function VerticalEdges(n: int): seq<Edge> {
    seq(if n > 0 then n else 0, c => VLine(c))
  }

  function DownDiagonals(n: int): seq<Edge> {
    seq(DiagonalCount(n), c => DownDiagonal(c))
  }

  function UpDiagonals(n: int): seq<Edge> {
    seq(DiagonalCount(n), c => UpDiagonal(c))
  }

  function UpDiagonalsSorted(n: int): seq<Edge> {
    seq(DiagonalCount(n), c => UpDiagonalSorted(c))
  }

  /** The corner stubs as generated (only when n >= 3). */
  function ExtraEdges(n: int): seq<Edge> {
    if n < 3 then [] else
      [ [Cell(2, 0), Cell(1, 1), Cell(0, 2)],
        [Cell(1, 0), Cell(2, 1), Cell(3, 2)],
        [Cell(2, n - 3), Cell(1, n - 2), Cell(0, n - 1)],
        [Cell(1, n - 3), Cell(2, n - 2), Cell(3, n - 1)],
        [Cell(1, 0), Cell(0, 1)],
        [Cell(1, n - 2), Cell(0, n - 1)] ]
  }

  /** The corner stubs, each sorted. */
  function CornerStubs(n: int): seq<Edge> {
    if n < 3 then [] else
      [ [Cell(0, 2), Cell(1, 1), Cell(2, 0)],
        [Cell(1, 0), Cell(2, 1), Cell(3, 2)],
        [Cell(0, n - 1), Cell(1, n - 2), Cell(2, n - 3)],
        [Cell(1, n - 3), Cell(2, n - 2), Cell(3, n - 1)],
        [Cell(0, 1), Cell(1, 0)],
        [Cell(0, n - 1), Cell(1, n - 2)] ]
  }

  /** Everything appended before canonicalization, in order. */
  function RawEdges(n: int): seq<Edge> {
    HorizontalEdges(n) + VerticalEdges(n) + (DownDiagonals(n) + UpDiagonals(n)) + ExtraEdges(n)
  }

  /** RawEdges with every edge sorted. */
  function SortedRawEdges(n: int): seq<Edge> {
    HorizontalEdges(n) + VerticalEdges(n) + DownDiagonals(n) + UpDiagonalsSorted(n) + CornerStubs(n)
  }

  // ---------------------------------------------------------------------
  // Which edges a width n has, by shape
  // ---------------------------------------------------------------------

  /** A flush length-4 horizontal line at the left or right end of a row. */
  predicate IsBoundaryLine(n: int, e: Edge) {
    n >= 4 && |e| == 4 && 0 <= e[0].row < Height
    && (e[0].col == 0 || e[0].col == n - 4)
    && e == HLine(e[0].row, e[0].col, 4)
  }

  /** A length-7 horizontal line starting at a column in 1 .. n-8. */
  predicate IsInteriorLine(n: int, e: Edge) {
    |e| == 7 && 0 <= e[0].row < Height
    && 1 <= e[0].col <= n - 8
    && e == HLine(e[0].row, e[0].col, 7)
  }

  /** The four cells of a column of the board. */
  predicate IsColumnLine(n: int, e: Edge) {
    |e| == 4 && 0 <= e[0].col < n && e == VLine(e[0].col)
  }

  /** A down-right length-4 diagonal inside the board. */
  predicate IsDownDiagonal(n: int, e: Edge) {
    |e| == 4 && 0 <= e[0].col && e[0].col + 4 <= n && e == DownDiagonal(e[0].col)
  }

  /** An up-right length-4 diagonal inside the board, sorted. */
  predicate IsUpDiagonal(n: int, e: Edge) {
    |e| == 4 && 0 <= e[3].col && e[3].col + 4 <= n && e == UpDiagonalSorted(e[3].col)
  }

  /** The edges of width n: the members of the generated list. */
  predicate IsEdgeOf(n: int, e: Edge) {
    IsBoundaryLine(n, e) || IsInteriorLine(n, e) || IsColumnLine(n, e)
    || IsDownDiagonal(n, e) || IsUpDiagonal(n, e) || e in CornerStubs(n)
  }

  /** What EdgeGenerator::generate_edges(n) returns. */
  ghost predicate IsEdgeList(n: int, es: seq<Edge>) {
    StrictlySorted(es) && forall e :: e in es <==> IsEdgeOf(n, e)
  }

  // ---------------------------------------------------------------------
  // Membership of the families, by shape
  // ---------------------------------------------------------------------

  lemma LineShapesIncreasing(row: int, start: int, len: nat, c: int)
    ensures Increasing(HLine(row, start, len))
    ensures Increasing(VLine(c))
    ensures Increasing(DownDiagonal(c))
    ensures Increasing(UpDiagonalSorted(c))
  {
  }

  lemma RowEdgesMembers(n: int, row: int, e: Edge)
    requires 0 <= row < Height
    ensures e in RowEdges(n, row) <==>
      (IsBoundaryLine(n, e) || IsInteriorLine(n, e)) && e[0].row == row
  {
    var interior := seq(InteriorCount(n), i => HLine(row, 1 + i, 7));
    assert RowEdges(n, row) == (if n >= 4 then [HLine(row, 0, 4), HLine(row, n - 4, 4)] else []) + interior;
    if e in interior {
      var i :| 0 <= i < |interior| && interior[i] == e;
      assert e[0] == Cell(row, 1 + i);
    }
    if IsInteriorLine(n, e) && e[0].row == row {
      assert interior[e[0].col - 1] == e;
    }
  }

  lemma {:induction false} HorizontalRowsMembers(n: int, rows: nat, e: Edge)
    requires rows <= Height
    ensures e in HorizontalRows(n, rows) <==>
      (IsBoundaryLine(n, e) || IsInteriorLine(n, e)) && e[0].row < rows
  {
    if rows > 0 {
      HorizontalRowsMembers(n, rows - 1, e);
      RowEdgesMembers(n, rows - 1, e);
    }
  }

  lemma VerticalMembers(n: int, e: Edge)
    ensures e in VerticalEdges(n) <==> IsColumnLine(n, e)
  {
    if e in VerticalEdges(n) {
      var c :| 0 <= c < |VerticalEdges(n)| && VerticalEdges(n)[c] == e;
      assert e[0] == Cell(0, c);
    }
    if IsColumnLine(n, e) {
      assert VerticalEdges(n)[e[0].col] == e;
    }
  }

  lemma DiagonalMembers(n: int, e: Edge)
    ensures e in DownDiagonals(n) <==> IsDownDiagonal(n, e)
    ensures e in UpDiagonalsSorted(n) <==> IsUpDiagonal(n, e)
  {
    if e in DownDiagonals(n) {
      var c :| 0 <= c < |DownDiagonals(n)| && DownDiagonals(n)[c] == e;
      assert e[0] == Cell(0, c);
    }
    if IsDownDiagonal(n, e) {
      assert DownDiagonals(n)[e[0].col] == e;
    }
    if e in UpDiagonalsSorted(n) {
      var c :| 0 <= c < |UpDiagonalsSorted(n)| && UpDiagonalsSorted(n)[c] == e;
      assert e[3] == Cell(3, c);
    }
    if IsUpDiagonal(n, e) {
      assert UpDiagonalsSorted(n)[e[3].col] == e;
    }
  }

  /** The sorted families hold exactly the edges of width n. */
  lemma SortedRawMembers(n: int, e: Edge)
    ensures e in SortedRawEdges(n) <==> IsEdgeOf(n, e)
  {
    HorizontalRowsMembers(n, Height, e);
    VerticalMembers(n, e);
    DiagonalMembers(n, e);
  }

  /** Every edge of width n is canonical: its cells strictly increase. */
  lemma EdgeIsCanonical(n: int, e: Edge)
    requires IsEdgeOf(n, e)
    ensures Increasing(e)
  {
    if IsBoundaryLine(n, e) || IsInteriorLine(n, e) {
      LineShapesIncreasing(e[0].row, e[0].col, |e|, 0);
    } else if IsColumnLine(n, e) || IsDownDiagonal(n, e) {
      LineShapesIncreasing(0, 0, 0, e[0].col);
    } else if IsUpDiagonal(n, e) {
      LineShapesIncreasing(0, 0, 0, e[3].col);
    }
  }

  lemma SortedRawLength(n: int)
    ensures |SortedRawEdges(n)| == |RawEdges(n)|
  {
  }

  lemma UpDiagonalSameCells(c: int)
    ensures multiset(UpDiagonalSorted(c)) == multiset(UpDiagonal(c))
  {
    assert UpDiagonal(c) == [Cell(3, c), Cell(2, c + 1), Cell(1, c + 2), Cell(0, c + 3)];
    assert UpDiagonalSorted(c) == [Cell(0, c + 3), Cell(1, c + 2), Cell(2, c + 1), Cell(3, c)];
    ReversedCells(Cell(3, c), Cell(2, c + 1), Cell(1, c + 2), Cell(0, c + 3));
  }

  lemma ReversedCells(a: Cell, b: Cell, c: Cell, d: Cell)
    ensures multiset([a, b, c, d]) == multiset([d, c, b, a])
  {
    assert [a, b, c, d] == [a, b] + [c, d] && [d, c, b, a] == [d, c] + [b, a];
  }

  lemma CornerStubsSameCells(n: int, j: int)
    requires 0 <= j < |ExtraEdges(n)|
    ensures |CornerStubs(n)| == |ExtraEdges(n)|
    ensures multiset(CornerStubs(n)[j]) == multiset(ExtraEdges(n)[j])
  {
    var s, x := CornerStubs(n), ExtraEdges(n);
    if j == 0 {
      assert s[j] == [Cell(0, 2), Cell(1, 1), Cell(2, 0)] && x[j] == [Cell(2, 0), Cell(1, 1), Cell(0, 2)];
      PermutedCells(Cell(0, 2), Cell(1, 1), Cell(2, 0));
    } else if j == 2 {
      assert s[j] == [Cell(0, n - 1), Cell(1, n - 2), Cell(2, n - 3)] && x[j] == [Cell(2, n - 3), Cell(1, n - 2), Cell(0, n - 1)];
      PermutedCells(Cell(0, n - 1), Cell(1, n - 2), Cell(2, n - 3));
    } else if j == 4 {
      assert s[j] == [Cell(0, 1), Cell(1, 0)] && x[j] == [Cell(1, 0), Cell(0, 1)];
      PermutedCells(Cell(0, 1), Cell(1, 0), Cell(1, 0));
    } else if j == 5 {
      assert s[j] == [Cell(0, n - 1), Cell(1, n - 2)] && x[j] == [Cell(1, n - 2), Cell(0, n - 1)];
      PermutedCells(Cell(0, n - 1), Cell(1, n - 2), Cell(1, n - 2));
    } else {
      assert s[j] == x[j];
    }
  }

  lemma PermutedCells(a: Cell, b: Cell, c: Cell)
    ensures multiset([a, b, c]) == multiset([c, b, a])
    ensures multiset([a, b]) == multiset([b, a])
  {
  }

  lemma SortedRawIncreasing(n: int, i: int)
    requires 0 <= i < |SortedRawEdges(n)|
    ensures Increasing(SortedRawEdges(n)[i])
  {
    var e := SortedRawEdges(n)[i];
    SortedRawMembers(n, e);
    EdgeIsCanonical(n, e);
  }

  /** Entry i of SortedRawEdges(n) is entry i of RawEdges(n), sorted. */
  lemma SortedRawAt(n: int, i: int)
    requires 0 <= i < |RawEdges(n)|
    ensures |SortedRawEdges(n)| == |RawEdges(n)|
    ensures Increasing(SortedRawEdges(n)[i])
    ensures multiset(SortedRawEdges(n)[i]) == multiset(RawEdges(n)[i])
  {
    SortedRawLength(n);
    SortedRawIncreasing(n, i);
    var e := SortedRawEdges(n)[i];
    var prefix := HorizontalEdges(n) + VerticalEdges(n) + DownDiagonals(n);
    var ups, upsSorted := UpDiagonals(n), UpDiagonalsSorted(n);
    assert RawEdges(n) == prefix + ups + ExtraEdges(n);
    assert SortedRawEdges(n) == prefix + upsSorted + CornerStubs(n);
    if i < |prefix| {
      assert RawEdges(n)[i] == prefix[i] == e;
    } else if i < |prefix| + |ups| {
      var c := i - |prefix|;
      assert RawEdges(n)[i] == UpDiagonal(c);
      assert e == UpDiagonalSorted(c);
      UpDiagonalSameCells(c);
    } else {
      var j := i - |prefix| - |ups|;
      assert RawEdges(n)[i] == ExtraEdges(n)[j];
      assert e == CornerStubs(n)[j];
      CornerStubsSameCells(n, j);
    }
  }

  // ---------------------------------------------------------------------
  // The generator
  // ---------------------------------------------------------------------

  /** EdgeGenerator::add_horizontal_edges: per row, the two flush length-4
      lines (when n >= 4) and the interior length-7 lines. */
  method AddHorizontalEdges(edges: seq<Edge>, n: int) returns (result: seq<Edge>)
    ensures result == edges + HorizontalEdges(n)
  {
    result := edges;
    for row := 0 to Height
      invariant result == edges + HorizontalRows(n, row)
    {
      ghost var before := result;
      if n >= 4 {
        var edge := [];
        for i := 0 to 4
          invariant edge == HLine(row, 0, i)
        {
          edge := edge + [Cell(row, i)];
        }
        result := result + [edge];
      }
      if n >= 4 {
        var edge := [];
        for i := 0 to 4
          invariant edge == HLine(row, n - 4, i)
        {
          edge := edge + [Cell(row, n - 4 + i)];
        }
        result := result + [edge];
      }
      ghost var boundary := result;
      var startCol := 1;
      while startCol + 7 <= n - 1
        invariant 1 <= startCol && startCol - 1 <= InteriorCount(n)
        invariant result == boundary + seq(startCol - 1, i => HLine(row, 1 + i, 7))
      {
        var edge := [];
        for i := 0 to 7
          invariant edge == HLine(row, startCol, i)
        {
          edge := edge + [Cell(row, startCol + i)];
        }
        result := result + [edge];
        startCol := startCol + 1;
      }
      assert result == before + RowEdges(n, row);
    }
  }

  /** EdgeGenerator::add_vertical_edges: one length-4 line per column. */
  method AddVerticalEdges(edges: seq<Edge>, n: int) returns (result: seq<Edge>)
    ensures result == edges + VerticalEdges(n)
  {
    result := edges;
    var col := 0;
    while col < n
      invariant 0 <= col && (col <= n || col == 0)
      invariant result == edges + seq(col, c => VLine(c))
    {
      var edge := [];
      for row := 0 to Height
        invariant edge == seq(row, i => Cell(i, col))
      {
        edge := edge + [Cell(row, col)];
      }
      result := result + [edge];
      col := col + 1;
    }
  }

  /** EdgeGenerator::add_diagonal_edges: every down-right, then every
      up-right length-4 diagonal that fits. */
  method AddDiagonalEdges(edges: seq<Edge>, n: int) returns (result: seq<Edge>)
    ensures result == edges + (DownDiagonals(n) + UpDiagonals(n))
  {
    result := edges;
    var startCol := 0;
    while startCol + 4 <= n
      invariant 0 <= startCol <= DiagonalCount(n)
      invariant result == edges + seq(startCol, c => DownDiagonal(c))
    {
      var edge := [];
      for i := 0 to 4
        invariant edge == seq(i, k => Cell(k, startCol + k))
      {
        edge := edge + [Cell(i, startCol + i)];
      }
      result := result + [edge];
      startCol := startCol + 1;
    }
    ghost var downs := result;
    startCol := 0;
    while startCol + 4 <= n
      invariant 0 <= startCol <= DiagonalCount(n)
      invariant result == downs + seq(startCol, c => UpDiagonal(c))
    {
      var edge := [];
      for i := 0 to 4
        invariant edge == seq(i, k => Cell(3 - k, startCol + k))
      {
        edge := edge + [Cell(3 - i, startCol + i)];
      }
      result := result + [edge];
      startCol := startCol + 1;
    }
  }

  /** EdgeGenerator::add_extra_edges: the six corner stubs when n >= 3. */
  method AddExtraEdges(edges: seq<Edge>, n: int) returns (result: seq<Edge>)
    ensures result == edges + ExtraEdges(n)
  {
    if n < 3 {
      return edges;
    }
    result := edges;
    result := result + [[Cell(2, 0), Cell(1, 1), Cell(0, 2)]];
    result := result + [[Cell(1, 0), Cell(2, 1), Cell(3, 2)]];
    result := result + [[Cell(2, n - 3), Cell(1, n - 2), Cell(0, n - 1)]];
    result := result + [[Cell(1, n - 3), Cell(2, n - 2), Cell(3, n - 1)]];
    result := result + [[Cell(1, 0), Cell(0, 1)]];
    result := result + [[Cell(1, n - 2), Cell(0, n - 1)]];
  }

  /** Inserts an edge into a strictly sorted list unless it is already there. */
  method InsertUnique(sorted: seq<Edge>, e: Edge) returns (result: seq<Edge>)
    requires StrictlySorted(sorted)
    ensures StrictlySorted(result)
    ensures forall x :: x in result <==> x in sorted || x == e
  {
    var j := 0;
    while j < |sorted| && EdgeLess(sorted[j], e)
      invariant 0 <= j <= |sorted|
      invariant forall k :: 0 <= k < j ==> EdgeLess(sorted[k], e)
    {
      j := j + 1;
    }
    if j < |sorted| && sorted[j] == e {
      return sorted;
    }
    if j < |sorted| {
      EdgeLessTotal(sorted[j], e);
      forall k | j < k < |sorted|
        ensures EdgeLess(e, sorted[k])
      {
        EdgeLessTransitive(e, sorted[j], sorted[k]);
      }
    }
    assert sorted == sorted[..j] + sorted[j..];
    result := sorted[..j] + [e] + sorted[j..];
  }

  /** The std::sort + std::unique pass: the distinct edges in increasing order. */
  method SortUnique(edges: seq<Edge>) returns (sorted: seq<Edge>)
    ensures StrictlySorted(sorted)
    ensures forall e :: e in sorted <==> e in edges
  {
    sorted := [];
    for i := 0 to |edges|
      invariant StrictlySorted(sorted)
      invariant forall e :: e in sorted <==> e in edges[..i]
    {
      assert edges[..i + 1] == edges[..i] + [edges[i]];
      sorted := InsertUnique(sorted, edges[i]);
    }
    assert edges[..|edges|] == edges;
  }

  /** Sorting each generated edge in place yields SortedRawEdges(n). */
  lemma CanonicalFormsOfRaw(n: int, edges: seq<Edge>)
    requires |edges| == |RawEdges(n)|
    requires forall i :: 0 <= i < |edges| ==>
      NonDecreasing(edges[i]) && multiset(edges[i]) == multiset(RawEdges(n)[i])
    ensures edges == SortedRawEdges(n)
  {
    SortedRawLength(n);
    forall i | 0 <= i < |edges|
      ensures edges[i] == SortedRawEdges(n)[i]
    {
      SortedRawAt(n, i);
      SortedFormUnique(edges[i], SortedRawEdges(n)[i]);
    }
  }

  /** The loop of generate_edges that canonicalizes every edge. */
  method CanonicalizeEach(edges: seq<Edge>) returns (result: seq<Edge>)
    ensures |result| == |edges|
    ensures forall i :: 0 <= i < |edges| ==>
      NonDecreasing(result[i]) && multiset(result[i]) == multiset(edges[i])
  {
    result := edges;
    for i := 0 to |edges|
      invariant |result| == |edges|
      invariant forall k :: 0 <= k < i ==>
        NonDecreasing(result[k]) && multiset(result[k]) == multiset(edges[k])
      invariant forall k :: i <= k < |edges| ==> result[k] == edges[k]
    {
      var sorted := Canonicalize(result[i]);
      result := result[i := sorted];
    }
  }

  /** EdgeGenerator::generate_edges: every edge of width n, each sorted,
      once each, in increasing order. */
  method GenerateEdges(n: int) returns (edges: seq<Edge>)
    ensures StrictlySorted(edges)
    ensures forall e :: e in edges <==> IsEdgeOf(n, e)
  {
    edges := [];
    edges := AddHorizontalEdges(edges, n);
    edges := AddVerticalEdges(edges, n);
    edges := AddDiagonalEdges(edges, n);
    edges := AddExtraEdges(edges, n);
    assert edges == RawEdges(n);
    edges := CanonicalizeEach(edges);
    CanonicalFormsOfRaw(n, edges);
    edges := SortUnique(edges);
    forall e
      ensures e in edges <==> IsEdgeOf(n, e)
    {
      SortedRawMembers(n, e);
    }
  }
}
