/** What the generated edge list of a width-n board looks like: cells in
    bounds, the possible lengths, where the length-7 lines may start, the
    corner stubs, and how many lines each family contributes. */
module EdgeProperties {
  import opened Cells
  import opened Edges

  // ---------------------------------------------------------------------
  // Shapes, read off the cells alone
  // ---------------------------------------------------------------------

  /** Four cells of one column, top to bottom. */
  predicate SingleColumn(e: Edge) {
    |e| == 4 && forall i :: 0 <= i < |e| ==> e[i] == Cell(e[0].row + i, e[0].col)
  }

  /** Four cells going one row down and one column right at each step. */
  predicate DownRight(e: Edge) {
    |e| == 4 && forall i :: 0 <= i < |e| ==> e[i] == Cell(e[0].row + i, e[0].col + i)
  }

  /** Four cells going one row down and one column left at each step: an
      up-right diagonal listed in sorted order. */
  predicate UpRight(e: Edge) {
    |e| == 4 && forall i :: 0 <= i < |e| ==> e[i] == Cell(e[0].row + i, e[0].col - i)
  }

  // ---------------------------------------------------------------------
  // Per-edge facts
  // ---------------------------------------------------------------------

  lemma CornerStubsLiteral(n: int)
    requires n >= 3
    ensures CornerStubs(n) ==
      [ [Cell(0, 2), Cell(1, 1), Cell(2, 0)],
        [Cell(1, 0), Cell(2, 1), Cell(3, 2)],
        [Cell(0, n - 1), Cell(1, n - 2), Cell(2, n - 3)],
        [Cell(1, n - 3), Cell(2, n - 2), Cell(3, n - 1)],
        [Cell(0, 1), Cell(1, 0)],
        [Cell(0, n - 1), Cell(1, n - 2)] ]
  {
  }

  /** Every cell of every edge of width n lies on the 4 x n board. */
  lemma EdgeCellsInBounds(n: int, e: Edge, i: int)
    requires IsEdgeOf(n, e) && 0 <= i < |e|
    ensures 0 <= e[i].row < Height && 0 <= e[i].col < n
  {
    if e in CornerStubs(n) {
      CornerStubsLiteral(n);
      var k :| 0 <= k < 6 && CornerStubs(n)[k] == e;
      assert e == CornerStubs(n)[k];
    }
  }

  /** Every edge has 2, 3, 4 or 7 cells. */
  lemma EdgeLengths(n: int, e: Edge)
    requires IsEdgeOf(n, e)
    ensures |e| == 2 || |e| == 3 || |e| == 4 || |e| == 7
  {
    if e in CornerStubs(n) {
      CornerStubsLiteral(n);
      var k :| 0 <= k < 6 && CornerStubs(n)[k] == e;
      assert e == CornerStubs(n)[k];
    }
  }

  /** The length-7 edges are exactly the horizontal lines starting at a
      column in 1 .. n-8; none exists for n <= 8 and none reaches column 0
      or column n-1. */
  lemma InteriorLines(n: int, e: Edge)
    requires IsEdgeOf(n, e) && |e| == 7
    ensures n >= 9 && 0 <= e[0].row < Height && 1 <= e[0].col <= n - 8
    ensures e == HLine(e[0].row, e[0].col, 7)
    ensures forall c :: c in e ==> 1 <= c.col <= n - 2
  {
    assert IsInteriorLine(n, e);
  }

  lemma InteriorLinesPresent(n: int, row: int, start: int)
    requires 0 <= row < Height && 1 <= start <= n - 8
    ensures IsEdgeOf(n, HLine(row, start, 7))
  {
    var e := HLine(row, start, 7);
    assert e[0] == Cell(row, start);
    assert IsInteriorLine(n, e);
  }

  /** Edges of 2 or 3 cells are the corner stubs, which exist only when
      n >= 3; for n >= 3 all six are edges. */
  lemma StubsOnlyFromThree(n: int, e: Edge)
    requires IsEdgeOf(n, e) && |e| <= 3
    ensures n >= 3 && e in CornerStubs(n)
  {
  }

  lemma StubsPresent(n: int)
    requires n >= 3
    ensures IsEdgeOf(n, [Cell(0, 2), Cell(1, 1), Cell(2, 0)])
    ensures IsEdgeOf(n, [Cell(1, 0), Cell(2, 1), Cell(3, 2)])
    ensures IsEdgeOf(n, [Cell(0, n - 1), Cell(1, n - 2), Cell(2, n - 3)])
    ensures IsEdgeOf(n, [Cell(1, n - 3), Cell(2, n - 2), Cell(3, n - 1)])
    ensures IsEdgeOf(n, [Cell(0, 1), Cell(1, 0)])
    ensures IsEdgeOf(n, [Cell(0, n - 1), Cell(1, n - 2)])
  {
    CornerStubsLiteral(n);
  }

  // ---------------------------------------------------------------------
  // Family counts
  // ---------------------------------------------------------------------

  lemma SingleColumnEdges(n: int, e: Edge)
    ensures IsEdgeOf(n, e) && SingleColumn(e) <==> e in VerticalEdges(n)
  {
    VerticalMembers(n, e);
    if IsEdgeOf(n, e) && SingleColumn(e) {
      assert IsColumnLine(n, e);
    }
  }

  lemma DownRightEdges(n: int, e: Edge)
    ensures IsEdgeOf(n, e) && DownRight(e) <==> e in DownDiagonals(n)
  {
    DiagonalMembers(n, e);
    if IsEdgeOf(n, e) && DownRight(e) {
      assert IsDownDiagonal(n, e);
    }
  }

  lemma UpRightEdges(n: int, e: Edge)
    ensures IsEdgeOf(n, e) && UpRight(e) <==> e in UpDiagonalsSorted(n)
  {
    DiagonalMembers(n, e);
    if IsEdgeOf(n, e) && UpRight(e) {
      assert IsUpDiagonal(n, e);
    }
    if e in UpDiagonalsSorted(n) {
      assert e[3].col == e[0].col - 3;
    }
  }

  /** The edges of a list with the shape `kind` number as many as the
      entries of the family `fam`, when they are the same edges and the
      family repeats none. */
  lemma CountBySet(es: seq<Edge>, fam: seq<Edge>, kind: set<Edge>)
    requires NoDuplicates(fam)
    requires forall e :: e in es && e in kind <==> e in fam
    ensures |set e | e in es && e in kind| == |fam|
  {
    DistinctCount(fam);
    assert (set e | e in es && e in kind) == (set e | e in fam);
  }

  lemma VerticalDistinct(n: int)
    ensures NoDuplicates(VerticalEdges(n))
  {
    forall i, j | 0 <= i < j < |VerticalEdges(n)|
      ensures VerticalEdges(n)[i] != VerticalEdges(n)[j]
    {
      assert VerticalEdges(n)[i][0].col != VerticalEdges(n)[j][0].col;
    }
  }

  lemma DiagonalsDistinct(n: int)
    ensures NoDuplicates(DownDiagonals(n))
    ensures NoDuplicates(UpDiagonalsSorted(n))
  {
    forall i, j | 0 <= i < j < DiagonalCount(n)
      ensures DownDiagonals(n)[i] != DownDiagonals(n)[j]
      ensures UpDiagonalsSorted(n)[i] != UpDiagonalsSorted(n)[j]
    {
      assert DownDiagonals(n)[i][0].col != DownDiagonals(n)[j][0].col;
      assert UpDiagonalsSorted(n)[i][3].col != UpDiagonalsSorted(n)[j][3].col;
    }
  }

  /** There is exactly one single-column edge per column. */
  lemma ColumnCount(n: int, es: seq<Edge>)
    requires IsEdgeList(n, es)
    ensures |set e | e in es && SingleColumn(e)| == if n > 0 then n else 0
  {
    var kind := set e | e in es && SingleColumn(e);
    forall e
      ensures e in es && e in kind <==> e in VerticalEdges(n)
    {
      SingleColumnEdges(n, e);
    }
    VerticalDistinct(n);
    CountBySet(es, VerticalEdges(n), kind);
    assert (set e | e in es && e in kind) == kind;
  }

  /** Four cells sharing one column: the shape a vertical line is
      recognised by when the lines are counted by hand. */
  predicate SameColumn(e: Edge) {
    |e| == 4 && forall i :: 0 <= i < |e| ==> e[i].col == e[0].col
  }

  /** Among the edges of width n, sharing a column and running down one
      column are the same shape. */
  lemma SameColumnIsSingleColumn(n: int, e: Edge)
    requires IsEdgeOf(n, e)
    ensures SameColumn(e) <==> SingleColumn(e)
  {
    if IsBoundaryLine(n, e) || IsDownDiagonal(n, e) {
      assert e[1].col == e[0].col + 1;
    } else if IsUpDiagonal(n, e) {
      assert e[1].col == e[0].col - 1;
    } else if !IsInteriorLine(n, e) && !IsColumnLine(n, e) {
      StubsOnlyFromThree(n, e);
    }
  }

  /** Counting the four-cell edges whose cells share a column also gives
      one per column. */
  lemma SameColumnCount(n: int, es: seq<Edge>)
    requires IsEdgeList(n, es)
    ensures |set e | e in es && SameColumn(e)| == if n > 0 then n else 0
  {
    forall e | e in es
      ensures SameColumn(e) <==> SingleColumn(e)
    {
      SameColumnIsSingleColumn(n, e);
    }
    assert (set e | e in es && SameColumn(e)) == (set e | e in es && SingleColumn(e));
    ColumnCount(n, es);
  }

  /** There are n-3 diagonals in each direction for n >= 4, none below. */
  lemma DiagonalCounts(n: int, es: seq<Edge>)
    requires IsEdgeList(n, es)
    ensures |set e | e in es && DownRight(e)| == if n >= 4 then n - 3 else 0
    ensures |set e | e in es && UpRight(e)| == if n >= 4 then n - 3 else 0
  {
    var downs := set e | e in es && DownRight(e);
    var ups := set e | e in es && UpRight(e);
    forall e
      ensures e in es && e in downs <==> e in DownDiagonals(n)
      ensures e in es && e in ups <==> e in UpDiagonalsSorted(n)
    {
      DownRightEdges(n, e);
      UpRightEdges(n, e);
    }
    DiagonalsDistinct(n);
    CountBySet(es, DownDiagonals(n), downs);
    CountBySet(es, UpDiagonalsSorted(n), ups);
    assert (set e | e in es && e in downs) == downs;
    assert (set e | e in es && e in ups) == ups;
  }

  // ---------------------------------------------------------------------
  // The total count
  // ---------------------------------------------------------------------

  /** Which family an edge of width n belongs to, read off its first two
      cells: 0 horizontal, 1 column, 2 down-right, 3 up-right, 4 stub. */
  function Family(e: Edge): int {
    if |e| < 4 then 4
    else if e[1].row == e[0].row then 0
    else if e[1].col == e[0].col then 1
    else if e[1].col == e[0].col + 1 then 2
    else 3
  }

  /** For n >= 5 the two flush lines of a row differ, so a row repeats no line. */
  lemma RowDistinct(n: int, row: int)
    requires n >= 5
    ensures NoDuplicates(RowEdges(n, row))
  {
    var r := RowEdges(n, row);
    var interior := seq(InteriorCount(n), i => HLine(row, 1 + i, 7));
    assert r == [HLine(row, 0, 4), HLine(row, n - 4, 4)] + interior;
    forall i, j | 0 <= i < j < |r|
      ensures r[i] != r[j]
    {
      if j >= 2 {
        assert r[j] == interior[j - 2];
        assert r[j][0].col == j - 1;
        if i >= 2 {
          assert r[i] == interior[i - 2];
          assert r[i][0].col == i - 1;
        } else {
          assert |r[i]| == 4;
        }
      } else {
        assert r[0][0].col == 0 && r[1][0].col == n - 4;
      }
    }
  }

  lemma {:induction false} HorizontalDistinct(n: int, rows: nat)
    requires n >= 5 && rows <= Height
    ensures NoDuplicates(HorizontalRows(n, rows))
    ensures |HorizontalRows(n, rows)| == rows * (2 + InteriorCount(n))
  {
    if rows > 0 {
      HorizontalDistinct(n, rows - 1);
      RowDistinct(n, rows - 1);
      var earlier, last := HorizontalRows(n, rows - 1), RowEdges(n, rows - 1);
      forall e | e in earlier
        ensures e !in last
      {
        HorizontalRowsMembers(n, rows - 1, e);
        RowEdgesMembers(n, rows - 1, e);
      }
      NoDuplicatesConcat(earlier, last);
    }
  }

  lemma FamiliesOfSortedRaw(n: int, e: Edge)
    requires n >= 5
    ensures e in HorizontalEdges(n) ==> Family(e) == 0
    ensures e in VerticalEdges(n) ==> Family(e) == 1
    ensures e in DownDiagonals(n) ==> Family(e) == 2
    ensures e in UpDiagonalsSorted(n) ==> Family(e) == 3
    ensures e in CornerStubs(n) ==> Family(e) == 4
  {
    HorizontalRowsMembers(n, Height, e);
    SingleColumnEdges(n, e);
    DownRightEdges(n, e);
    UpRightEdges(n, e);
    if e in CornerStubs(n) {
      CornerStubsLiteral(n);
      var k :| 0 <= k < 6 && CornerStubs(n)[k] == e;
      assert e == CornerStubs(n)[k];
    }
  }

  /** From width 4 on, the six corner stubs are pairwise distinct. */
  lemma StubsDistinct(n: int)
    requires n >= 4
    ensures NoDuplicates(CornerStubs(n))
  {
    CornerStubsLiteral(n);
    var s := CornerStubs(n);
    forall i, j | 0 <= i < j < 6
      ensures s[i] != s[j]
    {
      assert s[i][0] != s[j][0] || |s[i]| != |s[j]|;
    }
  }

  /** For n >= 5 no two generated lines coincide. */
  lemma SortedRawDistinct(n: int)
    requires n >= 5
    ensures NoDuplicates(SortedRawEdges(n))
  {
    var h, v, d, u, c := HorizontalEdges(n), VerticalEdges(n), DownDiagonals(n), UpDiagonalsSorted(n), CornerStubs(n);
    HorizontalDistinct(n, Height);
    VerticalDistinct(n);
    DiagonalsDistinct(n);
    StubsDistinct(n);
    forall e | e in h + v + d + u + c
      ensures e in h ==> Family(e) == 0
      ensures e in v ==> Family(e) == 1
      ensures e in d ==> Family(e) == 2
      ensures e in u ==> Family(e) == 3
      ensures e in c ==> Family(e) == 4
    {
      FamiliesOfSortedRaw(n, e);
    }
    NoDuplicatesConcat(h, v);
    NoDuplicatesConcat(h + v, d);
    NoDuplicatesConcat(h + v + d, u);
    NoDuplicatesConcat(h + v + d + u, c);
  }

  /** For n >= 5 the list holds 2 + (n-8 if n >= 9) lines per row, n
      columns, n-3 diagonals each way and the six stubs. */
  lemma EdgeCount(n: int, es: seq<Edge>)
    requires n >= 5 && IsEdgeList(n, es)
    ensures |es| == Height * (2 + InteriorCount(n)) + n + 2 * (n - 3) + 6
  {
    var raw := SortedRawEdges(n);
    SortedRawDistinct(n);
    HorizontalDistinct(n, Height);
    CornerStubsLiteral(n);
    StrictlySortedDistinct(es);
    DistinctCount(es);
    DistinctCount(raw);
    forall e
      ensures e in es <==> e in raw
    {
      SortedRawMembers(n, e);
    }
    assert (set e | e in es) == (set e | e in raw);
  }

  /** A width-10 board has 46 winning lines. */
  lemma TenColumns(es: seq<Edge>)
    requires IsEdgeList(10, es)
    ensures |es| == 46
  {
    EdgeCount(10, es);
  }
}
