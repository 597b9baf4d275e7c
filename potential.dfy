/** The Erdős–Selfridge potential of a position. An l-line is a winning
    line with no Breaker cell and exactly l empty cells; the histogram
    counts l-lines for l = 1..7 and the potential is the sum of
    x_l * 2^-(l-1). The potential is exact here: 64 times it is the integer
    sum of x_l * 2^(7-l). */
module Potential {
  import opened Wrappers
  import opened Cells
  import opened Boards
  import opened Edges
  import opened Games
  import EdgeProperties

  // ---------------------------------------------------------------------
  // One line
  // ---------------------------------------------------------------------

  /** PotentialCalculator::has_breaker_cell: reads the cells in order and
      stops at the first Breaker cell; Board::get fails on a cell off the
      board reached before that. */
  function HasBreaker(g: Grid, e: Edge): (r: Result<bool, Error>)
    requires g.Wf()
    ensures r.Failure? ==> r.error == OutOfRange
    decreases |e|
  {
    if |e| == 0 then Success(false)
    else match g.Get(e[0])
      case Failure(err) => Failure(err)
      case Success(s) => if s == CellState.Breaker then Success(true) else HasBreaker(g, e[1..])
  }

  /** The scan answers whether some cell is Breaker's; it can fail only on
      a line reaching off the board, and then with OutOfRange. */
  lemma {:induction false} HasBreakerMeaning(g: Grid, e: Edge)
    requires g.Wf()
    ensures HasBreaker(g, e).Success? ==>
      (HasBreaker(g, e).value <==> exists i :: 0 <= i < |e| && g.Get(e[i]) == Success(CellState.Breaker))
    ensures HasBreaker(g, e).Failure? ==>
      HasBreaker(g, e).error == OutOfRange && exists i :: 0 <= i < |e| && !g.IsValid(e[i])
    ensures (forall c :: c in e ==> g.IsValid(c)) ==> HasBreaker(g, e).Success?
    decreases |e|
  {
    if |e| > 0 {
      HasBreakerMeaning(g, e[1..]);
      assert forall i :: 1 <= i < |e| ==> e[i] == e[1..][i - 1];
    }
  }

  /** PotentialCalculator::count_empty_cells: how many cells of the line
      are empty (a cell off the board counts as not empty). */
  function EmptyCount(g: Grid, e: Edge): nat
    requires g.Wf()
    decreases |e|
  {
    if |e| == 0 then 0 else (if g.IsEmpty(e[0]) then 1 else 0) + EmptyCount(g, e[1..])
  }

  /** The count is at most the length of the line, equals it exactly when
      every cell is empty and is zero exactly when none is. */
  lemma {:induction false} EmptyCountMeaning(g: Grid, e: Edge)
    requires g.Wf()
    ensures EmptyCount(g, e) <= |e|
    ensures EmptyCount(g, e) == |e| <==> forall i :: 0 <= i < |e| ==> g.IsEmpty(e[i])
    ensures EmptyCount(g, e) == 0 <==> forall i :: 0 <= i < |e| ==> !g.IsEmpty(e[i])
    decreases |e|
  {
    if |e| > 0 {
      EmptyCountMeaning(g, e[1..]);
      assert forall i :: 1 <= i < |e| ==> e[i] == e[1..][i - 1];
    }
  }

  /** An l-line: no Breaker cell and exactly l empty cells. */
  predicate IsLLine(g: Grid, e: Edge, l: int)
    requires g.Wf()
  {
    HasBreaker(g, e) == Success(false) && EmptyCount(g, e) == l
  }

  /** The line lands in a histogram bucket: an l-line with 1 <= l <= 7. */
  predicate Counted(g: Grid, e: Edge)
    requires g.Wf()
  {
    HasBreaker(g, e) == Success(false) && 1 <= EmptyCount(g, e) <= 7
  }

  // ---------------------------------------------------------------------
  // The histogram
  // ---------------------------------------------------------------------

  /** PotentialCalculator::compute_histogram, edge by edge in list order:
      bucket l-1 counts the l-lines; the first failing Board::get fails the
      whole computation. */
  function Histogram(g: Grid, es: seq<Edge>): (r: Result<seq<int>, Error>)
    requires g.Wf()
    ensures r.Success? ==> |r.value| == 7
    ensures r.Failure? ==> r.error == OutOfRange
    decreases |es|
  {
    if |es| == 0 then Success(seq(7, _ => 0))
    else
      var init, e := es[..|es| - 1], es[|es| - 1];
      match Histogram(g, init)
        case Failure(err) => Failure(err)
        case Success(h) =>
          match HasBreaker(g, e)
            case Failure(err) => Failure(err)
            case Success(dead) =>
              var k := EmptyCount(g, e);
              if !dead && 1 <= k <= 7 then Success(h[k - 1 := h[k - 1] + 1]) else Success(h)
  }

  /** The histogram fails exactly when the scan of some line fails. */
  lemma {:induction false} HistogramDefined(g: Grid, es: seq<Edge>)
    requires g.Wf()
    ensures Histogram(g, es).Success? <==> forall i :: 0 <= i < |es| ==> HasBreaker(g, es[i]).Success?
    decreases |es|
  {
    if |es| > 0 {
      var init := es[..|es| - 1];
      HistogramDefined(g, init);
      assert forall i :: 0 <= i < |init| ==> init[i] == es[i];
    }
  }

  /** How many entries of the list are l-lines, counted independently of
      the scan. */
  ghost function LineCount(g: Grid, es: seq<Edge>, l: int): nat
    requires g.Wf()
  {
    TrueCount(seq(|es|, i requires 0 <= i < |es| => IsLLine(g, es[i], l)))
  }

  /** The number of positions holding true. */
  ghost function TrueCount(m: seq<bool>): nat {
    |set i | 0 <= i < |m| && m[i]|
  }

  lemma TrueCountStep(m: seq<bool>)
    requires |m| > 0
    ensures TrueCount(m) == TrueCount(m[..|m| - 1]) + (if m[|m| - 1] then 1 else 0)
  {
    var init := m[..|m| - 1];
    var before := set i | 0 <= i < |init| && init[i];
    var after := set i | 0 <= i < |m| && m[i];
    if m[|m| - 1] {
      assert after == before + {|m| - 1};
    } else {
      assert after == before;
    }
  }

  /** One more line adds one to the bucket of its length, when it lands in
      a bucket, and nothing elsewhere. */
  lemma HistogramStep(g: Grid, es: seq<Edge>)
    requires g.Wf() && |es| > 0 && Histogram(g, es).Success?
    ensures Histogram(g, es[..|es| - 1]).Success?
    ensures forall k :: 0 <= k < 7 ==>
      Histogram(g, es).value[k] == Histogram(g, es[..|es| - 1]).value[k] + (if IsLLine(g, es[|es| - 1], k + 1) then 1 else 0)
  {
    assert forall i :: 0 <= i < |es| - 1 ==> es[..|es| - 1][i] == es[i];
  }

  lemma LineCountStep(g: Grid, es: seq<Edge>, l: int)
    requires g.Wf() && |es| > 0
    ensures LineCount(g, es, l) ==
      LineCount(g, es[..|es| - 1], l) + (if IsLLine(g, es[|es| - 1], l) then 1 else 0)
  {
    var m := seq(|es|, i requires 0 <= i < |es| => IsLLine(g, es[i], l));
    var init := es[..|es| - 1];
    assert m[..|m| - 1] == seq(|init|, i requires 0 <= i < |init| => IsLLine(g, init[i], l));
    TrueCountStep(m);
  }

  /** Bucket l-1 of the histogram is the number of l-lines. */
  lemma {:induction false} HistogramCounts(g: Grid, es: seq<Edge>)
    requires g.Wf() && Histogram(g, es).Success?
    ensures forall k :: 0 <= k < 7 ==> Histogram(g, es).value[k] == LineCount(g, es, k + 1)
    decreases |es|
  {
    if |es| > 0 {
      HistogramStep(g, es);
      HistogramCounts(g, es[..|es| - 1]);
      forall k | 0 <= k < 7
        ensures Histogram(g, es).value[k] == LineCount(g, es, k + 1)
      {
        LineCountStep(g, es, k + 1);
      }
    }
  }

  /** The sum of the seven buckets. */
  function Sum(h: seq<int>): int
    requires |h| == 7
  {
    h[0] + h[1] + h[2] + h[3] + h[4] + h[5] + h[6]
  }

  /** The buckets are non-negative and count each line at most once: their
      sum is at most the number of lines, and equals it when every line
      lands in a bucket. */
  lemma {:induction false} HistogramTotal(g: Grid, es: seq<Edge>)
    requires g.Wf() && Histogram(g, es).Success?
    ensures forall k :: 0 <= k < 7 ==> Histogram(g, es).value[k] >= 0
    ensures Sum(Histogram(g, es).value) <= |es|
    ensures (forall i :: 0 <= i < |es| ==> Counted(g, es[i])) ==> Sum(Histogram(g, es).value) == |es|
    decreases |es|
  {
    if |es| > 0 {
      var init := es[..|es| - 1];
      HistogramStep(g, es);
      HistogramTotal(g, init);
      assert forall i :: 0 <= i < |init| ==> init[i] == es[i];
    }
  }

  /** On a blank board, every line that fits and has 1 to 7 cells lands in
      the bucket of its length, so the buckets add up to the line count. */
  lemma BlankBoardTotal(n: int, es: seq<Edge>)
    requires n > 0 && EdgesFit(Blank(n), es)
    requires forall i :: 0 <= i < |es| ==> 1 <= |es[i]| <= 7
    ensures Histogram(Blank(n), es).Success?
    ensures Sum(Histogram(Blank(n), es).value) == |es|
  {
    var g := Blank(n);
    forall i | 0 <= i < |es|
      ensures Counted(g, es[i]) && HasBreaker(g, es[i]).Success?
    {
      var e := es[i];
      assert forall c :: c in e ==> g.IsValid(c);
      assert forall j :: 0 <= j < |e| ==> g.IsEmpty(e[j]);
      HasBreakerMeaning(g, e);
      EmptyCountMeaning(g, e);
    }
    HistogramDefined(g, es);
    HistogramTotal(g, es);
  }

  /** For the generated lines of width n, an empty board puts every line
      in a bucket. */
  lemma GeneratedBlankTotal(n: int, es: seq<Edge>)
    requires n > 0 && IsEdgeList(n, es)
    ensures Histogram(Blank(n), es).Success?
    ensures Sum(Histogram(Blank(n), es).value) == |es|
  {
    GeneratedEdgesFit(Blank(n), es);
    forall i | 0 <= i < |es|
      ensures 1 <= |es[i]| <= 7
    {
      EdgeProperties.EdgeLengths(n, es[i]);
    }
    BlankBoardTotal(n, es);
  }

  // ---------------------------------------------------------------------
  // The potential
  // ---------------------------------------------------------------------

  function Pow2(k: nat): (p: nat)
    ensures p >= 1
  {
    if k == 0 then 1 else 2 * Pow2(k - 1)
  }

  /** The weight of bucket k, that is of (k+1)-lines: 2^-k. */
  function BucketWeight(k: nat): real {
    1.0 / (Pow2(k) as real)
  }

  /** The potential of the first m buckets: the sum over l = 1..m of
      h[l-1] * 2^-(l-1). */
  function PartialPotential(h: seq<int>, m: nat): real
    requires m <= |h|
  {
    if m == 0 then 0.0 else PartialPotential(h, m - 1) + (h[m - 1] as real) * BucketWeight(m - 1)
  }

  /** 64 times the potential, as an integer: the sum of x_l * 2^(7-l). */
  function Scaled(h: seq<int>): int
    requires |h| == 7
  {
    64 * h[0] + 32 * h[1] + 16 * h[2] + 8 * h[3] + 4 * h[4] + 2 * h[5] + h[6]
  }

  /** The real-valued potential is the scaled integer divided by 64. */
  lemma PotentialScaled(h: seq<int>)
    requires |h| == 7
    ensures 64.0 * PartialPotential(h, 7) == Scaled(h) as real
  {
    assert Pow2(0) == 1 && Pow2(1) == 2 && Pow2(2) == 4 && Pow2(3) == 8;
    assert Pow2(4) == 16 && Pow2(5) == 32 && Pow2(6) == 64;
    assert PartialPotential(h, 1) == h[0] as real;
    assert PartialPotential(h, 2) == PartialPotential(h, 1) + (h[1] as real) / 2.0;
    assert PartialPotential(h, 3) == PartialPotential(h, 2) + (h[2] as real) / 4.0;
    assert PartialPotential(h, 4) == PartialPotential(h, 3) + (h[3] as real) / 8.0;
    assert PartialPotential(h, 5) == PartialPotential(h, 4) + (h[4] as real) / 16.0;
    assert PartialPotential(h, 6) == PartialPotential(h, 5) + (h[5] as real) / 32.0;
    assert PartialPotential(h, 7) == PartialPotential(h, 6) + (h[6] as real) / 64.0;
  }

  /** With non-negative buckets the potential is at least 0, and it is
      positive as soon as one bucket is. */
  lemma PotentialSign(h: seq<int>)
    requires |h| == 7 && forall k :: 0 <= k < 7 ==> h[k] >= 0
    ensures PartialPotential(h, 7) >= 0.0
    ensures Sum(h) > 0 ==> PartialPotential(h, 7) > 0.0
    ensures Scaled(h) >= Sum(h)
  {
    PotentialScaled(h);
  }

  /** The certificate test: the potential is strictly below 1 exactly when
      the scaled sum is below 64. */
  lemma CertificateScaled(h: seq<int>)
    requires |h| == 7
    ensures PartialPotential(h, 7) < 1.0 <==> Scaled(h) < 64
  {
    PotentialScaled(h);
  }

  /** A blank board with at least one generated line has positive potential. */
  lemma BlankPotentialPositive(n: int, es: seq<Edge>)
    requires n > 0 && IsEdgeList(n, es) && |es| > 0
    ensures Histogram(Blank(n), es).Success?
    ensures PartialPotential(Histogram(Blank(n), es).value, 7) > 0.0
  {
    GeneratedBlankTotal(n, es);
    HistogramTotal(Blank(n), es);
    PotentialSign(Histogram(Blank(n), es).value);
  }

  // ---------------------------------------------------------------------
  // The potential line by line, and a Breaker move
  // ---------------------------------------------------------------------

  /** What one line adds to the scaled potential: 2^(7-l) for a counted
      l-line, nothing otherwise. */
  function Weight(g: Grid, e: Edge): (w: nat)
    requires g.Wf()
    ensures w > 0 <==> Counted(g, e)
  {
    if Counted(g, e) then Pow2(7 - EmptyCount(g, e)) else 0
  }

  function WeightSum(g: Grid, es: seq<Edge>): int
    requires g.Wf()
    decreases |es|
  {
    if |es| == 0 then 0 else WeightSum(g, es[..|es| - 1]) + Weight(g, es[|es| - 1])
  }

  /** The scaled potential is the sum of the weights of the lines. */
  lemma {:induction false} ScaledIsWeightSum(g: Grid, es: seq<Edge>)
    requires g.Wf() && Histogram(g, es).Success?
    ensures Scaled(Histogram(g, es).value) == WeightSum(g, es)
    decreases |es|
  {
    if |es| > 0 {
      var init, e := es[..|es| - 1], es[|es| - 1];
      HistogramStep(g, es);
      ScaledIsWeightSum(g, init);
      if Counted(g, e) {
        var k := EmptyCount(g, e);
        assert Pow2(0) == 1 && Pow2(1) == 2 && Pow2(2) == 4 && Pow2(3) == 8;
        assert Pow2(4) == 16 && Pow2(5) == 32 && Pow2(6) == 64;
      }
    }
  }

  /** Writing Breaker's mark on an empty cell leaves every line avoiding
      that cell as it was and turns every line through it dead. */
  lemma {:induction false} BreakerMoveOnLine(g: Grid, c: Cell, e: Edge)
    requires g.Wf() && g.IsEmpty(c)
    requires forall d :: d in e ==> g.IsValid(d)
    ensures c !in e ==> HasBreaker(g.With(c, CellState.Breaker), e) == HasBreaker(g, e)
    ensures c !in e ==> EmptyCount(g.With(c, CellState.Breaker), e) == EmptyCount(g, e)
    ensures c in e ==> HasBreaker(g.With(c, CellState.Breaker), e) == Success(true)
    decreases |e|
  {
    if |e| > 0 {
      var after := g.With(c, CellState.Breaker);
      GetAfterWith(g, c, CellState.Breaker, e[0]);
      assert forall d :: d in e[1..] ==> d in e;
      BreakerMoveOnLine(g, c, e[1..]);
      assert c in e <==> c == e[0] || c in e[1..];
    }
  }

  lemma BreakerMoveWeight(g: Grid, c: Cell, e: Edge)
    requires g.Wf() && g.IsEmpty(c)
    requires forall d :: d in e ==> g.IsValid(d)
    ensures Weight(g.With(c, CellState.Breaker), e) == if c in e then 0 else Weight(g, e)
  {
    BreakerMoveOnLine(g, c, e);
  }

  lemma {:induction false} BreakerMoveWeights(g: Grid, c: Cell, es: seq<Edge>)
    requires g.Wf() && g.IsEmpty(c) && EdgesFit(g, es)
    ensures WeightSum(g.With(c, CellState.Breaker), es) <= WeightSum(g, es)
    ensures (exists e :: e in es && c in e && Counted(g, e)) ==>
      WeightSum(g.With(c, CellState.Breaker), es) < WeightSum(g, es)
    decreases |es|
  {
    if |es| > 0 {
      var after := g.With(c, CellState.Breaker);
      var init, e := es[..|es| - 1], es[|es| - 1];
      assert es == init + [e];
      assert EdgesFit(g, init);
      BreakerMoveWeights(g, c, init);
      BreakerMoveWeight(g, c, e);
      assert WeightSum(after, es) == WeightSum(after, init) + Weight(after, e);
      assert WeightSum(g, es) == WeightSum(g, init) + Weight(g, e);
      if x :| x in es && c in x && Counted(g, x) {
        if x != e {
          assert x in init;
        }
      }
    }
  }

  /** Breaker's mark on an empty cell never raises the potential, and
      lowers it when some counted line passes through the cell. */
  lemma BreakerMoveLowers(g: Grid, c: Cell, es: seq<Edge>)
    requires g.Wf() && g.IsEmpty(c) && EdgesFit(g, es)
    ensures Histogram(g, es).Success? && Histogram(g.With(c, CellState.Breaker), es).Success?
    ensures Scaled(Histogram(g.With(c, CellState.Breaker), es).value) <= Scaled(Histogram(g, es).value)
    ensures (exists e :: e in es && c in e && Counted(g, e)) ==>
      Scaled(Histogram(g.With(c, CellState.Breaker), es).value) < Scaled(Histogram(g, es).value)
  {
    var after := g.With(c, CellState.Breaker);
    forall i | 0 <= i < |es|
      ensures HasBreaker(g, es[i]).Success? && HasBreaker(after, es[i]).Success?
    {
      assert es[i] in es;
      HasBreakerMeaning(g, es[i]);
      HasBreakerMeaning(after, es[i]);
    }
    HistogramDefined(g, es);
    HistogramDefined(after, es);
    ScaledIsWeightSum(g, es);
    ScaledIsWeightSum(after, es);
    BreakerMoveWeights(g, c, es);
  }

  // ---------------------------------------------------------------------
  // The calculator object
  // ---------------------------------------------------------------------

  /** Holds the board and the lines; every operation only reads them. */
  class PotentialCalculator {
    const board: Board
    const edges: seq<Edge>

    ghost predicate Valid()
      reads this, board
    {
      board.Valid()
    }

    constructor (board: Board, edges: seq<Edge>)
      requires board.Valid()
      ensures Valid() && this.board == board && this.edges == edges
    {
      this.board := board;
      this.edges := edges;
    }

    method CountEmptyCells(e: Edge) returns (count: int)
      requires Valid()
      ensures count == EmptyCount(board.Value(), e)
    {
      count := 0;
      var g := board.Value();
      for i := 0 to |e|
        invariant count + EmptyCount(g, e[i..]) == EmptyCount(g, e)
      {
        assert e[i..][1..] == e[i + 1..];
        if g.IsEmpty(e[i]) {
          count := count + 1;
        }
      }
    }

    method HasBreakerCell(e: Edge) returns (r: Result<bool, Error>)
      requires Valid()
      ensures r == HasBreaker(board.Value(), e)
    {
      var g := board.Value();
      for i := 0 to |e|
        invariant HasBreaker(g, e[i..]) == HasBreaker(g, e)
      {
        assert e[i..][1..] == e[i + 1..];
        var s := g.Get(e[i]);
        if s.Failure? {
          return Failure(s.error);
        }
        if s.value == CellState.Breaker {
          return Success(true);
        }
      }
      return Success(false);
    }

    /** The scan of one more line, as compute_histogram's loop body does it. */
    static lemma HistogramExtend(g: Grid, es: seq<Edge>, i: nat)
      requires g.Wf() && i < |es| && Histogram(g, es[..i]).Success? && HasBreaker(g, es[i]).Success?
      ensures Histogram(g, es[..i + 1]) ==
        var h, k := Histogram(g, es[..i]).value, EmptyCount(g, es[i]);
        if !HasBreaker(g, es[i]).value && 1 <= k <= 7 then Success(h[k - 1 := h[k - 1] + 1]) else Success(h)
    {
      assert es[..i + 1][..i] == es[..i];
    }

    /** A line whose scan fails fails the whole histogram. */
    static lemma HistogramFailsAt(g: Grid, es: seq<Edge>, i: nat)
      requires g.Wf() && i < |es| && HasBreaker(g, es[i]).Failure?
      ensures Histogram(g, es).Failure?
    {
      HistogramDefined(g, es);
    }

    method ComputeHistogram() returns (r: Result<seq<int>, Error>)
      requires Valid()
      ensures r == Histogram(board.Value(), edges)
    {
      var g := board.Value();
      var hist := new int[7](_ => 0);
      assert hist[..] == seq(7, _ => 0) && edges[..0] == [];
      for i := 0 to |edges|
        invariant board.Value() == g
        invariant Histogram(g, edges[..i]) == Success(hist[..])
      {
        var dead := HasBreakerCell(edges[i]);
        if dead.Failure? {
          assert HasBreaker(g, edges[i]).Failure?;
          HistogramFailsAt(g, edges, i);
          assert Histogram(g, edges) == Failure(OutOfRange);
          return Failure(OutOfRange);
        }
        HistogramExtend(g, edges, i);
        if !dead.value {
          var k := CountEmptyCells(edges[i]);
          if 1 <= k <= 7 {
            hist[k - 1] := hist[k - 1] + 1;
          }
        }
      }
      assert edges[..|edges|] == edges;
      return Success(hist[..]);
    }

    /** The summing loop of compute_potential: x_l * 2^-(l-1) for l = 1..7. */
    static method WeightedSum(hist: seq<int>) returns (pot: real)
      requires |hist| == 7
      ensures pot == PartialPotential(hist, 7)
    {
      pot := 0.0;
      for l := 1 to 8
        invariant pot == PartialPotential(hist, l - 1)
      {
        var weight := BucketWeight(l - 1);
        pot := pot + (hist[l - 1] as real) * weight;
      }
    }

    /** PotentialCalculator::compute_potential, in exact arithmetic. */
    method ComputePotential() returns (r: Result<real, Error>)
      requires Valid()
      ensures r.Success? <==> Histogram(board.Value(), edges).Success?
      ensures r.Failure? ==> r.error == OutOfRange
      ensures r.Success? ==> r.value == PartialPotential(Histogram(board.Value(), edges).value, 7)
      ensures r.Success? ==> 64.0 * r.value == Scaled(Histogram(board.Value(), edges).value) as real
    {
      var hr := ComputeHistogram();
      if hr.Failure? {
        return Failure(hr.error);
      }
      var hist := hr.value;
      var pot := WeightedSum(hist);
      PotentialScaled(hist);
      return Success(pot);
    }

    /** PotentialCalculator::has_breaker_certificate: potential strictly
        below 1. */
    method HasBreakerCertificate() returns (r: Result<bool, Error>)
      requires Valid()
      ensures r.Success? <==> Histogram(board.Value(), edges).Success?
      ensures r.Failure? ==> r.error == OutOfRange
      ensures r.Success? ==> (r.value <==> Scaled(Histogram(board.Value(), edges).value) < 64)
    {
      var pot := ComputePotential();
      if pot.Failure? {
        return Failure(pot.error);
      }
      CertificateScaled(Histogram(board.Value(), edges).value);
      return Success(pot.value < 1.0);
    }
  }
}
