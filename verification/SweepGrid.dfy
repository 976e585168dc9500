/** The sweep axes an analysis request declares, rebuilt over exact reals. */
module SweepGrid {
  import opened Prelude
  import opened Crossings

  datatype GridRefusal = NegativeSpan | BoundsNotIncreasing | Unsupported

  const TOLERANCE := 0.00000000001

  function Max(a: real, b: real): real {
    if a < b then b else a
  }

  function Min(a: real, b: real): real {
    if a < b then a else b
  }

  function Abs(a: real): real {
    if a < 0.0 then -a else a
  }

  /** isclose with one tolerance, relative to the larger magnitude and absolute. */
  function Slack(a: real, b: real): real {
    Max(TOLERANCE * Max(Abs(a), Abs(b)), TOLERANCE)
  }

  predicate IsClose(a: real, b: real) {
    Abs(a - b) <= Slack(a, b)
  }

  /** Round half to even. */
  function Round(x: real): int {
    var down := x.Floor;
    var over := x - down as real;
    if over < 0.5 || (over == 0.5 && down % 2 == 0) then down else down + 1
  }

  function GridIntervals(span: real): Result<nat, GridRefusal> {
    if span < 0.0 then Err(NegativeSpan)
    else
      var nearest := Round(span);
      FloorMeans(span);
      if IsClose(span, nearest as real) then Ok(nearest) else Ok(span.Floor)
  }

  lemma FloorMeans(x: real)
    ensures x.Floor as real <= x < (x.Floor + 1) as real
    ensures x >= 0.0 ==> x.Floor >= 0
  {
  }

  /** No integer is nearer, and a tie goes to the even neighbour. */
  lemma RoundIsNearest(x: real, k: int)
    ensures Abs(x - Round(x) as real) <= Abs(x - k as real)
    ensures Abs(x - Round(x) as real) <= 0.5
    ensures k != Round(x) && Abs(x - Round(x) as real) == Abs(x - k as real) ==> Round(x) % 2 == 0
  {
    FloorMeans(x);
    if k <= x.Floor {
      assert k as real <= x.Floor as real;
    } else {
      assert k as real >= (x.Floor + 1) as real;
    }
  }

  /**
   * The interval count is the floor, except that a span short of the next integer by no more than
   * half a step (a tie going to the even integer) and no more than the tolerance counts as that integer.
   */
  lemma IntervalsExactly(span: real, n: nat)
    requires span >= 0.0
    ensures GridIntervals(span) == Ok(n) <==>
            if n as real <= span then span < (n + 1) as real && !(Round(span) == n + 1 && IsClose(span, (n + 1) as real))
            else n == Round(span) == span.Floor + 1 && IsClose(span, n as real)
  {
    FloorMeans(span);
    var f := span.Floor;
    if n as real <= span < (n + 1) as real {
      assert n == f;
    }
  }

  lemma IntervalBounds(span: real)
    requires span >= 0.0
    ensures GridIntervals(span).Ok?
    ensures span < (GridIntervals(span).value + 1) as real
    ensures GridIntervals(span).value as real - span <= Min(0.5, Slack(span, GridIntervals(span).value as real))
  {
    FloorMeans(span);
    RoundIsNearest(span, span.Floor);
  }

  // Axes.

  function Grid(start: real, step: real, n: nat): (axis: seq<real>)
    ensures |axis| == n && forall k :: 0 <= k < n ==> axis[k] == GridPoint(start, step, k)
  {
    seq(n, k requires 0 <= k < n => GridPoint(start, step, k))
  }

  function GridPoint(start: real, step: real, k: int): real {
    start + k as real * step
  }

  function DcAxis(start: real, stop: real, step: real): Result<seq<real>, GridRefusal> {
    if stop <= start || step <= 0.0 then Err(BoundsNotIncreasing)
    else
      match GridIntervals((stop - start) / step)
      case Err(e) => Err(e)
      case Ok(intervals) => Ok(Grid(start, step, intervals + 1))
  }

  /** The `lin` sweep. */
  function LinearAcAxis(start: real, stop: real, points: int): Result<seq<real>, GridRefusal> {
    if start <= 0.0 || stop <= start || points <= 0 then Err(Unsupported)
    else if points == 1 then Ok([start])
    else Ok(Grid(start, (stop - start) / (points - 1) as real, points))
  }

  lemma PointOrder(start: real, step: real, j: int, k: int)
    requires step > 0.0
    ensures j < k ==> GridPoint(start, step, j) < GridPoint(start, step, k)
    ensures GridPoint(start, step, 0) == start
  {
    if j < k {
      Scales(j as real, k as real, step);
    }
  }

  lemma Scales(x: real, y: real, step: real)
    requires step > 0.0 && x < y
    ensures x * step < y * step
  {
    assert (y - x) * step > 0.0;
  }

  lemma ScalesWeakly(x: real, y: real, step: real)
    requires step > 0.0 && x <= y
    ensures x * step <= y * step
  {
    if x < y {
      Scales(x, y, step);
    }
  }

  lemma GridIncreases(start: real, step: real, n: nat)
    requires step > 0.0
    ensures Increasing(Grid(start, step, n))
  {
    forall i, j | 0 <= i < j < n
      ensures Grid(start, step, n)[i] < Grid(start, step, n)[j]
    {
      PointOrder(start, step, i, j);
    }
  }

  lemma SpanTimesStep(width: real, step: real)
    requires step != 0.0
    ensures (width / step) * step == width
  {
  }

  lemma SpanIsPositive(width: real, step: real)
    requires width > 0.0 && step > 0.0
    ensures width / step > 0.0
  {
    PositiveQuotient(width, step);
  }

  lemma DcAxisUnfolds(start: real, stop: real, step: real, span: real)
    requires start < stop && step > 0.0 && span == (stop - start) / step && GridIntervals(span).Ok?
    ensures DcAxis(start, stop, step) == Ok(Grid(start, step, GridIntervals(span).value + 1))
  {
    hide GridIntervals, Grid;
  }

  /** The DC axis in terms of its span in steps and its interval count. */
  lemma DcAxisIs(start: real, stop: real, step: real) returns (span: real, n: nat)
    requires start < stop && step > 0.0
    ensures span == (stop - start) / step && span * step == stop - start && span > 0.0
    ensures GridIntervals(span) == Ok(n) && DcAxis(start, stop, step) == Ok(Grid(start, step, n + 1))
    ensures span < (n + 1) as real && n as real - span <= Min(0.5, Slack(span, n as real)) <= 0.5
  {
    hide *;
    span := (stop - start) / step;
    SpanIsPositive(stop - start, step);
    SpanTimesStep(stop - start, step);
    IntervalBounds(span);
    n := GridIntervals(span).value;
    DcAxisUnfolds(start, stop, step, span);
    MinIsLeft(0.5, Slack(span, n as real));
  }

  lemma MinIsLeft(a: real, b: real)
    ensures Min(a, b) <= a
  {
  }

  /** An accepted DC axis starts at `start`, climbs, stops short of the next grid point, and overshoots by a bounded sliver at most. */
  lemma DcAxisBounds(start: real, stop: real, step: real)
    ensures DcAxis(start, stop, step).Ok? <==> start < stop && step > 0.0
    ensures start < stop && step > 0.0 ==>
              var axis := DcAxis(start, stop, step).value;
              && |axis| > 0 && axis[0] == start && Increasing(axis)
              && axis[|axis| - 1] + step > stop
              && axis[|axis| - 1] - stop <= step * Min(0.5, 0.00000000001 * Max(1.0, (|axis| - 1) as real))
  {
    hide GridIntervals, Slack, Min, Increasing, GridPoint;
    if start < stop && step > 0.0 {
      var span, n := DcAxisIs(start, stop, step);
      GridIncreases(start, step, n + 1);
      PointOrder(start, step, 0, 0);
      OverSliver(span, n as real);
      LastPoint(start, stop, step, span, n, Min(0.5, 0.00000000001 * Max(1.0, n as real)));
    }
  }

  /** Beyond the span the slack is the tolerance, relative to the interval count. */
  lemma OverSliver(span: real, n: real)
    requires span > 0.0 && n >= 0.0 && n - span <= Min(0.5, Slack(span, n))
    ensures n - span <= Min(0.5, 0.00000000001 * Max(1.0, n))
  {
  }

  /** The last point lies beyond `stop` exactly when the span is rounded up to a close integer. */
  lemma DcAxisOvershoots(start: real, stop: real, step: real)
    requires start < stop && step > 0.0
    ensures DcAxis(start, stop, step).Ok? && DcAxis(start, stop, step).value != []
    ensures var axis, span := DcAxis(start, stop, step).value, (stop - start) / step;
            axis[|axis| - 1] > stop <==>
            Round(span) as real > span && Round(span) as real - span <= 0.00000000001 * (Round(span) as real)
  {
    hide DcAxis, GridIntervals, Slack, Min, IsClose, Round;
    var span, n := DcAxisIs(start, stop, step);
    RoundsUp(span, n);
    CloseAbove(span, Round(span));
    if n as real > span {
      Scales(span, n as real, step);
    } else {
      ScalesWeakly(n as real, span, step);
    }
  }

  /** For a number below an integer, closeness is the tolerance times the integer. */
  lemma CloseAbove(span: real, n: int)
    requires span > 0.0
    ensures n as real > span && IsClose(span, n as real) <==> n as real > span && n as real - span <= 0.00000000001 * (n as real)
  {
    if n as real > span {
      assert n >= 1;
    }
  }

  /** One step from 0 towards 0.999999999999 gives the points 0 and 1. */
  lemma OvershootExample()
    ensures DcAxis(0.0, 0.999999999999, 1.0) == Ok([0.0, 1.0])
  {
    var span := 0.999999999999;
    assert (span - 0.0) / 1.0 == span;
    FloorMeans(span);
    assert span.Floor == 0 && Round(span) == 1 && IsClose(span, 1.0);
    assert GridIntervals(span) == Ok(1);
    DcAxisUnfolds(0.0, span, 1.0, span);
    assert Grid(0.0, 1.0, 2) == [0.0, 1.0];
  }

  lemma RoundsUp(span: real, n: nat)
    requires span > 0.0 && GridIntervals(span) == Ok(n)
    ensures n as real > span <==> Round(span) as real > span && IsClose(span, Round(span) as real)
  {
    FloorMeans(span);
  }

  lemma LastPoint(start: real, stop: real, step: real, span: real, n: nat, slack: real)
    requires step > 0.0 && span * step == stop - start
    requires span < (n + 1) as real && n as real - span <= slack
    ensures GridPoint(start, step, n) + step > stop
    ensures GridPoint(start, step, n) - stop <= step * slack
  {
    Scales(span, (n + 1) as real, step);
    ScalesWeakly(n as real - span, slack, step);
    assert (n + 1) as real * step == n as real * step + step;
    assert (n as real - span) * step == n as real * step - span * step;
  }

  /** Every grid point up to `stop` is on the axis, and at most one lies beyond it. */
  lemma DcAxisComplete(start: real, stop: real, step: real, k: nat)
    requires start < stop && step > 0.0
    ensures DcAxis(start, stop, step).Ok?
    ensures GridPoint(start, step, k) <= stop ==> GridPoint(start, step, k) in DcAxis(start, stop, step).value
    ensures k + 1 < |DcAxis(start, stop, step).value| ==> GridPoint(start, step, k) <= stop
  {
    hide *;
    var span, n := DcAxisIs(start, stop, step);
    var axis := Grid(start, step, n + 1);
    LastPoint(start, stop, step, span, n, 0.5);
    NextPoint(start, step, n);
    if k <= n {
      assert axis[k] in axis;
      if k < n {
        NotBeyond(start, stop, step, span, n, k);
      }
    } else {
      PointOrder(start, step, n + 1, k);
    }
  }

  lemma NextPoint(start: real, step: real, n: int)
    ensures GridPoint(start, step, n + 1) == GridPoint(start, step, n) + step
  {
    assert (n + 1) as real * step == n as real * step + step;
  }

  lemma NotBeyond(start: real, stop: real, step: real, span: real, n: nat, k: nat)
    requires step > 0.0 && span * step == stop - start && k < n && n as real - span <= 0.5
    ensures GridPoint(start, step, k) <= stop
  {
    assert k as real <= span;
    ScalesWeakly(k as real, span, step);
  }

  /** The linear AC grid has the requested number of points, climbs from `start` and, past one point, ends exactly at `stop`. */
  lemma LinearAcAxisBounds(start: real, stop: real, points: int)
    ensures LinearAcAxis(start, stop, points).Ok? <==> 0.0 < start < stop && points > 0
    ensures 0.0 < start < stop && points > 0 ==>
              var axis := LinearAcAxis(start, stop, points).value;
              && |axis| == points && axis[0] == start && Increasing(axis)
              && (points > 1 ==> axis[points - 1] == stop)
  {
    if 0.0 < start < stop && points > 1 {
      var gaps := (points - 1) as real;
      var step := (stop - start) / gaps;
      SpanIsPositive(stop - start, gaps);
      SpanTimesStep(stop - start, gaps);
      GridIncreases(start, step, points);
      PointOrder(start, step, 0, 0);
      assert gaps * step == step * gaps;
    }
  }

  lemma WholeSpan(n: nat)
    ensures GridIntervals(n as real) == Ok(n)
  {
    FloorMeans(n as real);
  }

  /** Both builders agree: the linear grid is the DC grid of its own step. */
  lemma LinearGridIsDcGrid(start: real, stop: real, points: int)
    requires 0.0 < start < stop && points > 1
    ensures DcAxis(start, stop, (stop - start) / (points - 1) as real) == LinearAcAxis(start, stop, points)
  {
    var gaps := (points - 1) as real;
    var step := (stop - start) / gaps;
    SpanIsPositive(stop - start, gaps);
    QuotientOfQuotient(stop - start, gaps);
    WholeSpan(points - 1);
  }

  lemma QuotientOfQuotient(width: real, gaps: real)
    requires width != 0.0 && gaps != 0.0 && width / gaps != 0.0
    ensures width / (width / gaps) == gaps
  {
    SpanTimesStep(width, gaps);
    SpanTimesStep(width, width / gaps);
    var step := width / gaps;
    assert gaps * step == step * gaps == width;
    SameFactor(width / step, gaps, step);
  }

  lemma SameFactor(x: real, y: real, step: real)
    requires step != 0.0 && x * step == y * step
    ensures x == y
  {
    assert (x - y) * step == 0.0;
  }

  /** A stop that is a whole number of steps away is the last point. */
  lemma AlignedStopIsHit(start: real, step: real, k: nat)
    requires step > 0.0 && k > 0
    ensures DcAxis(start, GridPoint(start, step, k), step) == Ok(Grid(start, step, k + 1))
  {
    PointOrder(start, step, 0, k);
    var width := k as real * step;
    assert GridPoint(start, step, k) - start == width;
    SpanTimesStep(width, step);
    SameFactor(width / step, k as real, step);
    WholeSpan(k);
  }
}
