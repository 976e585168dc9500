/** Windowed minimum, maximum, mean, mean square and least-squares slope, over exact reals. */
module Statistics {
  import opened Prelude
  import opened Crossings

  datatype Window = All | Between(start: real, stop: real)

  predicate InWindow(w: Window, x: real) {
    w.Between? ==> w.start <= x <= w.stop
  }

  /** The selected sample indices, in order. */
  function Selected(axis: seq<real>, w: Window, n: nat): (indices: seq<nat>)
    requires n <= |axis|
    ensures forall k :: 0 <= k < |indices| ==> indices[k] < n && InWindow(w, axis[indices[k]])
    ensures forall j, k :: 0 <= j < k < |indices| ==> indices[j] < indices[k]
    ensures forall i :: 0 <= i < n && InWindow(w, axis[i]) ==> i in indices
  {
    if n == 0 then [] else Selected(axis, w, n - 1) + if InWindow(w, axis[n - 1]) then [n - 1] else []
  }

  function At(xs: seq<real>, indices: seq<nat>): (ys: seq<real>)
    requires forall k :: 0 <= k < |indices| ==> indices[k] < |xs|
    ensures |ys| == |indices| && forall k :: 0 <= k < |ys| ==> ys[k] == xs[indices[k]]
  {
    seq(|indices|, k requires 0 <= k < |indices| => xs[indices[k]])
  }

  // Sums.

  function Sum(xs: seq<real>): real {
    if xs == [] then 0.0 else Sum(xs[..|xs| - 1]) + xs[|xs| - 1]
  }

  /** Sum of (x - a)(y - b). */
  function CrossSum(xs: seq<real>, ys: seq<real>, a: real, b: real): real
    requires |xs| == |ys|
  {
    if xs == [] then 0.0
    else
      var n := |xs| - 1;
      CrossSum(xs[..n], ys[..n], a, b) + Term(xs[n], ys[n], a, b)
  }

  function Term(x: real, y: real, a: real, b: real): real {
    Mul(x - a, y - b)
  }

  /** A product under a name of its own, so that sign facts about squares stay facts about one term. */
  function Mul(x: real, y: real): real {
    x * y
  }

  function Mean(xs: seq<real>): real
    requires xs != []
  {
    Sum(xs) / (|xs| as real)
  }

  function MeanSquare(xs: seq<real>): real
    requires xs != []
  {
    CrossSum(xs, xs, 0.0, 0.0) / (|xs| as real)
  }

  /** The sum of squared residuals of the line y = intercept + slope x. */
  function Residual(xs: seq<real>, ys: seq<real>, slope: real, intercept: real): real
    requires |xs| == |ys|
  {
    if xs == [] then 0.0
    else
      var n := |xs| - 1;
      Residual(xs[..n], ys[..n], slope, intercept) + SquaredError(xs[n], ys[n], slope, intercept)
  }

  function SquaredError(x: real, y: real, slope: real, intercept: real): real {
    var e := y - (intercept + slope * x);
    Mul(e, e)
  }

  datatype Measured = Value(value: real, location: Option<real>) | NotFound | NonFinite

  datatype Kind = Minimum | Maximum | Average | SquareMean | Slope

  function Least(xs: seq<real>): (k: nat)
    requires xs != []
    ensures k < |xs| && (forall i :: 0 <= i < |xs| ==> xs[k] <= xs[i]) && (forall i :: 0 <= i < k ==> xs[k] < xs[i])
  {
    if |xs| == 1 then 0
    else
      var n := |xs| - 1;
      var k := Least(xs[..n]);
      if xs[n] < xs[k] then n else k
  }

  function Greatest(xs: seq<real>): (k: nat)
    requires xs != []
    ensures k < |xs| && (forall i :: 0 <= i < |xs| ==> xs[i] <= xs[k]) && (forall i :: 0 <= i < k ==> xs[i] < xs[k])
  {
    if |xs| == 1 then 0
    else
      var n := |xs| - 1;
      var k := Greatest(xs[..n]);
      if xs[k] < xs[n] then n else k
  }

  function SlopeOf(xs: seq<real>, ys: seq<real>): real
    requires |xs| == |ys| && xs != [] && CrossSum(xs, xs, Mean(xs), Mean(xs)) != 0.0
  {
    CrossSum(xs, ys, Mean(xs), Mean(ys)) / CrossSum(xs, xs, Mean(xs), Mean(xs))
  }

  /** rms is reported through its square. */
  function Measure(axis: seq<real>, values: seq<real>, w: Window, kind: Kind): Measured
    requires |axis| == |values|
  {
    var indices := Selected(axis, w, |axis|);
    var xs, ys := At(axis, indices), At(values, indices);
    if indices == [] then NotFound
    else match kind
      case Minimum => Value(ys[Least(ys)], Some(xs[Least(ys)]))
      case Maximum => Value(ys[Greatest(ys)], Some(xs[Greatest(ys)]))
      case Average => Value(Mean(ys), None)
      case SquareMean => Value(MeanSquare(ys), None)
      case Slope =>
        if |indices| < 2 then NotFound
        else if CrossSum(xs, xs, Mean(xs), Mean(xs)) == 0.0 then NonFinite
        else Value(SlopeOf(xs, ys), None)
  }

  // Polynomial facts over the reals.

  lemma ProductSign(x: real, y: real)
    ensures (x > 0.0 && y > 0.0) || (x < 0.0 && y < 0.0) ==> Mul(x, y) > 0.0
    ensures x == 0.0 || y == 0.0 ==> Mul(x, y) == 0.0
  {
  }

  lemma Square(x: real)
    ensures Mul(x, x) >= 0.0
    ensures x != 0.0 ==> Mul(x, x) > 0.0
  {
    hide Mul;
    ProductSign(x, x);
  }

  function Scaled(k: real, x: real): real {
    Mul(k, Mul(x, x))
  }

  lemma ScaledSquare(k: real, x: real)
    requires k > 0.0
    ensures Scaled(k, x) >= 0.0
    ensures x != 0.0 ==> Scaled(k, x) > 0.0
  {
    hide Mul;
    ProductSign(x, x);
    ProductSign(k, Mul(x, x));
  }

  lemma DivideBounds(sum: real, n: real, low: real, high: real)
    requires n > 0.0 && low * n <= sum <= high * n
    ensures low <= sum / n <= high
  {
    var q := sum / n;
    assert q * n == sum;
    assert (q - low) * n >= 0.0 && (high - q) * n >= 0.0;
    NonNegativeFactor(q - low, n);
    NonNegativeFactor(high - q, n);
  }

  lemma NonNegativeFactor(x: real, n: real)
    requires n > 0.0 && x * n >= 0.0
    ensures x >= 0.0
  {
  }

  /** A cross sum with centres moved by c and d, from the sums around the old centres. */
  function Shifted(cs: real, sx: real, sy: real, m: real, a: real, b: real, c: real, d: real): real {
    cs - d * (sx - m * a) - c * (sy - m * b) + m * (c * d)
  }

  lemma ShiftStep(cs: real, sx: real, sy: real, m: real, x: real, y: real, a: real, b: real, c: real, d: real)
    ensures Shifted(cs, sx, sy, m, a, b, c, d) + Term(x, y, a + c, b + d) ==
            Shifted(cs + Term(x, y, a, b), sx + x, sy + y, m + 1.0, a, b, c, d)
  {
  }

  /** The residual of the line through (a, b + offset) with the given slope, from sums around (a, b). */
  function Expanded(cyy: real, cxy: real, cxx: real, sx: real, sy: real, m: real, a: real, b: real, slope: real, offset: real): real {
    cyy - 2.0 * slope * cxy + slope * slope * cxx
    - 2.0 * offset * ((sy - m * b) - slope * (sx - m * a)) + m * (offset * offset)
  }

  function Intercept(a: real, b: real, slope: real, offset: real): real {
    b + offset - slope * a
  }

  lemma ResidualStep(cyy: real, cxy: real, cxx: real, sx: real, sy: real, m: real, x: real, y: real, a: real, b: real, slope: real, offset: real)
    ensures Expanded(cyy, cxy, cxx, sx, sy, m, a, b, slope, offset) + SquaredError(x, y, slope, Intercept(a, b, slope, offset)) ==
            Expanded(cyy + Term(y, y, b, b), cxy + Term(x, y, a, b), cxx + Term(x, x, a, a), sx + x, sy + y, m + 1.0, a, b, slope, offset)
  {
  }

  lemma NothingToExpand(a: real, b: real, c: real, d: real)
    ensures Shifted(0.0, 0.0, 0.0, 0.0, a, b, c, d) == 0.0
    ensures Expanded(0.0, 0.0, 0.0, 0.0, 0.0, 0.0, a, b, c, d) == 0.0
  {
  }

  lemma QuadraticGap(d: real, p: real, best: real, slope: real)
    requires best * d == p
    ensures -2.0 * slope * p + slope * slope * d == -2.0 * best * p + best * best * d + d * ((slope - best) * (slope - best))
  {
  }

  // Facts about sums.

  lemma {:induction false} SumBounds(xs: seq<real>, low: real, high: real)
    requires forall i :: 0 <= i < |xs| ==> low <= xs[i] <= high
    ensures low * (|xs| as real) <= Sum(xs) <= high * (|xs| as real)
  {
    if xs != [] {
      var n := |xs| - 1;
      SumBounds(xs[..n], low, high);
      assert |xs| as real == n as real + 1.0;
      assert low * (n as real + 1.0) == low * (n as real) + low;
      assert high * (n as real + 1.0) == high * (n as real) + high;
    }
  }

  /** The mean lies between the minimum and the maximum. */
  lemma MeanBetween(xs: seq<real>)
    requires xs != []
    ensures xs[Least(xs)] <= Mean(xs) <= xs[Greatest(xs)]
  {
    SumBounds(xs, xs[Least(xs)], xs[Greatest(xs)]);
    DivideBounds(Sum(xs), |xs| as real, xs[Least(xs)], xs[Greatest(xs)]);
  }

  /** Moving the two centres of a cross sum. */
  lemma {:induction false} CrossSumShift(xs: seq<real>, ys: seq<real>, a: real, b: real, c: real, d: real)
    requires |xs| == |ys|
    ensures CrossSum(xs, ys, a + c, b + d) == Shifted(CrossSum(xs, ys, a, b), Sum(xs), Sum(ys), |xs| as real, a, b, c, d)
  {
    hide Shifted, Term;
    if xs == [] {
      NothingToExpand(a, b, c, d);
    } else {
      var n := |xs| - 1;
      CrossSumShift(xs[..n], ys[..n], a, b, c, d);
      ShiftStep(CrossSum(xs[..n], ys[..n], a, b), Sum(xs[..n]), Sum(ys[..n]), n as real, xs[n], ys[n], a, b, c, d);
    }
  }

  lemma TermIsSquare(x: real, a: real)
    ensures Term(x, x, a, a) >= 0.0
    ensures x != a ==> Term(x, x, a, a) > 0.0
  {
    hide Mul;
    Square(x - a);
  }

  lemma SquaredErrorNonNegative(x: real, y: real, slope: real, intercept: real)
    ensures SquaredError(x, y, slope, intercept) >= 0.0
  {
    hide Mul;
    Square(y - (intercept + slope * x));
  }

  lemma {:induction false} SquaresNonNegative(xs: seq<real>, a: real)
    ensures CrossSum(xs, xs, a, a) >= 0.0
    ensures CrossSum(xs, xs, a, a) == 0.0 ==> forall i :: 0 <= i < |xs| ==> xs[i] == a
  {
    hide Term;
    if xs != [] {
      var n := |xs| - 1;
      SquaresNonNegative(xs[..n], a);
      TermIsSquare(xs[n], a);
      assert xs == xs[..n] + [xs[n]];
      assert CrossSum(xs[..n], xs[..n], a, a) == 0.0 ==> forall i :: 0 <= i < n ==> xs[..n][i] == a;
    }
  }

  lemma MeanCentres(xs: seq<real>)
    requires xs != []
    ensures Sum(xs) - (|xs| as real) * Mean(xs) == 0.0
  {
  }

  /** Mean squared is at most the mean square (rms squared). */
  lemma MeanSquaredAtMostMeanSquare(xs: seq<real>)
    requires xs != []
    ensures Mean(xs) * Mean(xs) <= MeanSquare(xs)
  {
    hide Shifted, Term;
    var m := Mean(xs);
    MeanCentres(xs);
    CrossSumShift(xs, xs, m, m, -m, -m);
    SquaresNonNegative(xs, m);
    assert m + -m == 0.0;
    MeanSquareGap(CrossSum(xs, xs, m, m), |xs| as real, m, Sum(xs));
  }

  lemma MeanSquareGap(centred: real, n: real, m: real, sum: real)
    requires n > 0.0 && centred >= 0.0 && sum - n * m == 0.0
    ensures m * m <= Shifted(centred, sum, sum, n, m, m, -m, -m) / n
  {
    var raw := Shifted(centred, sum, sum, n, m, m, -m, -m);
    assert raw == centred + n * (m * m);
    assert raw / n * n == raw;
    assert (raw / n - m * m) * n == centred;
    NonNegativeFactor(raw / n - m * m, n);
  }

  /** On a strictly increasing axis two samples are enough for a positive denominator. */
  lemma DenominatorPositive(xs: seq<real>)
    requires |xs| >= 2 && Increasing(xs)
    ensures CrossSum(xs, xs, Mean(xs), Mean(xs)) > 0.0
  {
    SquaresNonNegative(xs, Mean(xs));
    assert xs[0] < xs[1];
  }

  // Least squares.

  /** Residuals of any line, measured from a chosen centre. */
  lemma {:induction false} ResidualExpansion(xs: seq<real>, ys: seq<real>, a: real, b: real, slope: real, offset: real)
    requires |xs| == |ys|
    ensures Residual(xs, ys, slope, Intercept(a, b, slope, offset)) ==
            Expanded(CrossSum(ys, ys, b, b), CrossSum(xs, ys, a, b), CrossSum(xs, xs, a, a), Sum(xs), Sum(ys), |xs| as real, a, b, slope, offset)
  {
    hide Expanded, SquaredError, Term, Intercept;
    if xs == [] {
      NothingToExpand(a, b, slope, offset);
    } else {
      var n := |xs| - 1;
      var px, py := xs[..n], ys[..n];
      ResidualExpansion(px, py, a, b, slope, offset);
      ResidualStep(CrossSum(py, py, b, b), CrossSum(px, py, a, b), CrossSum(px, px, a, a), Sum(px), Sum(py), n as real,
                   xs[n], ys[n], a, b, slope, offset);
    }
  }

  /** The line through the means with the reported slope. */
  function BestIntercept(xs: seq<real>, ys: seq<real>): real
    requires |xs| == |ys| && xs != [] && CrossSum(xs, xs, Mean(xs), Mean(xs)) != 0.0
  {
    Intercept(Mean(xs), Mean(ys), SlopeOf(xs, ys), 0.0)
  }

  /** The residual of any line exceeds that of the reported one by a sum of two squares. */
  lemma ResidualGap(xs: seq<real>, ys: seq<real>, slope: real, offset: real)
    requires |xs| == |ys| && |xs| >= 2 && Increasing(xs)
    ensures CrossSum(xs, xs, Mean(xs), Mean(xs)) > 0.0
    ensures var best := SlopeOf(xs, ys);
            var d := CrossSum(xs, xs, Mean(xs), Mean(xs));
            Residual(xs, ys, slope, Intercept(Mean(xs), Mean(ys), slope, offset)) ==
            Residual(xs, ys, best, BestIntercept(xs, ys)) + Scaled(d, slope - best) + Scaled(|xs| as real, offset)
  {
    hide Scaled, Expanded, Intercept, Residual, CrossSum, Sum, Mean, SlopeOf;
    DenominatorPositive(xs);
    var a, b := Mean(xs), Mean(ys);
    MeanCentres(xs);
    MeanCentres(ys);
    ResidualExpansion(xs, ys, a, b, slope, offset);
    ResidualExpansion(xs, ys, a, b, SlopeOf(xs, ys), 0.0);
    SlopeIsRatio(xs, ys);
    GapOfExpansions(CrossSum(ys, ys, b, b), CrossSum(xs, ys, a, b), CrossSum(xs, xs, a, a), Sum(xs), Sum(ys), |xs| as real, a, b, slope, SlopeOf(xs, ys), offset);
  }

  lemma SlopeIsRatio(xs: seq<real>, ys: seq<real>)
    requires |xs| == |ys| && xs != [] && CrossSum(xs, xs, Mean(xs), Mean(xs)) > 0.0
    ensures SlopeOf(xs, ys) * CrossSum(xs, xs, Mean(xs), Mean(xs)) == CrossSum(xs, ys, Mean(xs), Mean(ys))
  {
    hide CrossSum, Mean;
    RatioTimes(CrossSum(xs, ys, Mean(xs), Mean(ys)), CrossSum(xs, xs, Mean(xs), Mean(xs)));
  }

  lemma RatioTimes(p: real, d: real)
    requires d != 0.0
    ensures p / d * d == p
  {
  }

  lemma GapOfExpansions(cyy: real, p: real, d: real, sx: real, sy: real, n: real, a: real, b: real, slope: real, best: real, offset: real)
    requires best * d == p && sx - n * a == 0.0 && sy - n * b == 0.0
    ensures Expanded(cyy, p, d, sx, sy, n, a, b, slope, offset) ==
            Expanded(cyy, p, d, sx, sy, n, a, b, best, 0.0) + Scaled(d, slope - best) + Scaled(n, offset)
  {
    QuadraticGap(d, p, best, slope);
  }

  /** The reported slope, with the intercept through the means, minimises the sum of squared residuals over all
      lines, and no other line does as well. */
  lemma SlopeIsLeastSquares(xs: seq<real>, ys: seq<real>, slope: real, intercept: real)
    requires |xs| == |ys| && |xs| >= 2 && Increasing(xs)
    ensures CrossSum(xs, xs, Mean(xs), Mean(xs)) > 0.0
    ensures Residual(xs, ys, SlopeOf(xs, ys), BestIntercept(xs, ys)) <= Residual(xs, ys, slope, intercept)
    ensures slope != SlopeOf(xs, ys) || intercept != BestIntercept(xs, ys) ==>
              Residual(xs, ys, SlopeOf(xs, ys), BestIntercept(xs, ys)) < Residual(xs, ys, slope, intercept)
    ensures BestIntercept(xs, ys) == Mean(ys) - SlopeOf(xs, ys) * Mean(xs)
  {
    hide Residual, CrossSum, SlopeOf, Mean, Scaled;
    var offset := intercept - Mean(ys) + slope * Mean(xs);
    assert intercept == Intercept(Mean(xs), Mean(ys), slope, offset);
    ResidualGap(xs, ys, slope, offset);
    ScaledSquare(CrossSum(xs, xs, Mean(xs), Mean(xs)), slope - SlopeOf(xs, ys));
    ScaledSquare(|xs| as real, offset);
  }

  lemma {:induction false} ExactLineHasNoResidual(xs: seq<real>, ys: seq<real>, slope: real, intercept: real)
    requires |xs| == |ys| && forall i :: 0 <= i < |xs| ==> ys[i] == intercept + slope * xs[i]
    ensures Residual(xs, ys, slope, intercept) == 0.0
  {
    if xs != [] {
      ExactLineHasNoResidual(xs[..|xs| - 1], ys[..|xs| - 1], slope, intercept);
    }
  }

  lemma {:induction false} ResidualNonNegative(xs: seq<real>, ys: seq<real>, slope: real, intercept: real)
    requires |xs| == |ys|
    ensures Residual(xs, ys, slope, intercept) >= 0.0
  {
    hide SquaredError;
    if xs != [] {
      var n := |xs| - 1;
      ResidualNonNegative(xs[..n], ys[..n], slope, intercept);
      SquaredErrorNonNegative(xs[n], ys[n], slope, intercept);
    }
  }

  /** The slope of any exact line is recovered. */
  lemma SlopeOfExactLine(xs: seq<real>, ys: seq<real>, slope: real, intercept: real)
    requires |xs| == |ys| && |xs| >= 2 && Increasing(xs)
    requires forall i :: 0 <= i < |xs| ==> ys[i] == intercept + slope * xs[i]
    ensures CrossSum(xs, xs, Mean(xs), Mean(xs)) > 0.0 && SlopeOf(xs, ys) == slope
  {
    SlopeIsLeastSquares(xs, ys, slope, intercept);
    ExactLineHasNoResidual(xs, ys, slope, intercept);
    ResidualNonNegative(xs, ys, SlopeOf(xs, ys), BestIntercept(xs, ys));
  }

  /** On a strictly increasing axis the slope measurement is undefined only for want of two samples. */
  lemma SlopeIsAlwaysFinite(axis: seq<real>, values: seq<real>, w: Window)
    requires |axis| == |values| && Increasing(axis)
    ensures Measure(axis, values, w, Slope) != NonFinite
    ensures Measure(axis, values, w, Slope) == NotFound <==> |Selected(axis, w, |axis|)| < 2
  {
    var indices := Selected(axis, w, |axis|);
    if |indices| >= 2 {
      var xs := At(axis, indices);
      assert Increasing(xs);
      DenominatorPositive(xs);
    }
  }

  /** The first selected sample at which the value is attained. */
  ghost predicate FirstAttained(axis: seq<real>, values: seq<real>, w: Window, m: Measured, k: int)
    requires |axis| == |values|
  {
    && m.Value? && 0 <= k < |axis| && InWindow(w, axis[k]) && values[k] == m.value && m.location == Some(axis[k])
    && forall j :: 0 <= j < k && InWindow(w, axis[j]) ==> values[j] != m.value
  }

  lemma PositionOf(axis: seq<real>, w: Window, i: nat) returns (at: nat)
    requires i < |axis| && InWindow(w, axis[i])
    ensures at < |Selected(axis, w, |axis|)| && Selected(axis, w, |axis|)[at] == i
  {
    var indices := Selected(axis, w, |axis|);
    assert i in indices;
    at :| 0 <= at < |indices| && indices[at] == i;
  }

  /** The reported minimum (maximum) bounds every selected sample and is attained, first at the reported location. */
  lemma ExtremeIsAttained(axis: seq<real>, values: seq<real>, w: Window, low: Measured, high: Measured, i: nat)
    requires |axis| == |values| && i < |axis| && InWindow(w, axis[i])
    requires low == Measure(axis, values, w, Minimum) && high == Measure(axis, values, w, Maximum)
    ensures low.Value? && high.Value? && low.value <= values[i] <= high.value
    ensures exists k :: FirstAttained(axis, values, w, low, k)
    ensures exists k :: FirstAttained(axis, values, w, high, k)
  {
    var at := PositionOf(axis, w, i);
    var ys := Windowed(axis, values, w);
    MeasureIs(axis, values, w);
    hide *;
    FirstIs(axis, values, w, low, Least(ys));
    FirstIs(axis, values, w, high, Greatest(ys));
  }

  /** The samples of the window. */
  function Windowed(axis: seq<real>, values: seq<real>, w: Window): (ys: seq<real>)
    requires |axis| == |values|
    ensures |ys| == |Selected(axis, w, |axis|)|
    ensures forall k :: 0 <= k < |ys| ==> ys[k] == values[Selected(axis, w, |axis|)[k]]
  {
    At(values, Selected(axis, w, |axis|))
  }

  lemma MeasureIs(axis: seq<real>, values: seq<real>, w: Window)
    requires |axis| == |values| && Selected(axis, w, |axis|) != []
    ensures var xs, ys := Windowed(axis, axis, w), Windowed(axis, values, w);
            && Measure(axis, values, w, Minimum) == Value(ys[Least(ys)], Some(xs[Least(ys)]))
            && Measure(axis, values, w, Maximum) == Value(ys[Greatest(ys)], Some(xs[Greatest(ys)]))
            && Measure(axis, values, w, Average) == Value(Mean(ys), None)
            && Measure(axis, values, w, SquareMean) == Value(MeanSquare(ys), None)
  {
    hide Selected, At, Least, Greatest, Mean, MeanSquare;
  }

  lemma SlopeIs(axis: seq<real>, values: seq<real>, w: Window)
    requires |axis| == |values|
    ensures var xs, ys := Windowed(axis, axis, w), Windowed(axis, values, w);
            |xs| >= 2 && CrossSum(xs, xs, Mean(xs), Mean(xs)) > 0.0 ==>
              Measure(axis, values, w, Slope) == Value(SlopeOf(xs, ys), None)
  {
    hide Selected, At, CrossSum, Mean, SlopeOf;
  }

  /** The first selected sample with the value is the first sample of the window with it. */
  lemma FirstIs(axis: seq<real>, values: seq<real>, w: Window, m: Measured, n: nat)
    requires |axis| == |values| && n < |Windowed(axis, values, w)|
    requires m == Value(Windowed(axis, values, w)[n], Some(Windowed(axis, axis, w)[n]))
    requires forall k :: 0 <= k < n ==> Windowed(axis, values, w)[k] != m.value
    ensures FirstAttained(axis, values, w, m, Selected(axis, w, |axis|)[n])
  {
    hide Selected, Windowed;
    var indices := Selected(axis, w, |axis|);
    forall j | 0 <= j < indices[n] && InWindow(w, axis[j])
      ensures values[j] != m.value
    {
      var k := PositionOf(axis, w, j);
      assert k < n && Windowed(axis, values, w)[k] == values[j];
    }
  }

  /** Over one window the mean lies between the extremes, and its square is at most the squared rms. */
  lemma MeasuresAreOrdered(axis: seq<real>, values: seq<real>, w: Window)
    requires |axis| == |values| && Measure(axis, values, w, Average).Value?
    ensures var low, mean, high, square := Measure(axis, values, w, Minimum), Measure(axis, values, w, Average),
                                           Measure(axis, values, w, Maximum), Measure(axis, values, w, SquareMean);
            && low.Value? && high.Value? && square.Value?
            && low.value <= mean.value <= high.value
            && mean.value * mean.value <= square.value
  {
    hide *;
    var ys := Windowed(axis, values, w);
    ValueNeedsSamples(axis, values, w);
    MeasureIs(axis, values, w);
    MeanBetween(ys);
    MeanSquaredAtMostMeanSquare(ys);
    SameSquare(Mean(ys), Measure(axis, values, w, Average).value);
  }

  lemma ValueNeedsSamples(axis: seq<real>, values: seq<real>, w: Window)
    requires |axis| == |values| && Measure(axis, values, w, Average).Value?
    ensures Selected(axis, w, |axis|) != []
  {
    hide Selected, Mean;
  }

  lemma SameSquare(a: real, b: real)
    requires a == b
    ensures a * a == b * b
  {
  }

  /** Samples of the window that lie on one line are measured to have its slope, whatever lies outside the window. */
  lemma LineIsMeasured(axis: seq<real>, values: seq<real>, w: Window, slope: real, intercept: real)
    requires |axis| == |values| && Increasing(axis) && |Selected(axis, w, |axis|)| >= 2
    requires forall i :: 0 <= i < |axis| && InWindow(w, axis[i]) ==> values[i] == intercept + slope * axis[i]
    ensures Measure(axis, values, w, Slope) == Value(slope, None)
  {
    hide *;
    IncreasingWindow(axis, w);
    OnTheLine(axis, values, w, slope, intercept);
    SlopeOfExactLine(Windowed(axis, axis, w), Windowed(axis, values, w), slope, intercept);
    SlopeIs(axis, values, w);
  }

  lemma IncreasingWindow(axis: seq<real>, w: Window)
    requires Increasing(axis)
    ensures Increasing(Windowed(axis, axis, w))
  {
    hide Selected, At;
  }

  lemma OnTheLine(axis: seq<real>, values: seq<real>, w: Window, slope: real, intercept: real)
    requires |axis| == |values|
    requires forall i :: 0 <= i < |axis| && InWindow(w, axis[i]) ==> values[i] == intercept + slope * axis[i]
    ensures forall k :: 0 <= k < |Windowed(axis, axis, w)| ==>
              Windowed(axis, values, w)[k] == intercept + slope * Windowed(axis, axis, w)[k]
  {
    hide Selected, Windowed, InWindow;
    forall k | 0 <= k < |Windowed(axis, axis, w)|
      ensures Windowed(axis, values, w)[k] == intercept + slope * Windowed(axis, axis, w)[k]
    {
      var i := Selected(axis, w, |axis|)[k];
      assert InWindow(w, axis[i]) && values[i] == intercept + slope * axis[i];
    }
  }

  // What pins the mean and the rms.

  /** The selected samples are those of the closed window. */
  lemma WindowIsClosed(axis: seq<real>, w: Window, i: int)
    ensures i in Selected(axis, w, |axis|) <==> 0 <= i < |axis| && (w.Between? ==> w.start <= axis[i] <= w.stop)
  {
  }

  /** The squared rms is the squared mean plus the mean squared deviation, here times the number of samples. */
  lemma RmsIsMeanAndDeviation(axis: seq<real>, values: seq<real>, w: Window)
    requires |axis| == |values| && Measure(axis, values, w, Average).Value?
    ensures Measure(axis, values, w, SquareMean).Value?
    ensures var ys, mean, square := Windowed(axis, values, w), Measure(axis, values, w, Average).value, Measure(axis, values, w, SquareMean).value;
            Mul(|ys| as real, square) == Mul(|ys| as real, Mul(mean, mean)) + CrossSum(ys, ys, mean, mean)
  {
    hide *;
    var ys := Windowed(axis, values, w);
    ValueNeedsSamples(axis, values, w);
    MeasureIs(axis, values, w);
    SquaresDecompose(ys);
  }

  lemma SquaresDecompose(ys: seq<real>)
    requires ys != []
    ensures Mul(|ys| as real, MeanSquare(ys)) == Mul(|ys| as real, Mul(Mean(ys), Mean(ys))) + CrossSum(ys, ys, Mean(ys), Mean(ys))
  {
    hide Shifted, Term, CrossSum;
    var m := Mean(ys);
    MeanCentres(ys);
    CrossSumShift(ys, ys, m, m, -m, -m);
    assert m + -m == 0.0;
    MeanSquareTimes(ys);
    hide Mean;
    ShiftToZero(CrossSum(ys, ys, m, m), Sum(ys), |ys| as real, m);
  }

  lemma MeanSquareTimes(ys: seq<real>)
    requires ys != []
    ensures Mul(|ys| as real, MeanSquare(ys)) == CrossSum(ys, ys, 0.0, 0.0)
  {
    hide CrossSum;
    RatioTimes(CrossSum(ys, ys, 0.0, 0.0), |ys| as real);
  }

  lemma ShiftToZero(centred: real, sum: real, n: real, m: real)
    requires sum - n * m == 0.0
    ensures Shifted(centred, sum, sum, n, m, m, -m, -m) == centred + Mul(n, Mul(m, m))
  {
  }

  lemma {:induction false} SquareBounds(ys: seq<real>, low: real, high: real)
    requires forall i :: 0 <= i < |ys| ==> low <= Mul(ys[i], ys[i]) <= high
    ensures low * (|ys| as real) <= CrossSum(ys, ys, 0.0, 0.0) <= high * (|ys| as real)
  {
    hide Mul;
    if ys != [] {
      var n := |ys| - 1;
      SquareBounds(ys[..n], low, high);
      assert |ys| as real == n as real + 1.0;
      assert low * (n as real + 1.0) == low * (n as real) + low;
      assert high * (n as real + 1.0) == high * (n as real) + high;
      assert Term(ys[n], ys[n], 0.0, 0.0) == Mul(ys[n], ys[n]);
    }
  }

  /** Every sample of the window comes from the signal. */
  lemma FromTheWindow(axis: seq<real>, values: seq<real>, w: Window, k: nat) returns (i: nat)
    requires |axis| == |values| && k < |Windowed(axis, values, w)|
    ensures i < |axis| && (w.Between? ==> w.start <= axis[i] <= w.stop) && Windowed(axis, values, w)[k] == values[i]
  {
    i := Selected(axis, w, |axis|)[k];
  }

  lemma SquareMeanBounds(ys: seq<real>, low: real, high: real)
    requires ys != [] && forall i :: 0 <= i < |ys| ==> low <= Mul(ys[i], ys[i]) <= high
    ensures low <= MeanSquare(ys) <= high
  {
    hide Mul, CrossSum;
    SquareBounds(ys, low, high);
    DivideBounds(CrossSum(ys, ys, 0.0, 0.0), |ys| as real, low, high);
  }

  /** The squared rms lies within whatever bounds the squares of the selected samples. */
  lemma RmsIsBetweenSquares(axis: seq<real>, values: seq<real>, w: Window, low: real, high: real)
    requires |axis| == |values| && Measure(axis, values, w, Average).Value?
    requires forall i :: 0 <= i < |axis| && (w.Between? ==> w.start <= axis[i] <= w.stop) ==> low <= Mul(values[i], values[i]) <= high
    ensures Measure(axis, values, w, SquareMean).Value? && low <= Measure(axis, values, w, SquareMean).value <= high
  {
    hide *;
    var ys := Windowed(axis, values, w);
    ValueNeedsSamples(axis, values, w);
    MeasureIs(axis, values, w);
    forall k | 0 <= k < |ys|
      ensures low <= Mul(ys[k], ys[k]) <= high
    {
      var i := FromTheWindow(axis, values, w, k);
      assert low <= Mul(values[i], values[i]) <= high;
    }
    SquareMeanBounds(ys, low, high);
  }

  /** A constant signal has that mean, and its square as squared rms. */
  lemma ConstantIsMeasured(axis: seq<real>, values: seq<real>, w: Window, c: real)
    requires |axis| == |values| && Measure(axis, values, w, Average).Value?
    requires forall i :: 0 <= i < |axis| && (w.Between? ==> w.start <= axis[i] <= w.stop) ==> values[i] == c
    ensures Measure(axis, values, w, Average) == Value(c, None) && Measure(axis, values, w, SquareMean) == Value(Mul(c, c), None)
  {
    hide *;
    var ys := Windowed(axis, values, w);
    ValueNeedsSamples(axis, values, w);
    MeasureIs(axis, values, w);
    forall k | 0 <= k < |ys|
      ensures ys[k] == c
    {
      var i := FromTheWindow(axis, values, w, k);
    }
    MeanBetween(ys);
    SquareMeanBounds(ys, Mul(c, c), Mul(c, c));
  }

  // One more sample.

  lemma {:induction false} SelectedBefore(axis: seq<real>, longer: seq<real>, w: Window, n: nat)
    requires n <= |axis| <= |longer| && forall i :: 0 <= i < |axis| ==> longer[i] == axis[i]
    ensures Selected(longer, w, n) == Selected(axis, w, n)
  {
    hide InWindow;
    if n > 0 {
      SelectedBefore(axis, longer, w, n - 1);
    }
  }

  lemma SelectedNext(axis: seq<real>, w: Window, n: nat)
    requires n < |axis|
    ensures Selected(axis, w, n + 1) == Selected(axis, w, n) + if w.Between? ==> w.start <= axis[n] <= w.stop then [n] else []
  {
  }

  lemma WindowedNext(axis: seq<real>, values: seq<real>, w: Window, x: real, y: real)
    requires |axis| == |values|
    ensures Windowed(axis + [x], values + [y], w) ==
            Windowed(axis, values, w) + if w.Between? ==> w.start <= x <= w.stop then [y] else []
  {
    var longer := axis + [x];
    SelectedBefore(axis, longer, w, |axis|);
    SelectedNext(longer, w, |axis|);
    hide InWindow;
    PickedNext(values, values + [y], Selected(axis, w, |axis|));
    hide Selected;
    assert |longer| == |axis| + 1;
  }

  /** Picking the same indices of a longer list, and one index more. */
  lemma PickedNext(values: seq<real>, longer: seq<real>, indices: seq<nat>)
    requires |longer| == |values| + 1 && forall i :: 0 <= i < |values| ==> longer[i] == values[i]
    requires forall k :: 0 <= k < |indices| ==> indices[k] < |values|
    ensures At(longer, indices + []) == At(values, indices) + []
    ensures At(longer, indices + [|values|]) == At(values, indices) + [longer[|values|]]
  {
  }

  lemma TotalsNext(ys: seq<real>, y: real)
    ensures Sum(ys + [y]) == Sum(ys) + y && Sum([]) == 0.0
    ensures CrossSum(ys + [y], ys + [y], 0.0, 0.0) == CrossSum(ys, ys, 0.0, 0.0) + Mul(y, y) && CrossSum([], [], 0.0, 0.0) == 0.0
  {
    assert (ys + [y])[..|ys|] == ys;
  }

  /** The sum of the selected samples, as the mean tells it, and the sum of their squares, as the rms does. */
  function Total(m: Measured, n: nat): real {
    if m.Value? then Mul(n as real, m.value) else 0.0
  }

  lemma TotalsOf(ys: seq<real>)
    requires ys != []
    ensures Mul(|ys| as real, Mean(ys)) == Sum(ys) && Mul(|ys| as real, MeanSquare(ys)) == CrossSum(ys, ys, 0.0, 0.0)
  {
    hide CrossSum, Sum;
    MeanSquareTimes(ys);
    RatioTimes(Sum(ys), |ys| as real);
  }

  lemma TotalIs(v: real, n: nat)
    ensures Total(Value(v, None), n) == Mul(n as real, v) && Total(NotFound, n) == 0.0
  {
    hide Mul;
  }

  lemma TotalsAre(axis: seq<real>, values: seq<real>, w: Window)
    requires |axis| == |values|
    ensures var ys := Windowed(axis, values, w);
            && Total(Measure(axis, values, w, Average), |ys|) == Sum(ys)
            && Total(Measure(axis, values, w, SquareMean), |ys|) == CrossSum(ys, ys, 0.0, 0.0)
  {
    hide *;
    var ys := Windowed(axis, values, w);
    ValueExactlyWithSamples(axis, values, w, Average);
    ValueExactlyWithSamples(axis, values, w, SquareMean);
    if ys == [] {
      TotalsNext([], 0.0);
      TotalIs(0.0, 0);
    } else {
      MeasureIs(axis, values, w);
      TotalsOf(ys);
      TotalIs(Mean(ys), |ys|);
      TotalIs(MeanSquare(ys), |ys|);
    }
  }

  /** One more sample adds itself to the total and its square to the total of squares if it lies in the window, else nothing. */
  lemma OneMoreSample(axis: seq<real>, values: seq<real>, w: Window, x: real, y: real)
    requires |axis| == |values|
    ensures var n, inside := |Selected(axis, w, |axis|)|, w.Between? ==> w.start <= x <= w.stop;
            var n' := |Selected(axis + [x], w, |axis| + 1)|;
            && n' == (if inside then n + 1 else n)
            && Total(Measure(axis + [x], values + [y], w, Average), n') ==
               Total(Measure(axis, values, w, Average), n) + (if inside then y else 0.0)
            && Total(Measure(axis + [x], values + [y], w, SquareMean), n') ==
               Total(Measure(axis, values, w, SquareMean), n) + (if inside then Mul(y, y) else 0.0)
  {
    hide *;
    WindowedNext(axis, values, w, x, y);
    TotalsAre(axis, values, w);
    TotalsAre(axis + [x], values + [y], w);
    TotalsNext(Windowed(axis, values, w), y);
    assert Windowed(axis, values, w) + [] == Windowed(axis, values, w);
    assert |axis + [x]| == |axis| + 1;
  }

  /** No samples, no value. */
  lemma ValueExactlyWithSamples(axis: seq<real>, values: seq<real>, w: Window, kind: Kind)
    requires |axis| == |values| && kind != Slope
    ensures Measure(axis, values, w, kind).Value? <==> Selected(axis, w, |axis|) != []
    ensures !Measure(axis, values, w, kind).Value? ==> Measure(axis, values, w, kind) == NotFound
  {
    hide Selected, Mean, MeanSquare, At, Least, Greatest;
  }
}
