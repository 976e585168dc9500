/** Sampling a signal at a coordinate, and how it agrees with the reported crossings. */
module Sampling {
  import opened Crossings

  datatype Sample = OutOfDomain | Missing | Found(value: real)

  /** y0 + (y1 - y0) * ((at - x0) / (x1 - x0)), on the segment that ends at sample k. */
  function Interpolated(axis: seq<real>, values: seq<real>, k: nat, at: real): real
    requires 0 < k < |axis| && |axis| == |values| && axis[k - 1] != axis[k]
  {
    values[k - 1] + Part(values[k] - values[k - 1], (at - axis[k - 1]) / (axis[k] - axis[k - 1]))
  }

  /** A product under a name, so that its bounds stay facts about one term. */
  function Part(w: real, q: real): real {
    w * q
  }

  ghost predicate IsFirstReaching(axis: seq<real>, at: real, k: int) {
    0 <= k < |axis| && axis[k] >= at && forall i :: 0 <= i < k ==> axis[i] < at
  }

  /** The scan stops at the first sample at or beyond the coordinate. */
  method SampleAt(axis: seq<real>, values: seq<real>, at: real, linear: bool) returns (r: Sample)
    requires |axis| == |values| && |axis| > 0
    ensures r == OutOfDomain <==> !(axis[0] <= at <= axis[|axis| - 1])
    ensures forall k :: IsFirstReaching(axis, at, k) && axis[0] <= at <= axis[|axis| - 1] ==>
              r == if axis[k] == at then Found(values[k])
                   else if linear && k > 0 then Found(Interpolated(axis, values, k, at))
                   else Missing
  {
    if !(axis[0] <= at <= axis[|axis| - 1]) {
      return OutOfDomain;
    }
    for index := 0 to |axis|
      invariant forall i :: 0 <= i < index ==> axis[i] < at
    {
      if axis[index] == at {
        return Found(values[index]);
      }
      if axis[index] > at {
        if linear && index > 0 {
          return Found(Interpolated(axis, values, index, at));
        }
        return Missing;
      }
    }
    r := Missing;
  }

  lemma {:induction false} FirstReaching(axis: seq<real>, at: real) returns (k: nat)
    requires axis != [] && at <= axis[|axis| - 1]
    ensures IsFirstReaching(axis, at, k)
    decreases |axis|
  {
    var n := |axis| - 1;
    if n > 0 && at <= axis[n - 1] {
      k := FirstReaching(axis[..n], at);
      assert forall i :: 0 <= i < n ==> axis[..n][i] == axis[i];
    } else {
      k := n;
      if exists i :: 0 <= i < n && axis[i] >= at {
        var i :| 0 <= i < n && axis[i] >= at;
        k := FirstReaching(axis[..i + 1], at);
        assert forall j :: 0 <= j <= i ==> axis[..i + 1][j] == axis[j];
      }
    }
  }

  lemma PartOf(w: real, q: real)
    requires w >= 0.0 && 0.0 <= q <= 1.0
    ensures 0.0 <= Part(w, q) <= w && Part(-w, q) == -Part(w, q)
  {
    NonNegativeProduct(w, q);
    NonNegativeProduct(w, 1.0 - q);
    assert w * (1.0 - q) == w - w * q;
  }

  lemma NonNegativeProduct(a: real, b: real)
    requires a >= 0.0 && b >= 0.0
    ensures a * b >= 0.0
  {
  }

  lemma Between(y0: real, y1: real, q: real)
    requires 0.0 <= q <= 1.0
    ensures y0 <= y1 ==> y0 <= y0 + Part(y1 - y0, q) <= y1
    ensures y1 <= y0 ==> y1 <= y0 + Part(y1 - y0, q) <= y0
  {
    hide Part;
    if y0 <= y1 {
      PartOf(y1 - y0, q);
    } else {
      PartOf(y0 - y1, q);
      assert Part(y1 - y0, q) == Part(-(y0 - y1), q);
    }
  }

  lemma Fraction(x: real, width: real)
    requires 0.0 < x < width
    ensures 0.0 < x / width <= 1.0
  {
    FractionBounds(x, width, 1.0);
  }

  /** Linear sampling answers everywhere on the domain, exactly at samples and between the neighbours elsewhere. */
  lemma LinearSampleIsBetween(axis: seq<real>, values: seq<real>, at: real, k: nat)
    requires |axis| == |values| && |axis| > 0 && axis[0] <= at
    requires IsFirstReaching(axis, at, k)
    ensures axis[k] == at || k > 0
    ensures axis[k] != at ==>
              var y := Interpolated(axis, values, k, at);
              (values[k - 1] <= y <= values[k] || values[k] <= y <= values[k - 1])
  {
    if axis[k] != at {
      assert axis[k - 1] < at;
      Fraction(at - axis[k - 1], axis[k] - axis[k - 1]);
      Between(values[k - 1], values[k], (at - axis[k - 1]) / (axis[k] - axis[k - 1]));
    }
  }

  lemma SameInterpolant(axis: seq<real>, values: seq<real>, k: nat, at: real)
    requires 0 < k < |axis| && |axis| == |values| && axis[k - 1] != axis[k]
    ensures Interpolated(axis, values, k, at) == Interpolant(axis, values, k - 1, at)
  {
    Regroup(values[k] - values[k - 1], at - axis[k - 1], axis[k] - axis[k - 1]);
  }

  lemma Regroup(a: real, b: real, c: real)
    requires c != 0.0
    ensures a * (b / c) == a * b / c
  {
  }

  /** Sampling the signal at a reported crossing gives the threshold. */
  lemma SampleAtCrossing(axis: seq<real>, values: seq<real>, threshold: real, direction: Direction, found: seq<real>, c: nat) returns (k: nat)
    requires |axis| == |values| && Increasing(axis)
    requires PointsOf(found, axis, values, threshold, CrossingSegments(values, threshold, direction)) && c < |found|
    ensures |axis| > 0 && axis[0] <= found[c] <= axis[|axis| - 1] && IsFirstReaching(axis, found[c], k)
    ensures if axis[k] == found[c] then values[k] == threshold
            else k > 0 && Interpolated(axis, values, k, found[c]) == threshold
  {
    var i := CrossingSegments(values, threshold, direction)[c];
    PointOnSegment(axis, values, threshold, direction, i);
    k := i + 1;
    SameInterpolant(axis, values, k, found[c]);
    EndOfSegment(axis, values, i);
  }

  lemma EndOfSegment(axis: seq<real>, values: seq<real>, i: nat)
    requires |axis| == |values| && i + 1 < |axis| && axis[i] != axis[i + 1]
    ensures Interpolant(axis, values, i, axis[i + 1]) == values[i + 1]
  {
  }

  /** A linear sample lies on the chord of its segment. */
  lemma SampleIsOnChord(axis: seq<real>, values: seq<real>, k: nat, at: real)
    requires 0 < k < |axis| && |axis| == |values| && axis[k - 1] != axis[k]
    ensures (Interpolated(axis, values, k, at) - values[k - 1]) * (axis[k] - axis[k - 1]) ==
            (values[k] - values[k - 1]) * (at - axis[k - 1])
  {
    SameInterpolant(axis, values, k, at);
    Undivided((values[k] - values[k - 1]) * (at - axis[k - 1]), axis[k] - axis[k - 1]);
  }
}
