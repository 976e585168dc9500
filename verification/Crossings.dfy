/** Threshold crossings of a sampled signal, and the rise and fall times built on them. */
module Crossings {
  import opened Prelude

  datatype Direction = Rising | Falling | Either

  predicate Rises(y0: real, y1: real, threshold: real) {
    y0 < threshold <= y1 && y1 > y0
  }

  predicate Falls(y0: real, y1: real, threshold: real) {
    y0 > threshold >= y1 && y1 < y0
  }

  predicate Crosses(values: seq<real>, i: int, threshold: real, direction: Direction) {
    0 <= i < |values| - 1 &&
    ((direction != Falling && Rises(values[i], values[i + 1], threshold))
     || (direction != Rising && Falls(values[i], values[i + 1], threshold)))
  }

  /** Where the segment's interpolant meets the threshold. */
  function Point(axis: seq<real>, values: seq<real>, threshold: real, i: nat): real
    requires i + 1 < |axis| && i + 1 < |values| && values[i] != values[i + 1]
  {
    axis[i] + (threshold - values[i]) * (axis[i + 1] - axis[i]) / (values[i + 1] - values[i])
  }

  ghost predicate Increasing(axis: seq<real>) {
    forall i, j :: 0 <= i < j < |axis| ==> axis[i] < axis[j]
  }

  /** The raw-file reader's check that times strictly increase looks at neighbours only. */
  method TimesIncrease(times: seq<real>) returns (ok: bool)
    ensures ok <==> Increasing(times)
  {
    var i := 1;
    while i < |times|
      invariant 1 <= i && (|times| > 0 ==> i <= |times|)
      invariant forall j, k :: 0 <= j < k < i && k < |times| ==> times[j] < times[k]
    {
      if times[i] <= times[i - 1] {
        return false;
      }
      i := i + 1;
    }
    ok := true;
  }

  /** The crossing segments, in order: the indices i whose segment crosses. */
  function Segments(values: seq<real>, threshold: real, direction: Direction, n: nat): (segments: seq<nat>)
    ensures forall k :: 0 <= k < |segments| ==> segments[k] < n && Crosses(values, segments[k], threshold, direction)
    ensures forall j, k :: 0 <= j < k < |segments| ==> segments[j] < segments[k]
    ensures forall i :: 0 <= i < n && Crosses(values, i, threshold, direction) ==> i in segments
  {
    if n == 0 then []
    else
      Segments(values, threshold, direction, n - 1) + if Crosses(values, n - 1, threshold, direction) then [n - 1] else []
  }

  function CrossingSegments(values: seq<real>, threshold: real, direction: Direction): seq<nat> {
    Segments(values, threshold, direction, |values|)
  }

  /** The found points are those of the crossing segments, in order. */
  ghost predicate PointsOf(found: seq<real>, axis: seq<real>, values: seq<real>, threshold: real, segments: seq<nat>) {
    |found| == |segments| &&
    forall k :: 0 <= k < |found| ==>
      segments[k] + 1 < |axis| && segments[k] + 1 < |values| && values[segments[k]] != values[segments[k] + 1]
      && found[k] == Point(axis, values, threshold, segments[k])
  }

  lemma NoPoints(axis: seq<real>, values: seq<real>, threshold: real)
    ensures PointsOf([], axis, values, threshold, [])
  {
  }

  lemma AppendPoint(found: seq<real>, axis: seq<real>, values: seq<real>, threshold: real, segments: seq<nat>, i: nat)
    requires PointsOf(found, axis, values, threshold, segments)
    requires i + 1 < |axis| && i + 1 < |values| && values[i] != values[i + 1]
    ensures PointsOf(found + [Point(axis, values, threshold, i)], axis, values, threshold, segments + [i])
  {
  }

  method CrossingPoints(axis: seq<real>, values: seq<real>, threshold: real, direction: Direction) returns (found: seq<real>)
    requires |axis| == |values|
    ensures PointsOf(found, axis, values, threshold, CrossingSegments(values, threshold, direction))
  {
    hide Point, PointsOf;
    found := [];
    NoPoints(axis, values, threshold);
    var last := if |values| == 0 then 0 else |values| - 1;
    for i := 0 to last
      invariant PointsOf(found, axis, values, threshold, Segments(values, threshold, direction, i))
    {
      var y0, y1 := values[i], values[i + 1];
      var rising := y0 < threshold <= y1 && y1 > y0;
      var falling := y0 > threshold >= y1 && y1 < y0;
      if (direction != Falling && rising) || (direction != Rising && falling) {
        AppendPoint(found, axis, values, threshold, Segments(values, threshold, direction, i), i);
        found := found + [Point(axis, values, threshold, i)];
      } else {
        assert Segments(values, threshold, direction, i + 1) == Segments(values, threshold, direction, i);
      }
    }
    assert |values| > 0 ==> CrossingSegments(values, threshold, direction) == Segments(values, threshold, direction, last);
  }

  // One crossing per segment, on the segment, where the interpolant is the threshold.

  function Interpolant(axis: seq<real>, values: seq<real>, i: nat, x: real): real
    requires i + 1 < |axis| && i + 1 < |values| && axis[i] != axis[i + 1]
  {
    values[i] + (values[i + 1] - values[i]) * (x - axis[i]) / (axis[i + 1] - axis[i])
  }

  lemma FractionBounds(num: real, den: real, width: real)
    requires width > 0.0
    requires (den > 0.0 && 0.0 < num <= den) || (den < 0.0 && den <= num < 0.0)
    ensures 0.0 < num * width / den <= width
  {
    var q := num / den;
    assert q * den == num;
    assert 0.0 < q <= 1.0;
    assert num * width / den == q * width;
  }

  lemma PointOnSegment(axis: seq<real>, values: seq<real>, threshold: real, direction: Direction, i: nat)
    requires |axis| == |values| && Increasing(axis) && Crosses(values, i, threshold, direction)
    ensures axis[i] < Point(axis, values, threshold, i) <= axis[i + 1]
    ensures Interpolant(axis, values, i, Point(axis, values, threshold, i)) == threshold
  {
    var width, rise := axis[i + 1] - axis[i], values[i + 1] - values[i];
    FractionBounds(threshold - values[i], rise, width);
    var x := Point(axis, values, threshold, i);
    var offset := (threshold - values[i]) * width / rise;
    assert x - axis[i] == offset;
    assert offset * rise == (threshold - values[i]) * width;
    assert rise * (x - axis[i]) / width == threshold - values[i];
  }

  lemma EarlierSegment(axis: seq<real>, values: seq<real>, a: real, along: Direction, i: nat, b: real, across: Direction, j: nat)
    requires |axis| == |values| && Increasing(axis) && i < j
    requires Crosses(values, i, a, along) && Crosses(values, j, b, across)
    ensures Point(axis, values, a, i) < Point(axis, values, b, j)
  {
    PointOnSegment(axis, values, a, along, i);
    PointOnSegment(axis, values, b, across, j);
    assert i + 1 < j ==> axis[i + 1] < axis[j];
  }

  /** Crossing points are strictly increasing, one to a segment. */
  lemma CrossingsIncrease(axis: seq<real>, values: seq<real>, threshold: real, direction: Direction, found: seq<real>)
    requires |axis| == |values| && Increasing(axis)
    requires PointsOf(found, axis, values, threshold, CrossingSegments(values, threshold, direction))
    ensures Increasing(found)
  {
    var segments := CrossingSegments(values, threshold, direction);
    forall j, k | 0 <= j < k < |found|
      ensures found[j] < found[k]
    {
      EarlierSegment(axis, values, threshold, direction, segments[j], threshold, direction, segments[k]);
    }
  }

  // No crossing is missed.

  lemma {:induction false} RisesBetween(values: seq<real>, threshold: real, j: nat, k: nat) returns (i: nat)
    requires j < k < |values| && values[j] < threshold <= values[k]
    ensures j <= i < k && Crosses(values, i, threshold, Rising)
    decreases k - j
  {
    if values[j + 1] >= threshold {
      i := j;
    } else {
      i := RisesBetween(values, threshold, j + 1, k);
    }
  }

  lemma {:induction false} FallsBetween(values: seq<real>, threshold: real, j: nat, k: nat) returns (i: nat)
    requires j < k < |values| && values[j] > threshold >= values[k]
    ensures j <= i < k && Crosses(values, i, threshold, Falling)
    decreases k - j
  {
    if values[j + 1] <= threshold {
      i := j;
    } else {
      i := FallsBetween(values, threshold, j + 1, k);
    }
  }

  /** A sample below followed later by one at or above forces a reported rising crossing between them. */
  lemma RisingCrossingIsFound(axis: seq<real>, values: seq<real>, threshold: real, found: seq<real>, j: nat, k: nat) returns (c: nat)
    requires |axis| == |values| && Increasing(axis) && j < k < |values| && values[j] < threshold <= values[k]
    requires PointsOf(found, axis, values, threshold, CrossingSegments(values, threshold, Rising))
    ensures c < |found| && axis[j] < found[c] <= axis[k]
  {
    var i := RisesBetween(values, threshold, j, k);
    var segments := CrossingSegments(values, threshold, Rising);
    c :| 0 <= c < |segments| && segments[c] == i;
    PointOnSegment(axis, values, threshold, Rising, i);
  }

  lemma FallingCrossingIsFound(axis: seq<real>, values: seq<real>, threshold: real, found: seq<real>, j: nat, k: nat) returns (c: nat)
    requires |axis| == |values| && Increasing(axis) && j < k < |values| && values[j] > threshold >= values[k]
    requires PointsOf(found, axis, values, threshold, CrossingSegments(values, threshold, Falling))
    ensures c < |found| && axis[j] < found[c] <= axis[k]
  {
    var i := FallsBetween(values, threshold, j, k);
    var segments := CrossingSegments(values, threshold, Falling);
    c :| 0 <= c < |segments| && segments[c] == i;
    PointOnSegment(axis, values, threshold, Falling, i);
  }

  /** The crossings in either direction are the rising and the falling ones. */
  lemma EitherIsBoth(values: seq<real>, threshold: real)
    ensures forall i :: i in CrossingSegments(values, threshold, Either) <==>
              i in CrossingSegments(values, threshold, Rising) || i in CrossingSegments(values, threshold, Falling)
  {
    forall i, direction
      ensures i in CrossingSegments(values, threshold, direction) <==> 0 <= i && Crosses(values, i, threshold, direction)
    {
      assert i in CrossingSegments(values, threshold, direction) ==> 0 <= i < |values|;
    }
    hide CrossingSegments;
  }

  /** A sample strictly on one side followed later by one at or across the threshold forces a reported crossing between them. */
  lemma EitherCrossingIsFound(axis: seq<real>, values: seq<real>, threshold: real, found: seq<real>, j: nat, k: nat) returns (c: nat)
    requires |axis| == |values| && Increasing(axis) && j < k < |values|
    requires values[j] < threshold <= values[k] || values[j] > threshold >= values[k]
    requires PointsOf(found, axis, values, threshold, CrossingSegments(values, threshold, Either))
    ensures c < |found| && axis[j] < found[c] <= axis[k]
  {
    var i: nat;
    if values[j] < threshold {
      i := RisesBetween(values, threshold, j, k);
    } else {
      i := FallsBetween(values, threshold, j, k);
    }
    assert Crosses(values, i, threshold, Either);
    var segments := CrossingSegments(values, threshold, Either);
    c :| 0 <= c < |segments| && segments[c] == i;
    PointOnSegment(axis, values, threshold, Either, i);
  }

  /** Every reported crossing lies on a segment that crosses in the requested direction. */
  lemma ReportedCrossingIsReal(axis: seq<real>, values: seq<real>, threshold: real, direction: Direction, found: seq<real>, c: nat) returns (i: nat)
    requires |axis| == |values| && Increasing(axis) && c < |found|
    requires PointsOf(found, axis, values, threshold, CrossingSegments(values, threshold, direction))
    ensures i + 1 < |axis| && axis[i] < found[c] <= axis[i + 1]
    ensures (direction in {Rising, Either} && values[i] < threshold <= values[i + 1])
         || (direction in {Falling, Either} && values[i] > threshold >= values[i + 1])
  {
    i := CrossingSegments(values, threshold, direction)[c];
    PointOnSegment(axis, values, threshold, direction, i);
  }

  // Alternation.

  /** Samples a to b - 1 are at the threshold, and both neighbours are strictly on one side of it. */
  predicate TurnsBack(values: seq<real>, threshold: real, a: int, b: int, below: bool) {
    && 0 < a < b < |values|
    && (forall i :: a <= i < b ==> values[i] == threshold)
    && Beyond(values[a - 1], threshold, below) && Beyond(values[b], threshold, below)
  }

  predicate Beyond(y: real, threshold: real, below: bool) {
    if below then y < threshold else y > threshold
  }

  /** The signal reaches the threshold, turns back, and a later sample is at or across it again. */
  ghost predicate TouchesAndReturns(values: seq<real>, threshold: real, below: bool) {
    exists a, b, c :: TurnsBack(values, threshold, a, b, below) && b < c < |values| && !Beyond(values[c], threshold, below)
  }

  function Mirror(values: seq<real>): (mirrored: seq<real>)
    ensures |mirrored| == |values| && forall i :: 0 <= i < |values| ==> mirrored[i] == -values[i]
  {
    seq(|values|, i requires 0 <= i < |values| => -values[i])
  }

  /** Between two rising crossings there is a falling one. */
  ghost predicate FallsBetweenRises(values: seq<real>, threshold: real) {
    forall i, k :: i < k && Crosses(values, i, threshold, Rising) && Crosses(values, k, threshold, Rising) ==>
      FallsWithin(values, threshold, i, k)
  }

  ghost predicate FallsWithin(values: seq<real>, threshold: real, i: int, k: int) {
    exists m :: i < m < k && Crosses(values, m, threshold, Falling)
  }

  ghost predicate RisesBetweenFalls(values: seq<real>, threshold: real) {
    forall i, k :: i < k && Crosses(values, i, threshold, Falling) && Crosses(values, k, threshold, Falling) ==>
      RisesWithin(values, threshold, i, k)
  }

  ghost predicate RisesWithin(values: seq<real>, threshold: real, i: int, k: int) {
    exists m :: i < m < k && Crosses(values, m, threshold, Rising)
  }

  ghost predicate Alternates(values: seq<real>, threshold: real) {
    FallsBetweenRises(values, threshold) && RisesBetweenFalls(values, threshold)
  }

  lemma {:induction false} FirstBelow(values: seq<real>, threshold: real, from: nat, k: nat) returns (b: nat)
    requires from <= k < |values| && values[k] < threshold
    ensures from <= b <= k && values[b] < threshold && forall i :: from <= i < b ==> values[i] >= threshold
    decreases k - from
  {
    b := from;
    if values[from] >= threshold {
      b := FirstBelow(values, threshold, from + 1, k);
    }
  }

  /** The run of samples at the threshold that ends before b. */
  lemma {:induction false} RunBefore(values: seq<real>, threshold: real, from: nat, b: nat) returns (a: nat)
    requires from < b <= |values| && values[b - 1] == threshold
    ensures from <= a < b && (forall i :: a <= i < b ==> values[i] == threshold)
    ensures a > from ==> values[a - 1] != threshold
    decreases b - from
  {
    a := b - 1;
    if a > from && values[a - 1] == threshold {
      a := RunBefore(values, threshold, from, b - 1);
    }
  }

  /** Two rises without a fall between them: after the first, the signal came back to the threshold and turned below. */
  lemma NoFallMeansTouch(values: seq<real>, threshold: real, i: int, k: int)
    requires i < k && Crosses(values, i, threshold, Rising) && Crosses(values, k, threshold, Rising)
    requires !FallsWithin(values, threshold, i, k)
    ensures TouchesAndReturns(values, threshold, true)
  {
    var b := FirstBelow(values, threshold, i + 1, k);
    assert !Crosses(values, b - 1, threshold, Falling);
    var a := RunBefore(values, threshold, i + 1, b);
    assert a > i + 1 ==> !Crosses(values, a - 1, threshold, Falling);
    assert TurnsBack(values, threshold, a, b, true) && !Beyond(values[k + 1], threshold, true);
  }

  /** Conversely a touch from below followed by a return gives two rises without a fall between them. */
  lemma TouchMeansNoFall(values: seq<real>, threshold: real)
    requires TouchesAndReturns(values, threshold, true)
    ensures !FallsBetweenRises(values, threshold)
  {
    var a, b, c :| TurnsBack(values, threshold, a, b, true) && b < c < |values| && !Beyond(values[c], threshold, true);
    var k := FirstRise(values, threshold, b, c);
    assert Crosses(values, a - 1, threshold, Rising);
    forall m | a - 1 < m < k
      ensures !Crosses(values, m, threshold, Falling)
    {
    }
    assert !FallsWithin(values, threshold, a - 1, k);
  }

  lemma {:induction false} FirstRise(values: seq<real>, threshold: real, j: nat, c: nat) returns (k: nat)
    requires j < c < |values| && values[j] < threshold <= values[c]
    ensures j <= k < c && Crosses(values, k, threshold, Rising)
    ensures forall i :: j <= i <= k ==> values[i] < threshold
    decreases c - j
  {
    k := j;
    if values[j + 1] < threshold {
      k := FirstRise(values, threshold, j + 1, c);
    }
  }

  lemma FallsBetweenRisesExactly(values: seq<real>, threshold: real)
    ensures FallsBetweenRises(values, threshold) <==> !TouchesAndReturns(values, threshold, true)
  {
    if !FallsBetweenRises(values, threshold) {
      var i, k :| i < k && Crosses(values, i, threshold, Rising) && Crosses(values, k, threshold, Rising) &&
        !FallsWithin(values, threshold, i, k);
      NoFallMeansTouch(values, threshold, i, k);
    }
    if TouchesAndReturns(values, threshold, true) {
      TouchMeansNoFall(values, threshold);
    }
  }

  lemma MirrorCrosses(values: seq<real>, threshold: real)
    ensures forall i :: Crosses(Mirror(values), i, -threshold, Rising) <==> Crosses(values, i, threshold, Falling)
    ensures forall i :: Crosses(Mirror(values), i, -threshold, Falling) <==> Crosses(values, i, threshold, Rising)
  {
  }

  lemma MirrorTurns(values: seq<real>, threshold: real)
    ensures TouchesAndReturns(Mirror(values), -threshold, true) <==> TouchesAndReturns(values, threshold, false)
  {
    var mirrored, opposite := Mirror(values), -threshold;
    hide Mirror;
    if a, b, c :| TurnsBack(values, threshold, a, b, false) && b < c < |values| && !Beyond(values[c], threshold, false) {
      assert TurnsBack(mirrored, opposite, a, b, true) && !Beyond(mirrored[c], opposite, true);
    }
    if a, b, c :| TurnsBack(mirrored, opposite, a, b, true) && b < c < |mirrored| && !Beyond(mirrored[c], opposite, true) {
      assert forall i :: a <= i < b ==> values[i] == -mirrored[i];
      assert TurnsBack(values, threshold, a, b, false) && !Beyond(values[c], threshold, false);
    }
  }

  lemma MirrorFalls(values: seq<real>, threshold: real)
    ensures FallsBetweenRises(Mirror(values), -threshold) <==> RisesBetweenFalls(values, threshold)
  {
    var mirrored, opposite := Mirror(values), -threshold;
    MirrorCrosses(values, threshold);
    hide Crosses, Mirror;
    forall i, k
      ensures FallsWithin(mirrored, opposite, i, k) <==> RisesWithin(values, threshold, i, k)
    {
      assert forall m :: Crosses(mirrored, m, opposite, Falling) <==> Crosses(values, m, threshold, Rising);
    }
    hide FallsWithin, RisesWithin;
  }

  /** Rises and falls alternate exactly when the signal never touches the threshold, turns back and returns. */
  lemma CrossingsAlternate(values: seq<real>, threshold: real)
    ensures Alternates(values, threshold) <==>
            !TouchesAndReturns(values, threshold, true) && !TouchesAndReturns(values, threshold, false)
  {
    FallsBetweenRisesExactly(values, threshold);
    FallsBetweenRisesExactly(Mirror(values), -threshold);
    MirrorFalls(values, threshold);
    MirrorTurns(values, threshold);
    hide FallsBetweenRises, RisesBetweenFalls, TouchesAndReturns;
  }

  /** In particular they alternate when no sample equals the threshold. */
  lemma UntouchedAlternates(values: seq<real>, threshold: real)
    requires forall i :: 0 <= i < |values| ==> values[i] != threshold
    ensures Alternates(values, threshold)
  {
    CrossingsAlternate(values, threshold);
    forall a, b, below
      ensures !TurnsBack(values, threshold, a, b, below)
    {
      assert 0 <= a < |values| ==> values[a] != threshold;
    }
    hide TurnsBack;
  }

  /** A sample that touches the threshold can break the alternation: two rises, no fall between. */
  lemma TouchingBreaksAlternation()
    ensures !Alternates([0.0, 1.0, 0.0, 1.0], 1.0)
  {
    var values := [0.0, 1.0, 0.0, 1.0];
    assert TurnsBack(values, 1.0, 1, 2, true) && !Beyond(values[3], 1.0, true);
    CrossingsAlternate(values, 1.0);
  }

  // Rise and fall time.

  function StartThreshold(rising: bool, lower: real, upper: real): real {
    if rising then lower else upper
  }

  function EndThreshold(rising: bool, lower: real, upper: real): real {
    if rising then upper else lower
  }

  function Way(rising: bool): Direction {
    if rising then Rising else Falling
  }

  predicate Before(x: real, next: Option<real>) {
    next.Some? ==> x < next.value
  }

  /** The first end at or after the start and before the next start. */
  method FirstEnd(ends: seq<real>, start: real, next: Option<real>) returns (location: Option<real>, k: nat)
    ensures location.Some? <==> exists i :: 0 <= i < |ends| && start <= ends[i] && Before(ends[i], next)
    ensures location.Some? ==> k < |ends| && location.value == ends[k] && start <= ends[k] && Before(ends[k], next)
    ensures location.Some? ==> forall i :: 0 <= i < k ==> !(start <= ends[i] && Before(ends[i], next))
  {
    for n := 0 to |ends|
      invariant forall i :: 0 <= i < n ==> !(start <= ends[i] && Before(ends[i], next))
    {
      if start <= ends[n] && Before(ends[n], next) {
        return Some(ends[n]), n;
      }
    }
    location, k := None, 0;
  }

  datatype Transition = Transition(value: real, start: real, location: real)

  /** What a reported rise (fall) time says about the signal. */
  ghost predicate IsTransition(t: Transition, axis: seq<real>, values: seq<real>, rising: bool, lower: real, upper: real, occurrence: nat, starts: seq<real>, ends: seq<real>) {
    && PointsOf(starts, axis, values, StartThreshold(rising, lower, upper), CrossingSegments(values, StartThreshold(rising, lower, upper), Way(rising)))
    && PointsOf(ends, axis, values, EndThreshold(rising, lower, upper), CrossingSegments(values, EndThreshold(rising, lower, upper), Way(rising)))
    && 1 <= occurrence <= |starts| && t.start == starts[occurrence - 1]
    && t.value == t.location - t.start
    && (exists k :: 0 <= k < |ends| && ends[k] == t.location && t.start <= ends[k] &&
          forall i :: 0 <= i < k ==> ends[i] < t.start || (occurrence < |starts| && ends[i] >= starts[occurrence]))
    && (occurrence < |starts| ==> t.location < starts[occurrence])
  }

  method TransitionTime(axis: seq<real>, values: seq<real>, rising: bool, lower: real, upper: real, occurrence: nat)
    returns (t: Option<Transition>, starts: seq<real>, ends: seq<real>)
    requires |axis| == |values| && occurrence >= 1
    ensures t.Some? ==> IsTransition(t.value, axis, values, rising, lower, upper, occurrence, starts, ends)
    ensures t.None? ==>
              |starts| < occurrence ||
              !exists i :: 0 <= i < |ends| && starts[occurrence - 1] <= ends[i] &&
                           (occurrence < |starts| ==> ends[i] < starts[occurrence])
    ensures PointsOf(starts, axis, values, StartThreshold(rising, lower, upper), CrossingSegments(values, StartThreshold(rising, lower, upper), Way(rising)))
    ensures PointsOf(ends, axis, values, EndThreshold(rising, lower, upper), CrossingSegments(values, EndThreshold(rising, lower, upper), Way(rising)))
  {
    var from := CrossingPoints(axis, values, StartThreshold(rising, lower, upper), Way(rising));
    var to := CrossingPoints(axis, values, EndThreshold(rising, lower, upper), Way(rising));
    starts, ends := from, to;
    t := None;
    if |from| >= occurrence {
      var start := from[occurrence - 1];
      var next := if |from| > occurrence then Some(from[occurrence]) else None;
      var location, k := FirstEnd(to, start, next);
      if location.Some? {
        t := Some(Transition(location.value - start, start, location.value));
      }
    }
  }

  lemma PositiveQuotient(x: real, y: real)
    requires (x > 0.0 && y > 0.0) || (x < 0.0 && y < 0.0)
    ensures x / y > 0.0
  {
    var q := x / y;
    assert q * y == x;
    if q <= 0.0 {
      SignedProduct(q, y);
    }
  }

  lemma SignedProduct(q: real, y: real)
    requires q <= 0.0 && y != 0.0
    ensures y > 0.0 ==> q * y <= 0.0
    ensures y < 0.0 ==> q * y >= 0.0
  {
  }

  lemma PositiveProduct(x: real, y: real)
    requires y > 0.0
    ensures x > 0.0 ==> x * y > 0.0
    ensures x < 0.0 ==> x * y < 0.0
  {
  }

  lemma ScaledDifference(a: real, b: real, width: real, rise: real)
    requires rise != 0.0
    ensures b * width / rise - a * width / rise == (b - a) * width / rise
  {
  }

  lemma ScaledOrder(a: real, b: real, width: real, rise: real)
    requires width > 0.0 && ((rise > 0.0 && a < b) || (rise < 0.0 && a > b))
    ensures a * width / rise < b * width / rise
  {
    PositiveProduct(b - a, width);
    PositiveQuotient((b - a) * width, rise);
    ScaledDifference(a, b, width, rise);
  }

  /** Two thresholds met by one segment in the same direction are met in that order. */
  lemma SameSegmentOrder(axis: seq<real>, values: seq<real>, rising: bool, lower: real, upper: real, i: nat)
    requires |axis| == |values| && Increasing(axis) && lower < upper
    requires Crosses(values, i, StartThreshold(rising, lower, upper), Way(rising))
    requires Crosses(values, i, EndThreshold(rising, lower, upper), Way(rising))
    ensures Point(axis, values, StartThreshold(rising, lower, upper), i) < Point(axis, values, EndThreshold(rising, lower, upper), i)
  {
    var width, rise := axis[i + 1] - axis[i], values[i + 1] - values[i];
    var a, b := StartThreshold(rising, lower, upper) - values[i], EndThreshold(rising, lower, upper) - values[i];
    ScaledOrder(a, b, width, rise);
    assert Point(axis, values, StartThreshold(rising, lower, upper), i) == axis[i] + a * width / rise;
    assert Point(axis, values, EndThreshold(rising, lower, upper), i) == axis[i] + b * width / rise;
  }

  lemma {:induction false} SegmentRank(values: seq<real>, threshold: real, direction: Direction, n: nat, k: nat)
    requires k < |Segments(values, threshold, direction, n)|
    ensures k == |Segments(values, threshold, direction, Segments(values, threshold, direction, n)[k])|
    decreases n
  {
    if k < |Segments(values, threshold, direction, n - 1)| {
      SegmentRank(values, threshold, direction, n - 1, k);
    }
  }

  /** The segments that a transition starts and ends on. */
  lemma TransitionSegments(t: Transition, axis: seq<real>, values: seq<real>, rising: bool, lower: real, upper: real, occurrence: nat, starts: seq<real>, ends: seq<real>)
    returns (i: nat, j: nat)
    requires IsTransition(t, axis, values, rising, lower, upper, occurrence, starts, ends)
    ensures var low, high, way := StartThreshold(rising, lower, upper), EndThreshold(rising, lower, upper), Way(rising);
            && i + 1 < |axis| && i + 1 < |values| && Crosses(values, i, low, way) && t.start == Point(axis, values, low, i)
            && j + 1 < |axis| && j + 1 < |values| && Crosses(values, j, high, way) && t.location == Point(axis, values, high, j)
            && |Segments(values, low, way, i)| == occurrence - 1
  {
    var low, high, way := StartThreshold(rising, lower, upper), EndThreshold(rising, lower, upper), Way(rising);
    var k :| 0 <= k < |ends| && ends[k] == t.location;
    i, j := CrossingSegments(values, low, way)[occurrence - 1], CrossingSegments(values, high, way)[k];
    SegmentRank(values, low, way, |values|, occurrence - 1);
    hide Point, Segments, Crosses, StartThreshold, EndThreshold, Way;
  }

  lemma TransitionOrder(axis: seq<real>, values: seq<real>, rising: bool, lower: real, upper: real, i: nat, j: nat)
    requires |axis| == |values| && Increasing(axis) && lower < upper
    requires Crosses(values, i, StartThreshold(rising, lower, upper), Way(rising)) && Crosses(values, j, EndThreshold(rising, lower, upper), Way(rising))
    ensures Point(axis, values, StartThreshold(rising, lower, upper), i) != Point(axis, values, EndThreshold(rising, lower, upper), j)
  {
    var low, high, way := StartThreshold(rising, lower, upper), EndThreshold(rising, lower, upper), Way(rising);
    hide Point, Increasing, StartThreshold, EndThreshold, Way;
    if i == j {
      SameSegmentOrder(axis, values, rising, lower, upper, i);
    } else if i < j {
      EarlierSegment(axis, values, low, way, i, high, way, j);
    } else {
      EarlierSegment(axis, values, high, way, j, low, way, i);
    }
  }

  /** With ordered thresholds a reported rise or fall time is positive, and the end lies strictly after the start. */
  lemma TransitionIsPositive(t: Transition, axis: seq<real>, values: seq<real>, rising: bool, lower: real, upper: real, occurrence: nat, starts: seq<real>, ends: seq<real>)
    requires |axis| == |values| && Increasing(axis) && lower < upper
    requires IsTransition(t, axis, values, rising, lower, upper, occurrence, starts, ends)
    ensures t.value > 0.0
    ensures forall i :: 0 <= i < |ends| ==> !(t.start < ends[i] < t.location)
    ensures forall i :: 0 <= i < |starts| ==> !(t.start < starts[i] <= t.location)
  {
    var i, j := TransitionSegments(t, axis, values, rising, lower, upper, occurrence, starts, ends);
    TransitionOrder(axis, values, rising, lower, upper, i, j);
    CrossingsIncrease(axis, values, StartThreshold(rising, lower, upper), Way(rising), starts);
    CrossingsIncrease(axis, values, EndThreshold(rising, lower, upper), Way(rising), ends);
    hide Point, PointsOf, Crosses, Segments, CrossingSegments, StartThreshold, EndThreshold, Way;
  }

  /** The step from sample i to the next goes up (down) through the level. */
  predicate Through(values: seq<real>, i: int, rising: bool, level: real) {
    0 <= i < |values| - 1 && if rising then values[i] < level <= values[i + 1] else values[i] > level >= values[i + 1]
  }

  function ThroughCount(values: seq<real>, rising: bool, level: real, n: nat): nat {
    if n == 0 then 0
    else ThroughCount(values, rising, level, n - 1) + if Through(values, n - 1, rising, level) then 1 else 0
  }

  lemma {:induction false} SegmentsCounted(values: seq<real>, rising: bool, level: real, n: nat)
    ensures |Segments(values, level, Way(rising), n)| == ThroughCount(values, rising, level, n)
  {
    if n > 0 {
      SegmentsCounted(values, rising, level, n - 1);
    }
  }

  /** A reported rise time runs from the occurrence-th step up through the lower threshold to a step up through the upper one;
      a fall time from the occurrence-th step down through the upper threshold to a step down through the lower one. */
  lemma TransitionMeans(t: Transition, axis: seq<real>, values: seq<real>, rising: bool, lower: real, upper: real, occurrence: nat, starts: seq<real>, ends: seq<real>)
    returns (i: nat, j: nat)
    requires |axis| == |values| && Increasing(axis)
    requires IsTransition(t, axis, values, rising, lower, upper, occurrence, starts, ends)
    ensures i + 1 < |axis| && axis[i] < t.start <= axis[i + 1]
    ensures j + 1 < |axis| && axis[j] < t.location <= axis[j + 1]
    ensures Through(values, i, rising, if rising then lower else upper) && Through(values, j, rising, if rising then upper else lower)
    ensures ThroughCount(values, rising, if rising then lower else upper, i) == occurrence - 1
    ensures t.value == t.location - t.start
  {
    assert t.value == t.location - t.start;
    i, j := TransitionSegments(t, axis, values, rising, lower, upper, occurrence, starts, ends);
    hide IsTransition, Point, Segments, ThroughCount, Increasing;
    PointOnSegment(axis, values, StartThreshold(rising, lower, upper), Way(rising), i);
    PointOnSegment(axis, values, EndThreshold(rising, lower, upper), Way(rising), j);
    SegmentsCounted(values, rising, StartThreshold(rising, lower, upper), i);
  }

  /** A crossing is where the chord of its segment meets the threshold. */
  lemma CrossingIsOnChord(axis: seq<real>, values: seq<real>, threshold: real, i: nat)
    requires i + 1 < |axis| && i + 1 < |values| && values[i] != values[i + 1]
    ensures (Point(axis, values, threshold, i) - axis[i]) * (values[i + 1] - values[i]) ==
            (threshold - values[i]) * (axis[i + 1] - axis[i])
  {
    Undivided((threshold - values[i]) * (axis[i + 1] - axis[i]), values[i + 1] - values[i]);
  }

  lemma Undivided(num: real, den: real)
    requires den != 0.0
    ensures num / den * den == num
  {
  }
}
