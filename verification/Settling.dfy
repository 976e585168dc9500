/** Settling time: the backward scan for the earliest sample from which the signal stays in tolerance. */
module Settling {
  import opened Prelude
  import opened Crossings

  datatype Request = Request(target: real, tolerance: real, reference: real, holdFor: real)

  predicate Inside(value: real, r: Request) {
    -r.tolerance <= value - r.target <= r.tolerance
  }

  /** The sample indices at or after the reference. */
  function Indices(axis: seq<real>, reference: real, n: nat): (indices: seq<nat>)
    requires n <= |axis|
    ensures forall k :: 0 <= k < |indices| ==> indices[k] < n && axis[indices[k]] >= reference
    ensures forall j, k :: 0 <= j < k < |indices| ==> indices[j] < indices[k]
    ensures forall i :: 0 <= i < n && axis[i] >= reference ==> i in indices
  {
    if n == 0 then []
    else Indices(axis, reference, n - 1) + if axis[n - 1] >= reference then [n - 1] else []
  }

  /** From sample i on, every sample at or after the reference is inside and the rest of the record is long enough. */
  ghost predicate SettledAt(axis: seq<real>, values: seq<real>, r: Request, i: int) {
    && |axis| == |values| && 0 <= i < |axis| && axis[i] >= r.reference
    && (forall j :: i <= j < |axis| && axis[j] >= r.reference ==> Inside(values[j], r))
    && exists final :: IsFinal(axis, r.reference, final) && axis[final] - axis[i] >= r.holdFor
  }

  ghost predicate IsFinal(axis: seq<real>, reference: real, final: int) {
    && 0 <= final < |axis| && axis[final] >= reference
    && forall j :: final < j < |axis| ==> axis[j] < reference
  }

  datatype Outcome = DomainInvalid | NotSettled | Settled(index: nat)

  // The same condition on positions of the index list, as the scan sees it.

  ghost predicate SuffixInside(values: seq<real>, indices: seq<nat>, r: Request, k: int)
    requires forall m :: 0 <= m < |indices| ==> indices[m] < |values|
  {
    forall m :: 0 <= k <= m < |indices| ==> Inside(values[indices[m]], r)
  }

  ghost predicate HoldsFrom(axis: seq<real>, values: seq<real>, indices: seq<nat>, r: Request, k: int)
    requires |axis| == |values| && forall m :: 0 <= m < |indices| ==> indices[m] < |values|
  {
    && 0 <= k < |indices|
    && SuffixInside(values, indices, r, k)
    && axis[indices[|indices| - 1]] - axis[indices[k]] >= r.holdFor
  }

  lemma LastIsFinal(axis: seq<real>, reference: real, indices: seq<nat>)
    requires indices == Indices(axis, reference, |axis|) && indices != []
    ensures forall final :: IsFinal(axis, reference, final) <==> final == indices[|indices| - 1]
  {
    var last := indices[|indices| - 1];
    forall j | last < j < |axis|
      ensures axis[j] < reference
    {
      assert axis[j] >= reference ==> j in indices;
    }
  }

  lemma SuffixIsRest(axis: seq<real>, values: seq<real>, r: Request, indices: seq<nat>, k: nat)
    requires |axis| == |values| && indices == Indices(axis, r.reference, |axis|) && k < |indices|
    ensures SuffixInside(values, indices, r, k) <==>
            forall j :: indices[k] <= j < |axis| && axis[j] >= r.reference ==> Inside(values[j], r)
  {
    hide Inside;
    if SuffixInside(values, indices, r, k) {
      forall j | indices[k] <= j < |axis| && axis[j] >= r.reference
        ensures Inside(values[j], r)
      {
        assert j in indices;
        var m :| 0 <= m < |indices| && indices[m] == j;
        assert k <= m;
      }
    }
  }

  lemma HoldsIsSettled(axis: seq<real>, values: seq<real>, r: Request, indices: seq<nat>, k: nat)
    requires |axis| == |values| && indices == Indices(axis, r.reference, |axis|) && k < |indices|
    ensures HoldsFrom(axis, values, indices, r, k) <==> SettledAt(axis, values, r, indices[k])
  {
    hide Indices, IsFinal, SuffixInside, Inside;
    LastIsFinal(axis, r.reference, indices);
    SuffixIsRest(axis, values, r, indices, k);
    assert IsFinal(axis, r.reference, indices[|indices| - 1]);
  }

  /** The backward scan over the index list: the least position from which the condition holds. */
  method ScanBack(axis: seq<real>, values: seq<real>, indices: seq<nat>, r: Request) returns (settled: Option<nat>)
    requires |axis| == |values| && forall m :: 0 <= m < |indices| ==> indices[m] < |values|
    ensures settled.Some? ==> HoldsFrom(axis, values, indices, r, settled.value)
    ensures forall k :: 0 <= k < |indices| && (settled.Some? ==> k < settled.value) ==> !HoldsFrom(axis, values, indices, r, k)
  {
    settled := None;
    var suffixInside := true;
    var k := |indices|;
    while k > 0
      invariant 0 <= k <= |indices|
      invariant suffixInside <==> SuffixInside(values, indices, r, k)
      invariant settled.Some? ==> settled.value >= k && HoldsFrom(axis, values, indices, r, settled.value)
      invariant forall m :: k <= m < |indices| && (settled.Some? ==> m < settled.value) ==> !HoldsFrom(axis, values, indices, r, m)
    {
      k := k - 1;
      suffixInside := suffixInside && Inside(values[indices[k]], r);
      if suffixInside && axis[indices[|indices| - 1]] - axis[indices[k]] >= r.holdFor {
        settled := Some(k);
      }
    }
  }

  method SettlingIndex(axis: seq<real>, values: seq<real>, r: Request) returns (outcome: Outcome)
    requires |axis| == |values| && |axis| > 0
    ensures outcome.DomainInvalid? <==> !(axis[0] <= r.reference <= axis[|axis| - 1])
    ensures outcome.NotSettled? ==> forall i :: !SettledAt(axis, values, r, i)
    ensures outcome.Settled? ==> SettledAt(axis, values, r, outcome.index)
    ensures outcome.Settled? ==> forall i :: 0 <= i < outcome.index ==> !SettledAt(axis, values, r, i)
  {
    if !(axis[0] <= r.reference <= axis[|axis| - 1]) {
      return DomainInvalid;
    }
    var indices := Indices(axis, r.reference, |axis|);
    var position := ScanBack(axis, values, indices, r);
    forall i | SettledAt(axis, values, r, i)
      ensures position.Some? && indices[position.value] <= i
    {
      assert i in indices;
      var k :| 0 <= k < |indices| && indices[k] == i;
      HoldsIsSettled(axis, values, r, indices, k);
    }
    if position.Some? {
      HoldsIsSettled(axis, values, r, indices, position.value);
      outcome := Settled(indices[position.value]);
    } else {
      outcome := NotSettled;
    }
  }

  /** On a strictly increasing axis: the least index at or after the reference such that every later sample is
      inside the tolerance and the remaining span is at least hold_for; none exactly when there is no such index. */
  lemma SettledOnIncreasingAxis(axis: seq<real>, values: seq<real>, r: Request, i: nat)
    requires |axis| == |values| && i < |axis| && Increasing(axis)
    requires axis[0] <= r.reference <= axis[|axis| - 1]
    ensures SettledAt(axis, values, r, i) <==>
            && axis[i] >= r.reference
            && (forall j :: i <= j < |axis| ==> r.target - r.tolerance <= values[j] <= r.target + r.tolerance)
            && axis[|axis| - 1] - axis[i] >= r.holdFor
  {
    assert IsFinal(axis, r.reference, |axis| - 1);
    if axis[i] >= r.reference {
      forall j | i <= j < |axis|
        ensures axis[j] >= r.reference
      {
      }
    }
  }
}
