/** Principal values and phase unwrapping, in degrees. */
module Unwrap {
  function Turns(k: int): real {
    360.0 * (k as real)
  }

  /** a and b differ by whole turns. */
  ghost predicate Congruent(a: real, b: real) {
    exists k: int :: a == b + Turns(k)
  }

  /** The range that the unwrapped step is brought into. */
  predicate HalfOpen(x: real) {
    -180.0 <= x < 180.0
  }

  lemma CongruentByTurns(a: real, b: real, k: int)
    requires a == b + Turns(k)
    ensures Congruent(a, b)
  {
  }

  lemma CongruentSymmetric(a: real, b: real)
    requires Congruent(a, b)
    ensures Congruent(b, a)
  {
    var k: int :| a == b + Turns(k);
    CongruentByTurns(b, a, -k);
  }

  lemma CongruentTransitive(a: real, b: real, c: real)
    requires Congruent(a, b) && Congruent(b, c)
    ensures Congruent(a, c)
  {
    var j: int :| a == b + Turns(j);
    var k: int :| b == c + Turns(k);
    CongruentByTurns(a, c, j + k);
  }

  /** Two congruent numbers in one half-open turn are equal. */
  lemma CongruentInRange(a: real, b: real)
    requires Congruent(a, b) && -360.0 < a - b < 360.0
    ensures a == b
  {
    var k: int :| a == b + Turns(k);
    assert k >= 1 ==> k as real >= 1.0;
    assert k <= -1 ==> k as real <= -1.0;
  }

  /** The principal value of a phase that atan2 gives in [-180, 180]. */
  function Principal(phase: real): real {
    if phase >= 180.0 then phase - 360.0 else phase
  }

  /** atan2, in degrees, of a nonzero number whose true phase is given; -180 for a negative zero imaginary part. */
  ghost predicate IsArgument(argument: real, phase: real) {
    -180.0 <= argument <= 180.0 && Congruent(argument, phase)
  }

  lemma PrincipalInRange(argument: real, phase: real)
    requires IsArgument(argument, phase)
    ensures HalfOpen(Principal(argument)) && Congruent(Principal(argument), phase)
  {
    if argument >= 180.0 {
      CongruentByTurns(argument - 360.0, argument, -1);
      CongruentTransitive(argument - 360.0, argument, phase);
    }
  }

  /** The principal value is the only number of [-180, 180) that is congruent to the phase. */
  lemma PrincipalIsUnique(argument: real, phase: real, other: real)
    requires IsArgument(argument, phase) && HalfOpen(other) && Congruent(other, phase)
    ensures other == Principal(argument)
  {
    PrincipalInRange(argument, phase);
    CongruentSymmetric(Principal(argument), phase);
    CongruentTransitive(other, phase, Principal(argument));
    CongruentInRange(other, Principal(argument));
  }

  /** Every step lies in [-180, 180). */
  ghost predicate SmallSteps(s: seq<real>) {
    forall i :: 0 < i < |s| ==> HalfOpen(s[i] - s[i - 1])
  }

  ghost predicate CongruentAll(s: seq<real>, t: seq<real>) {
    |s| == |t| && forall i :: 0 <= i < |s| ==> Congruent(s[i], t[i])
  }

  /** Brings one phase within half a turn of the last; both loops terminate. */
  method Nearest(phase: real, last: real) returns (candidate: real)
    ensures HalfOpen(candidate - last) && Congruent(candidate, phase)
  {
    candidate := phase;
    ghost var k := 0;
    assert phase == phase + Turns(0);
    while candidate - last >= 180.0
      invariant candidate == phase + Turns(k)
      decreases candidate - last
    {
      candidate, k := candidate - 360.0, k - 1;
    }
    while candidate - last < -180.0
      invariant candidate == phase + Turns(k) && candidate - last < 180.0
      decreases last - candidate
    {
      candidate, k := candidate + 360.0, k + 1;
    }
    CongruentByTurns(candidate, phase, k);
  }

  method UnwrapPhases(phases: seq<real>) returns (unwrapped: seq<real>)
    requires phases != []
    ensures unwrapped != [] && unwrapped[0] == phases[0]
    ensures SmallSteps(unwrapped) && CongruentAll(unwrapped, phases)
  {
    unwrapped := [phases[0]];
    CongruentByTurns(phases[0], phases[0], 0);
    for i := 1 to |phases|
      invariant |unwrapped| == i && unwrapped[0] == phases[0]
      invariant SmallSteps(unwrapped)
      invariant forall j :: 0 <= j < i ==> Congruent(unwrapped[j], phases[j])
    {
      var candidate := Nearest(phases[i], unwrapped[i - 1]);
      unwrapped := unwrapped + [candidate];
    }
  }

  /** There is only one sequence with that first value, those steps and those residues. */
  lemma {:induction false} UnwrapIsUnique(s: seq<real>, t: seq<real>, phases: seq<real>)
    requires s != [] && t != [] && s[0] == t[0]
    requires SmallSteps(s) && SmallSteps(t) && CongruentAll(s, phases) && CongruentAll(t, phases)
    ensures s == t
    decreases |s|
  {
    var n := |s| - 1;
    if n > 0 {
      UnwrapIsUnique(s[..n], t[..n], phases[..n]);
      assert s[n - 1] == s[..n][n - 1] == t[..n][n - 1] == t[n - 1];
      CongruentSymmetric(t[n], phases[n]);
      CongruentTransitive(s[n], phases[n], t[n]);
      assert HalfOpen(s[n] - s[n - 1]) && HalfOpen(t[n] - t[n - 1]);
      CongruentInRange(s[n], t[n]);
      assert s == s[..n] + [s[n]] && t == t[..n] + [t[n]];
    }
  }

  /** Principal values of the atan2 arguments of numbers with these true phases. */
  ghost predicate Wrapped(principals: seq<real>, arguments: seq<real>, phases: seq<real>) {
    |principals| == |arguments| == |phases| &&
    forall i :: 0 <= i < |phases| ==> IsArgument(arguments[i], phases[i]) && principals[i] == Principal(arguments[i])
  }

  ghost function ShiftAll(s: seq<real>, d: real): (t: seq<real>)
    ensures |t| == |s| && forall i :: 0 <= i < |s| ==> t[i] == s[i] + d
  {
    seq(|s|, i requires 0 <= i < |s| => s[i] + d)
  }

  lemma ShiftKeepsSteps(s: seq<real>, d: real)
    ensures SmallSteps(ShiftAll(s, d)) <==> SmallSteps(s)
  {
    var t := ShiftAll(s, d);
    assert forall i :: 0 < i < |s| ==> t[i] - t[i - 1] == s[i] - s[i - 1];
  }

  lemma UnwrappedFromPhases(phases: seq<real>, arguments: seq<real>, principals: seq<real>, unwrapped: seq<real>) returns (k: int)
    requires phases != [] && SmallSteps(phases) && Wrapped(principals, arguments, phases)
    requires unwrapped != [] && unwrapped[0] == principals[0]
    requires SmallSteps(unwrapped) && CongruentAll(unwrapped, principals)
    ensures unwrapped == ShiftAll(phases, Turns(k))
  {
    PrincipalInRange(arguments[0], phases[0]);
    k :| principals[0] == phases[0] + Turns(k);
    var shifted := ShiftAll(phases, Turns(k));
    forall i | 0 <= i < |phases|
      ensures Congruent(shifted[i], principals[i])
    {
      PrincipalInRange(arguments[i], phases[i]);
      CongruentByTurns(shifted[i], phases[i], k);
      CongruentSymmetric(principals[i], phases[i]);
      CongruentTransitive(shifted[i], phases[i], principals[i]);
    }
    ShiftKeepsSteps(phases, Turns(k));
    UnwrapIsUnique(unwrapped, shifted, principals);
  }

  ghost predicate IsShiftByTurns(s: seq<real>, t: seq<real>) {
    exists k: int :: s == ShiftAll(t, Turns(k))
  }

  /** Unwrapping the principal values gives the phases back, up to one whole number of turns for the whole
      sequence, exactly when every step of the phases lies in [-180, 180). */
  lemma UnwrapUndoesWrap(phases: seq<real>, arguments: seq<real>, principals: seq<real>, unwrapped: seq<real>)
    requires phases != [] && Wrapped(principals, arguments, phases)
    requires unwrapped != [] && unwrapped[0] == principals[0]
    requires SmallSteps(unwrapped) && CongruentAll(unwrapped, principals)
    ensures IsShiftByTurns(unwrapped, phases) <==> SmallSteps(phases)
  {
    if SmallSteps(phases) {
      var k := UnwrappedFromPhases(phases, arguments, principals, unwrapped);
    }
    if IsShiftByTurns(unwrapped, phases) {
      var k: int :| unwrapped == ShiftAll(phases, Turns(k));
      ShiftKeepsSteps(phases, Turns(k));
    }
  }
}
