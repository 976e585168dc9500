/** The nested ladder of coverage levels and the evidence each level demands. */
module Ladder {
  import opened Chain

  datatype Level = Unverified | ContractTested | NativeReplayed | WorkflowValidated | AgentReady

  const LEVELS: seq<Level> := [Unverified, ContractTested, NativeReplayed, WorkflowValidated, AgentReady]

  function Rank(level: Level): nat {
    match level
    case Unverified => 0
    case ContractTested => 1
    case NativeReplayed => 2
    case WorkflowValidated => 3
    case AgentReady => 4
  }

  const EVIDENCE_ORDER: seq<Evidence> :=
    [ContractTest, NativeRun, IndependentArtifactCheck, PinnedRealDesign, NormalizedEvidence,
     DownstreamDecision, NegativeReplay, TamperReplay, AgentVisibleEvidence]

  /** REQUIRED_EVIDENCE, in the order in which missing items are listed. */
  function Required(level: Level): seq<Evidence> {
    match level
    case Unverified => []
    case ContractTested => [ContractTest]
    case NativeReplayed => [ContractTest, NativeRun, IndependentArtifactCheck]
    case WorkflowValidated =>
      [ContractTest, NativeRun, IndependentArtifactCheck, PinnedRealDesign, NormalizedEvidence, DownstreamDecision]
    case AgentReady => EVIDENCE_ORDER
  }

  predicate Supports(evidence: set<Evidence>, level: Level) {
    forall e :: e in Required(level) ==> e in evidence
  }

  /** The highest level that the evidence supports. */
  function LevelOf(evidence: set<Evidence>): Level {
    if Supports(evidence, AgentReady) then AgentReady
    else if Supports(evidence, WorkflowValidated) then WorkflowValidated
    else if Supports(evidence, NativeReplayed) then NativeReplayed
    else if Supports(evidence, ContractTested) then ContractTested
    else Unverified
  }

  lemma RequiredNested(low: Level, high: Level)
    requires Rank(low) <= Rank(high)
    ensures forall e :: e in Required(low) ==> e in Required(high)
  {
    match high
    case AgentReady =>
      assert EVIDENCE_ORDER[0] == ContractTest && EVIDENCE_ORDER[1] == NativeRun;
      assert EVIDENCE_ORDER[2] == IndependentArtifactCheck && EVIDENCE_ORDER[3] == PinnedRealDesign;
      assert EVIDENCE_ORDER[4] == NormalizedEvidence && EVIDENCE_ORDER[5] == DownstreamDecision;
    case _ =>
  }

  /** A level is reached exactly when its own evidence set is complete. */
  lemma LevelReached(evidence: set<Evidence>, level: Level)
    ensures Rank(LevelOf(evidence)) >= Rank(level) <==> Supports(evidence, level)
  {
    RequiredNested(ContractTested, NativeReplayed);
    RequiredNested(NativeReplayed, WorkflowValidated);
    RequiredNested(WorkflowValidated, AgentReady);
  }

  /** The scan over LEVELS[1:] keeps the last level whose evidence is complete. */
  method LevelForEvidence(evidence: set<Evidence>) returns (level: Level)
    ensures forall l :: Rank(level) >= Rank(l) <==> Supports(evidence, l)
    ensures level == LevelOf(evidence)
  {
    level := Unverified;
    for i := 1 to |LEVELS|
      invariant Rank(level) < i
      invariant Supports(evidence, level)
      invariant forall l :: Rank(l) < i && Supports(evidence, l) ==> Rank(l) <= Rank(level)
    {
      var candidate := LEVELS[i];
      assert Rank(candidate) == i;
      if Supports(evidence, candidate) {
        level := candidate;
      }
    }
    forall l
      ensures Rank(level) >= Rank(l) <==> Supports(evidence, l)
    {
      if Rank(level) >= Rank(l) {
        RequiredNested(l, level);
      }
    }
    LevelReached(evidence, level);
    LevelReached(evidence, LevelOf(evidence));
  }

  /** More evidence never lowers a level. */
  lemma LevelMonotone(less: set<Evidence>, more: set<Evidence>)
    requires less <= more
    ensures Rank(LevelOf(less)) <= Rank(LevelOf(more))
  {
    LevelReached(less, LevelOf(less));
    LevelReached(more, LevelOf(less));
  }

  /** The evidence a run yields for one row: replay evidence counts only where a replay covers the row. */
  function RecordEvidence(manifest: Manifest, run: Run, row: string): set<Evidence> {
    run.checks
    - (if CoveredByReplay(manifest.negativeReplays, row) then {} else {NegativeReplay})
    - (if CoveredByReplay(manifest.tamperReplays, row) then {} else {TamperReplay})
  }

  predicate CoveredByReplay(replays: seq<Replay>, row: string) {
    exists k :: 0 <= k < |replays| && row in replays[k].covers
  }

  function Place(e: Evidence): (k: nat)
    ensures k < |EVIDENCE_ORDER| && EVIDENCE_ORDER[k] == e
  {
    match e
    case ContractTest => 0
    case NativeRun => 1
    case IndependentArtifactCheck => 2
    case PinnedRealDesign => 3
    case NormalizedEvidence => 4
    case DownstreamDecision => 5
    case NegativeReplay => 6
    case TamperReplay => 7
    case AgentVisibleEvidence => 8
  }

  lemma AgentReadyNeedsAll(evidence: set<Evidence>, e: Evidence)
    requires Supports(evidence, AgentReady)
    ensures e in evidence
  {
    assert Required(AgentReady)[Place(e)] == e;
  }

  /** A row cannot be agent-ready on replays that were run for other rows only. */
  lemma ReplayEvidenceIsRowSpecific(manifest: Manifest, run: Run, row: string)
    ensures Rank(LevelOf(RecordEvidence(manifest, run, row))) >= Rank(AgentReady) <==>
            && CoveredByReplay(manifest.negativeReplays, row)
            && CoveredByReplay(manifest.tamperReplays, row)
            && (forall e: Evidence :: e in run.checks)
  {
    var evidence := RecordEvidence(manifest, run, row);
    LevelReached(evidence, AgentReady);
    forall e: Evidence
      ensures e in Required(AgentReady)
    {
      assert Required(AgentReady)[Place(e)] == e;
    }
    if Supports(evidence, AgentReady) {
      assert NegativeReplay in evidence && TamperReplay in evidence;
      assert forall e: Evidence :: e in Required(AgentReady) ==> e in run.checks;
    }
  }

  lemma InOrder(e: Evidence)
    ensures e in EVIDENCE_ORDER
  {
    assert EVIDENCE_ORDER[Place(e)] == e;
  }

  /** What each level demands, item by item. */
  lemma LevelsMean(evidence: set<Evidence>)
    ensures Rank(LevelOf(evidence)) >= 1 <==> ContractTest in evidence
    ensures Rank(LevelOf(evidence)) >= 2 <==>
            ContractTest in evidence && NativeRun in evidence && IndependentArtifactCheck in evidence
    ensures Rank(LevelOf(evidence)) >= 3 <==>
            && ContractTest in evidence && NativeRun in evidence && IndependentArtifactCheck in evidence
            && PinnedRealDesign in evidence && NormalizedEvidence in evidence && DownstreamDecision in evidence
    ensures Rank(LevelOf(evidence)) >= 4 <==> forall e: Evidence :: e in evidence
  {
    LevelReached(evidence, ContractTested);
    LevelReached(evidence, NativeReplayed);
    LevelReached(evidence, WorkflowValidated);
    LevelReached(evidence, AgentReady);
    forall e: Evidence
      ensures e in Required(AgentReady)
    {
      InOrder(e);
    }
    hide LevelOf, EVIDENCE_ORDER;
  }

  /** The evidence of a row is the true checks of the run, less each replay kind that does not cover the row. */
  lemma RecordEvidenceExactly(manifest: Manifest, run: Run, row: string, e: Evidence)
    ensures e in RecordEvidence(manifest, run, row) <==>
            && e in run.checks
            && (e == NegativeReplay ==> exists k :: 0 <= k < |manifest.negativeReplays| && row in manifest.negativeReplays[k].covers)
            && (e == TamperReplay ==> exists k :: 0 <= k < |manifest.tamperReplays| && row in manifest.tamperReplays[k].covers)
  {
    hide ManifestAdmitted;
  }

  /** Replays matter for the agent-ready level alone: below it the true checks decide, whatever rows the replays cover. */
  lemma LowerLevelsNeedNoReplay(manifest: Manifest, run: Run, row: string, level: Level)
    requires level != AgentReady
    ensures Rank(LevelOf(RecordEvidence(manifest, run, row))) >= Rank(level) <==> Supports(run.checks, level)
  {
    LevelReached(RecordEvidence(manifest, run, row), level);
    forall e | e in Required(level)
      ensures e in RecordEvidence(manifest, run, row) <==> e in run.checks
    {
      RecordEvidenceExactly(manifest, run, row, e);
    }
    hide RecordEvidence, LevelOf;
  }

  /** Nine true checks and replays of one kind only: workflow-validated. */
  lemma OneReplayKindIsNotEnough(manifest: Manifest, run: Run, row: string)
    requires forall e: Evidence :: e in run.checks
    requires CoveredByReplay(manifest.tamperReplays, row) != CoveredByReplay(manifest.negativeReplays, row)
    ensures LevelOf(RecordEvidence(manifest, run, row)) == WorkflowValidated
  {
    LowerLevelsNeedNoReplay(manifest, run, row, WorkflowValidated);
    ReplayEvidenceIsRowSpecific(manifest, run, row);
    hide RecordEvidence, LevelOf, CoveredByReplay;
  }
}
