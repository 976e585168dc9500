/** The typed records of a semantic chain, as their JSON schemas admit them. */
module Chain {
  import opened Prelude

  type Bytes = seq<bv8>

  datatype StepKind = SourceMaterialize | SemanticCommand | IndependentOracle | IndependentDecision

  datatype FileRef = FileRef(path: string, sha256: string)

  datatype Step = Step(
    id: string,
    kind: StepKind,
    native: bool,
    covers: seq<string>,
    request: Option<FileRef>,
    implementation: Option<FileRef>,
    consumes: seq<string>,
    produces: seq<string>)

  datatype Replay = Replay(id: string, covers: seq<string>)

  datatype DesignClass = PublicDesign | PublicTapeout | Synthetic

  datatype ManifestData = ManifestData(
    id: string,
    designClass: DesignClass,
    contracts: seq<FileRef>,
    covers: seq<string>,
    steps: seq<Step>,
    negativeReplays: seq<Replay>,
    tamperReplays: seq<Replay>,
    resultStep: string,
    requiredPointers: seq<string>)

  // What the manifest schema demands of these fields, apart from patterns, lengths and largest sizes.

  predicate IsCheckStep(step: Step) {
    step.kind.IndependentOracle? || step.kind.IndependentDecision?
  }

  /** Commands have a request and cover rows, the other steps cover none; oracles and decisions have an implementation. */
  predicate StepAdmitted(step: Step) {
    && Distinct(step.covers) && Distinct(step.consumes) && Distinct(step.produces)
    && (if step.kind.SemanticCommand? then step.request.Some? && step.covers != [] else step.covers == [])
    && (IsCheckStep(step) ==> step.implementation.Some? && !step.native)
  }

  predicate ReplayAdmitted(replay: Replay) {
    replay.covers != [] && Distinct(replay.covers)
  }

  predicate IsPointer(p: string) {
    |p| > 0 && p[0] == '/'
  }

  predicate ManifestAdmitted(m: ManifestData) {
    && m.contracts != []
    && m.covers != [] && Distinct(m.covers)
    && |m.steps| >= 4 && (forall s :: s in m.steps ==> StepAdmitted(s))
    && m.negativeReplays != [] && (forall r :: r in m.negativeReplays ==> ReplayAdmitted(r))
    && m.tamperReplays != [] && (forall r :: r in m.tamperReplays ==> ReplayAdmitted(r))
    && m.requiredPointers != [] && Distinct(m.requiredPointers) && (forall p :: p in m.requiredPointers ==> IsPointer(p))
  }

  const LEAST_STEP: Step := Step("", SourceMaterialize, false, [], None, None, [], [])

  type Manifest = m: ManifestData | ManifestAdmitted(m)
    witness ManifestData("", Synthetic, [FileRef("", "")], [""], [LEAST_STEP, LEAST_STEP, LEAST_STEP, LEAST_STEP],
                         [Replay("", [""])], [Replay("", [""])], "", ["/"])

  /** The nine kinds of evidence; a run carries one boolean check for each. */
  datatype Evidence =
    | ContractTest
    | NativeRun
    | IndependentArtifactCheck
    | PinnedRealDesign
    | NormalizedEvidence
    | DownstreamDecision
    | NegativeReplay
    | TamperReplay
    | AgentVisibleEvidence

  /**
   * An artifact's role: one of the nine trust roles, named here by the check it backs
   * (the role strings "native-artifact", "independent-oracle" and "design-provenance" back the checks
   * native_run, independent_artifact_check and pinned_real_design), or any other string.
   */
  datatype Role = Trust(check: Evidence) | Other(name: string)

  datatype ArtifactData = ArtifactData(
    path: string,
    bytes: nat,
    sha256: string,
    role: Role,
    sourceStep: Option<string>,
    sourceOutput: Option<string>,
    replayId: Option<string>)

  predicate IsReplayRole(role: Role) {
    role == Trust(NegativeReplay) || role == Trust(TamperReplay)
  }

  // The run schema wants a byte at least and ties the origin fields to the role.
  type Artifact = a: ArtifactData |
    a.bytes >= 1 &&
    if IsReplayRole(a.role)
    then a.sourceStep.None? && a.sourceOutput.None? && a.replayId.Some?
    else a.sourceStep.Some? && a.sourceOutput.Some? && a.replayId.None?
    witness ArtifactData("", 1, "", Other(""), Some(""), Some(""), None)

  datatype Attestation = Attestation(
    release: bool,
    revision: string,
    tree: string,
    subject: string,
    cleanBefore: bool,
    cleanAfter: bool,
    stateUnchanged: bool)

  datatype RunData = RunData(
    chainId: string,
    manifestSha256: string,
    subject: string,
    attestation: Attestation,
    checks: set<Evidence>,
    artifacts: seq<Artifact>)

  // A run has an artifact.
  type Run = r: RunData | r.artifacts != []
    witness RunData("", "", "", Attestation(true, "", "", "", true, true, true), {},
                    [ArtifactData("", 1, "", Other(""), Some(""), Some(""), None)])

  predicate IsNativeCommand(step: Step) {
    step.kind.SemanticCommand? && step.native
  }

  predicate IsDerivedCommand(step: Step) {
    step.kind.SemanticCommand? && !step.native
  }

  function StepIds(steps: seq<Step>): (ids: seq<string>)
    ensures |ids| == |steps| && forall i :: 0 <= i < |steps| ==> ids[i] == steps[i].id
  {
    seq(|steps|, i requires 0 <= i < |steps| => steps[i].id)
  }

  predicate UniqueIds(steps: seq<Step>) {
    forall i, j :: 0 <= i < j < |steps| ==> steps[i].id != steps[j].id
  }

  function ReplayIds(replays: seq<Replay>): (ids: seq<string>)
    ensures |ids| == |replays| && forall i :: 0 <= i < |replays| ==> ids[i] == replays[i].id
  {
    seq(|replays|, i requires 0 <= i < |replays| => replays[i].id)
  }
}
