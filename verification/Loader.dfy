/** Loading the chain index: every record is admitted whole or contributes nothing. */
module Loader {
  import opened Prelude
  import opened Json
  import opened Chain
  import opened Issues
  import opened Repository
  import opened StepDag
  import opened Inventory
  import opened PositiveCoverage
  import JsonPointer

  /** What the loader knows beside the repository. */
  datatype Context = Context(
    rows: map<string, RowSpec>,
    knownConformance: set<string>,
    providerManifests: map<string, string>,
    subject: string,
    release: bool)

  // The shape of an index record.

  const RECORD_KEYS: set<string> := {"id", "conformance_record_ids", "manifest", "run", "extensions"}
  const REF_KEYS: set<string> := {"repository_path", "sha256", "extensions"}

  predicate BoundedString(json: Json) {
    json.Str? && 0 < |json.text| <= 256
  }

  predicate HasKeys(record: Json) {
    record.Obj? && record.fields.Keys == RECORD_KEYS
  }

  predicate HasId(record: Json)
    requires HasKeys(record)
  {
    BoundedString(record.fields["id"])
  }

  function IdOf(record: Json): string
    requires HasKeys(record) && HasId(record)
  {
    record.fields["id"].text
  }

  predicate ConformanceShape(list: Json) {
    list.Arr? && |list.items| <= 256 && forall item :: item in list.items ==> BoundedString(item)
  }

  function Texts(items: seq<Json>): (texts: seq<string>)
    requires forall item :: item in items ==> item.Str?
    ensures |texts| == |items| && forall k :: 0 <= k < |items| ==> texts[k] == items[k].text
  {
    seq(|items|, k requires 0 <= k < |items| => items[k].text)
  }

  function ConformanceIds(record: Json): seq<string> {
    if HasKeys(record) && ConformanceShape(record.fields["conformance_record_ids"])
    then Texts(record.fields["conformance_record_ids"].items)
    else []
  }

  predicate RefShape(ref: Json) {
    ref.Obj? && ref.fields.Keys == REF_KEYS && ref.fields["extensions"].Obj?
  }

  /** A reference whose path or digest is not a string names no file. */
  function RefOf(ref: Json): Option<FileRef>
    requires RefShape(ref)
  {
    if ref.fields["repository_path"].Str? && ref.fields["sha256"].Str?
    then Some(FileRef(ref.fields["repository_path"].text, ref.fields["sha256"].text))
    else None
  }

  /** Looking for the referenced file raises; the digest is not looked at before. */
  predicate RawRefRaises(env: Env, ref: Json)
    requires RefShape(ref)
  {
    ref.fields["repository_path"].Str? && env.resolve(ref.fields["repository_path"].text).Unresolvable?
  }

  ghost predicate ShapeSound(ctx: Context, record: Json) {
    && HasKeys(record) && HasId(record)
    && ConformanceShape(record.fields["conformance_record_ids"])
    && Distinct(ConformanceIds(record))
    && (forall id :: id in ConformanceIds(record) ==> id in ctx.knownConformance)
    && record.fields["extensions"].Obj?
    && RefShape(record.fields["manifest"]) && RefShape(record.fields["run"])
  }

  /** Enough of a shape to look at the two files. */
  predicate HasRefs(record: Json) {
    && HasKeys(record) && HasId(record) && ConformanceShape(record.fields["conformance_record_ids"])
    && RefShape(record.fields["manifest"]) && RefShape(record.fields["run"])
  }

  datatype Refs = Refs(manifest: Option<FileRef>, run: Option<FileRef>)

  method RecordShapeIssues(ctx: Context, record: Json)
    returns (issues: seq<Issue>, id: Option<string>, registered: seq<string>, refs: Option<Refs>)
    ensures issues == [] <==> ShapeSound(ctx, record)
    ensures id.Some? <==> HasKeys(record) && HasId(record)
    ensures id.Some? ==> id.value == IdOf(record)
    ensures registered == if id.Some? then ConformanceIds(record) else []
    ensures issues == [] ==> refs.Some?
    ensures refs.Some? <==> HasRefs(record)
    ensures refs.Some? ==> refs.value == Refs(RefOf(record.fields["manifest"]), RefOf(record.fields["run"]))
  {
    issues, id, registered, refs := [], None, [], None;
    if !HasKeys(record) {
      issues := [Issue(RecordKeys, "")];
      return;
    }
    if !HasId(record) {
      issues := [Issue(RecordId, "")];
      return;
    }
    id := Some(IdOf(record));
    if !ConformanceShape(record.fields["conformance_record_ids"]) {
      issues := [Issue(ConformanceIdsShape, id.value)];
      return;
    }
    var ids := ConformanceIds(record);
    NoDuplicatesIffDistinct(ids);
    issues := Each(ConformanceIdRepeated, Duplicates(ids));
    for k := 0 to |ids|
      invariant registered == ids[..k]
      invariant issues == [] <==> Distinct(ids) && forall i :: 0 <= i < k ==> ids[i] in ctx.knownConformance
    {
      registered := registered + [ids[k]];
      if ids[k] !in ctx.knownConformance {
        issues := issues + [Issue(ConformanceIdUnknown, ids[k])];
      }
    }
    issues := issues + When(!record.fields["extensions"].Obj?, RecordExtensions, id.value);
    var manifest, run := record.fields["manifest"], record.fields["run"];
    if !manifest.Obj? || !run.Obj? {
      issues := issues + [Issue(RefsMissing, id.value)];
      return;
    }
    if manifest.fields.Keys != REF_KEYS || run.fields.Keys != REF_KEYS {
      issues := issues + [Issue(RefKeys, id.value)];
      return;
    }
    if !manifest.fields["extensions"].Obj? || !run.fields["extensions"].Obj? {
      issues := issues + [Issue(RefExtensions, id.value)];
      return;
    }
    refs := Some(Refs(RefOf(manifest), RefOf(run)));
  }

  // The files of a record and what binds the run to its manifest and to the current semantics.

  predicate RefsValid(env: Env, refs: Refs) {
    && refs.manifest.Some? && RefValid(env, refs.manifest.value)
    && refs.run.Some? && RefValid(env, refs.run.value)
  }

  function ManifestAt(env: Env, refs: Refs): Option<Manifest>
    requires RefsValid(env, refs)
  {
    var document := Document(env, env.resolve(refs.manifest.value.path).path);
    if document.Some? then env.manifest(document.value) else None
  }

  function RunAt(env: Env, refs: Refs): Option<Run>
    requires RefsValid(env, refs)
  {
    var document := Document(env, env.resolve(refs.run.value.path).path);
    if document.Some? then env.run(document.value) else None
  }

  /** A manifest with a contract spelled like the provider manifest in which its own run digest is claimed. */
  predicate InClaimCycle(ctx: Context, manifest: Manifest, conformanceId: string) {
    conformanceId in ctx.providerManifests &&
    exists k :: 0 <= k < |manifest.contracts| && manifest.contracts[k].path == ctx.providerManifests[conformanceId]
  }

  /** The checks after which loading stops at the first failure. */
  predicate Bound(env: Env, ctx: Context, refs: Refs, manifest: Manifest, run: Run)
    requires RefsValid(env, refs)
  {
    && run.chainId == manifest.id
    && run.manifestSha256 == env.sha256(env.repo[env.resolve(refs.manifest.value.path).path].bytes)
    && run.subject == ctx.subject
  }

  /** Nothing has stopped the loading before the artifacts are looked at. */
  predicate FilesBound(env: Env, ctx: Context, refs: Refs) {
    && RefsValid(env, refs)
    && ManifestAt(env, refs).Some? && RunAt(env, refs).Some?
    && Bound(env, ctx, refs, ManifestAt(env, refs).value, RunAt(env, refs).value)
  }

  /** Nor after them, before the agent document is opened. */
  ghost predicate FilesInspected(env: Env, ctx: Context, refs: Refs) {
    && FilesBound(env, ctx, refs)
    && InventorySound(env, RunAt(env, refs).value, ManifestAt(env, refs).value)
  }

  ghost predicate FilesLoaded(env: Env, ctx: Context, conformanceIds: seq<string>, refs: Refs) {
    && RefsValid(env, refs)
    && ManifestAt(env, refs).Some? && RunAt(env, refs).Some?
    && (forall id :: id in conformanceIds ==> !InClaimCycle(ctx, ManifestAt(env, refs).value, id))
    && Bound(env, ctx, refs, ManifestAt(env, refs).value, RunAt(env, refs).value)
    && AttestationSound(env, ctx, RunAt(env, refs).value.attestation, RunAt(env, refs).value)
    && InventorySound(env, RunAt(env, refs).value, ManifestAt(env, refs).value)
  }

  predicate AttestationSound(env: Env, ctx: Context, source: Attestation, run: Run) {
    && source.subject == run.subject
    && source.subject == ctx.subject
    && (ctx.release ==>
          && source.release
          && source.cleanBefore && source.cleanAfter && source.stateUnchanged
          && env.committed(source.revision) == Some((ctx.subject, source.tree)))
  }

  function AttestationIssues(env: Env, ctx: Context, source: Attestation, run: Run): (issues: seq<Issue>)
    ensures issues == [] <==> AttestationSound(env, ctx, source, run)
  {
    When(source.subject != run.subject, AttestationUnbound, run.chainId)
    + When(source.subject != ctx.subject, AttestationStale, run.chainId)
    + if !ctx.release then []
      else
        When(!source.release, Provisional, run.chainId)
        + When(!(source.cleanBefore && source.cleanAfter && source.stateUnchanged), UncleanSource, run.chainId)
        + When(env.committed(source.revision) != Some((ctx.subject, source.tree)), RevisionMismatch, run.chainId)
  }

  method LoadFiles(env: Env, ctx: Context, conformanceIds: seq<string>, refs: Refs)
    returns (issues: seq<Issue>, chain: Option<(Manifest, Run)>, raised: bool)
    ensures raised <==> FilesBound(env, ctx, refs) && SomeArtifactRaises(env, RunAt(env, refs).value)
    ensures !raised ==> (issues == [] <==> FilesLoaded(env, ctx, conformanceIds, refs))
    ensures chain.Some? <==> FilesInspected(env, ctx, refs)
    ensures chain.Some? ==> Some(chain.value.0) == ManifestAt(env, refs) && Some(chain.value.1) == RunAt(env, refs)
  {
    hide InventorySound, SomeArtifactRaises, AttestationSound, InClaimCycle, Document;
    issues, chain, raised := [], None, false;
    if refs.manifest.None? || !RefValid(env, refs.manifest.value) {
      issues := issues + [Issue(FileRefInvalid, "manifest")];
    }
    if refs.run.None? || !RefValid(env, refs.run.value) {
      issues := issues + [Issue(FileRefInvalid, "run")];
    }
    if !RefsValid(env, refs) {
      return;
    }
    var manifestJson := LoadJson(env, env.resolve(refs.manifest.value.path).path);
    var runJson := LoadJson(env, env.resolve(refs.run.value.path).path);
    if manifestJson.None? {
      issues := [Issue(ManifestUnreadable, refs.manifest.value.path)];
      return;
    }
    if runJson.None? {
      issues := [Issue(RunUnreadable, refs.run.value.path)];
      return;
    }
    var manifestResult, runResult := env.manifest(manifestJson.value), env.run(runJson.value);
    if manifestResult.None? || runResult.None? {
      issues := [Issue(ManifestUnreadable, refs.manifest.value.path)];
      return;
    }
    var manifest, run := manifestResult.value, runResult.value;
    for k := 0 to |conformanceIds|
      invariant issues == [] <==> forall i :: 0 <= i < k ==> !InClaimCycle(ctx, manifest, conformanceIds[i])
    {
      if InClaimCycle(ctx, manifest, conformanceIds[k]) {
        issues := issues + [Issue(ClaimCycle, conformanceIds[k])];
      }
    }
    if run.chainId != manifest.id {
      issues := issues + [Issue(ChainIdMismatch, run.chainId)];
      return;
    }
    if run.manifestSha256 != env.sha256(env.repo[env.resolve(refs.manifest.value.path).path].bytes) {
      issues := issues + [Issue(ManifestNotBound, run.chainId)];
      return;
    }
    if run.subject != ctx.subject {
      issues := issues + [Issue(RunStale, run.chainId)];
      return;
    }
    issues := issues + AttestationIssues(env, ctx, run.attestation, run);
    var artifactIssues;
    artifactIssues, raised := RunArtifactIssues(env, run, manifest);
    if InventorySound(env, run, manifest) {
      SoundFilesDoNotRaise(env, run, manifest);
    }
    if raised {
      return;
    }
    issues := issues + artifactIssues;
    if artifactIssues != [] {
      return;
    }
    chain := Some((manifest, run));
  }

  // The chain itself.

  predicate AgentArtifacts(run: Run, k: int) {
    0 <= k < |run.artifacts| && run.artifacts[k].role == Trust(AgentVisibleEvidence)
  }

  ghost predicate OnlyAgentArtifact(run: Run, k: int) {
    AgentArtifacts(run, k) && forall j :: AgentArtifacts(run, j) ==> j == k
  }

  predicate PointerPresent(env: Env, document: Json, pointer: string) {
    pointer != "" &&
    JsonPointer.Walk(env.unicode, document, JsonPointer.PointerTokens(pointer)) == JsonPointer.Exists
  }

  predicate PointersPresent(env: Env, document: Json, pointers: seq<string>) {
    forall p :: p in pointers ==> PointerPresent(env, document, p)
  }

  /** Exactly one agent-visible artifact, whose document has every required pointer. */
  ghost predicate AgentEvidenceSound(env: Env, manifest: Manifest, run: Run) {
    exists k :: OnlyAgentArtifact(run, k) && AgentDocumentSound(env, manifest, run.artifacts[k])
  }

  predicate AgentDocumentSound(env: Env, manifest: Manifest, a: Artifact) {
    var path := env.resolve(a.path);
    path.To? && Document(env, path.path).Some?
    && PointersPresent(env, Document(env, path.path).value, manifest.requiredPointers)
  }

  method TheAgentArtifact(run: Run) returns (k: Option<nat>)
    ensures k.Some? ==> OnlyAgentArtifact(run, k.value)
    ensures k.None? ==> forall j :: !OnlyAgentArtifact(run, j)
  {
    var candidates := set k | 0 <= k < |run.artifacts| && AgentArtifacts(run, k);
    assert forall k :: k in candidates <==> AgentArtifacts(run, k);
    if candidates == {} {
      return None;
    }
    var first :| first in candidates;
    if candidates != {first} {
      var other :| other in candidates && other != first;
      return None;
    }
    k := Some(first);
  }

  /** The evaluator meets a numeral that int() refuses; nothing catches the ValueError. */
  predicate PointerRaises(env: Env, document: Json, pointer: string) {
    pointer != "" &&
    JsonPointer.Walk(env.unicode, document, JsonPointer.PointerTokens(pointer)) == JsonPointer.Raises
  }

  predicate SomePointerRaises(env: Env, document: Json, pointers: seq<string>) {
    exists p :: p in pointers && PointerRaises(env, document, p)
  }

  ghost predicate AgentRaises(env: Env, manifest: Manifest, run: Run) {
    exists k :: OnlyAgentArtifact(run, k) && AgentDocumentRaises(env, manifest, run.artifacts[k])
  }

  predicate AgentDocumentRaises(env: Env, manifest: Manifest, a: Artifact) {
    var path := env.resolve(a.path);
    path.Unresolvable? ||
    (path.To? && Document(env, path.path).Some?
     && SomePointerRaises(env, Document(env, path.path).value, manifest.requiredPointers))
  }

  method PointerIssues(env: Env, document: Json, pointers: seq<string>) returns (issues: seq<Issue>, raised: bool)
    requires forall p :: p in pointers ==> p != ""
    ensures raised <==> SomePointerRaises(env, document, pointers)
    ensures !raised ==> (issues == [] <==> PointersPresent(env, document, pointers))
  {
    issues, raised := [], false;
    for k := 0 to |pointers|
      invariant !raised && forall i :: 0 <= i < k ==> !PointerRaises(env, document, pointers[i])
      invariant issues == [] <==> forall i :: 0 <= i < k ==> PointerPresent(env, document, pointers[i])
    {
      assert pointers[k] in pointers;
      var outcome := JsonPointer.JsonPointerExists(env.unicode, document, pointers[k]);
      if outcome.Raises? {
        return issues, true;
      }
      if !outcome.Exists? {
        issues := issues + [Issue(AgentPointer, pointers[k])];
      }
    }
  }

  method AgentPointerIssues(env: Env, manifest: Manifest, run: Run) returns (issues: seq<Issue>, raised: bool)
    ensures raised <==> AgentRaises(env, manifest, run)
    ensures !raised ==> (issues == [] <==> AgentEvidenceSound(env, manifest, run))
  {
    hide SomePointerRaises, PointersPresent, Document;
    raised := false;
    var k := TheAgentArtifact(run);
    if k.None? {
      return [Issue(AgentArtifact, run.chainId)], false;
    }
    var path := env.resolve(run.artifacts[k.value].path);
    if !path.To? {
      return [Issue(AgentArtifact, run.artifacts[k.value].path)], path.Unresolvable?;
    }
    var document := LoadJson(env, path.path);
    if document.None? {
      return [Issue(AgentArtifact, run.artifacts[k.value].path)], false;
    }
    issues, raised := PointerIssues(env, document.value, manifest.requiredPointers);
  }

  predicate StepRefsValid(env: Env, step: Step) {
    && OptionalRefValid(env, step.request) && OptionalRefValid(env, step.implementation)
    && (step.kind.IndependentOracle? && step.implementation.Some? ==> env.oracleSource(env.repo, step.implementation.value).Accepts?)
  }

  predicate StepRaises(env: Env, step: Step) {
    OptionalRefRaises(env, step.request) || OptionalRefRaises(env, step.implementation) ||
    (step.kind.IndependentOracle? && step.implementation.Some? && env.oracleSource(env.repo, step.implementation.value).Raises?)
  }

  ghost predicate OracleConsumesNative(steps: seq<Step>) {
    exists i, j :: 0 <= i < j && IsNativeCommandAt(steps, i) && IsOracleAt(steps, j) && Feeds(steps, i, j)
  }

  predicate IsNativeCommandAt(steps: seq<Step>, i: int) {
    0 <= i < |steps| && IsNativeCommand(steps[i])
  }

  predicate IsOracleAt(steps: seq<Step>, j: int) {
    0 <= j < |steps| && steps[j].kind.IndependentOracle?
  }

  ghost predicate NativeBefore(steps: seq<Step>, k: int, role: string) {
    exists i :: 0 <= i < k && IsNativeCommandAt(steps, i) && role in steps[i].produces
  }

  ghost predicate OracleSeesNative(steps: seq<Step>, k: int) {
    exists j, role :: 0 <= j < k && IsOracleAt(steps, j) && role in steps[j].consumes && NativeBefore(steps, j, role)
  }

  lemma OracleSees(steps: seq<Step>)
    ensures OracleSeesNative(steps, |steps|) <==> OracleConsumesNative(steps)
  {
    if OracleSeesNative(steps, |steps|) {
      var j, role :| 0 <= j < |steps| && IsOracleAt(steps, j) && role in steps[j].consumes && NativeBefore(steps, j, role);
      var i :| 0 <= i < j && IsNativeCommandAt(steps, i) && role in steps[i].produces;
      assert Feeds(steps, i, j);
    }
    if OracleConsumesNative(steps) {
      var i, j :| 0 <= i < j && IsNativeCommandAt(steps, i) && IsOracleAt(steps, j) && Feeds(steps, i, j);
      var role :| role in steps[i].produces && role in steps[j].consumes;
      assert NativeBefore(steps, j, role);
    }
  }

  ghost predicate RolesSoundUpTo(steps: seq<Step>, k: int) {
    forall j :: 0 <= j < k && j < |steps| ==> RolesSoundAt(steps, j)
  }

  ghost predicate RolesSoundAt(steps: seq<Step>, j: int)
    requires 0 <= j < |steps|
  {
    && (forall role :: role in steps[j].consumes ==> ProducedBefore(steps, j, role))
    && (forall role :: role in steps[j].produces ==> !ProducedBefore(steps, j, role))
  }

  lemma RolesSound(steps: seq<Step>)
    ensures RolesSoundUpTo(steps, |steps|) <==> RolesOrdered(steps) && RolesDefinedOnce(steps)
  {
    if RolesSoundUpTo(steps, |steps|) {
      forall j, role | 0 <= j < |steps| && role in steps[j].consumes
        ensures ProducedBefore(steps, j, role)
      {
        assert RolesSoundAt(steps, j);
      }
      forall i, j, role | 0 <= i < j < |steps| && role in steps[i].produces
        ensures role !in steps[j].produces
      {
        assert RolesSoundAt(steps, j);
        assert ProducedBefore(steps, j, role);
      }
    }
  }

  function StepRefIssues(env: Env, step: Step): (issues: seq<Issue>)
    ensures issues == [] <==> StepRefsValid(env, step)
  {
    When(!OptionalRefValid(env, step.request), FileRefInvalid, step.id)
    + When(!OptionalRefValid(env, step.implementation), FileRefInvalid, step.id)
    + When(step.kind.IndependentOracle? && step.implementation.Some? && !env.oracleSource(env.repo, step.implementation.value).Accepts?,
           OracleSource, step.id)
  }

  method RoleIssues(step: Step, available: set<string>) returns (issues: seq<Issue>)
    ensures issues == [] <==>
            && (forall role :: role in step.consumes ==> role in available)
            && (forall role :: role in step.produces ==> role !in available)
  {
    NoneOutside(step.consumes, available);
    NoneInside(step.produces, available);
    var missing := Each(ConsumedBeforeProduced, Elements(step.consumes) - available);
    var redefined := Each(RoleRedefined, Elements(step.produces) * available);
    issues := missing + redefined;
  }

  /** What one step adds to the role sets and to the oracle flag. */
  lemma RolesNext(steps: seq<Step>, k: nat)
    requires k < |steps|
    ensures forall role :: ProducedBefore(steps, k + 1, role) <==> ProducedBefore(steps, k, role) || role in steps[k].produces
    ensures forall role :: NativeBefore(steps, k + 1, role) <==>
              NativeBefore(steps, k, role) || (IsNativeCommand(steps[k]) && role in steps[k].produces)
    ensures OracleSeesNative(steps, k + 1) <==>
            OracleSeesNative(steps, k) ||
            (IsOracleAt(steps, k) && exists role :: role in steps[k].consumes && NativeBefore(steps, k, role))
  {
    forall role
      ensures ProducedBefore(steps, k + 1, role) <==> ProducedBefore(steps, k, role) || role in steps[k].produces
      ensures NativeBefore(steps, k + 1, role) <==>
              NativeBefore(steps, k, role) || (IsNativeCommand(steps[k]) && role in steps[k].produces)
    {
      assert IsNativeCommandAt(steps, k) <==> IsNativeCommand(steps[k]);
    }
  }

  /** What the pass has accumulated before step k. */
  datatype RolePass = RolePass(available: set<string>, nativeRoles: set<string>, oracleConsumesNative: bool)

  ghost predicate Tracks(steps: seq<Step>, k: int, pass: RolePass) {
    && (forall role :: role in pass.available <==> ProducedBefore(steps, k, role))
    && (forall role :: role in pass.nativeRoles <==> NativeBefore(steps, k, role))
    && (pass.oracleConsumesNative <==> OracleSeesNative(steps, k))
  }

  function AfterStep(pass: RolePass, step: Step): RolePass {
    var nativeRoles := pass.nativeRoles + if IsNativeCommand(step) then Elements(step.produces) else {};
    RolePass(pass.available + Elements(step.produces), nativeRoles,
         pass.oracleConsumesNative || (step.kind.IndependentOracle? && Elements(step.consumes) * nativeRoles != {}))
  }

  lemma TracksNext(steps: seq<Step>, k: nat, pass: RolePass)
    requires k < |steps| && Tracks(steps, k, pass)
    ensures Tracks(steps, k + 1, AfterStep(pass, steps[k]))
  {
    RolesNext(steps, k);
    NoneInside(steps[k].consumes, pass.nativeRoles);
  }

  lemma RolesSoundNext(steps: seq<Step>, k: nat, available: set<string>)
    requires k < |steps| && forall role :: role in available <==> ProducedBefore(steps, k, role)
    ensures RolesSoundUpTo(steps, k + 1) <==>
            && RolesSoundUpTo(steps, k)
            && (forall role :: role in steps[k].consumes ==> role in available)
            && (forall role :: role in steps[k].produces ==> role !in available)
  {
    assert RolesSoundUpTo(steps, k + 1) <==> RolesSoundUpTo(steps, k) && RolesSoundAt(steps, k);
  }

  ghost predicate RefsSoundUpTo(env: Env, steps: seq<Step>, k: int) {
    forall i :: 0 <= i < k && i < |steps| ==> StepRefsValid(env, steps[i])
  }

  ghost predicate StepsSound(env: Env, steps: seq<Step>) {
    && (forall s :: s in steps ==> StepRefsValid(env, s))
    && RolesOrdered(steps) && RolesDefinedOnce(steps)
    && OracleConsumesNative(steps)
  }

  /** The pass over the steps: references, role order, and whether an oracle looks at native output. */
  method StepIssues(env: Env, manifest: Manifest) returns (issues: seq<Issue>, raised: bool)
    ensures raised <==> exists s :: s in manifest.steps && StepRaises(env, s)
    ensures !raised ==> (issues == [] <==> StepsSound(env, manifest.steps))
  {
    hide StepRaises;
    var steps := manifest.steps;
    issues, raised := [], false;
    var pass := RolePass({}, {}, false);
    for k := 0 to |steps|
      invariant Tracks(steps, k, pass)
      invariant !raised && forall i :: 0 <= i < k ==> !StepRaises(env, steps[i])
      invariant issues == [] <==> RolesSoundUpTo(steps, k) && RefsSoundUpTo(env, steps, k)
    {
      var step := steps[k];
      if StepRaises(env, step) {
        return issues, true;
      }
      var roleIssues := RoleIssues(step, pass.available);
      RolesSoundNext(steps, k, pass.available);
      assert RefsSoundUpTo(env, steps, k + 1) <==> RefsSoundUpTo(env, steps, k) && StepRefsValid(env, step);
      issues := issues + StepRefIssues(env, step) + roleIssues;
      TracksNext(steps, k, pass);
      pass := AfterStep(pass, step);
    }
    issues := issues + When(!pass.oracleConsumesNative, OracleBlind, manifest.id);
    RolesSound(steps);
    OracleSees(steps);
    assert RefsSoundUpTo(env, steps, |steps|) <==> forall s :: s in steps ==> StepRefsValid(env, s);
  }

  ghost predicate StepInventory(steps: seq<Step>, resultStep: string) {
    && UniqueIds(steps)
    && (exists s :: s in steps && s.id == resultStep && s.kind.IndependentDecision?)
    && (exists s :: s in steps && s.kind.SourceMaterialize?)
    && (exists s :: s in steps && IsNativeCommand(s))
    && (exists s :: s in steps && s.kind.IndependentOracle?)
  }

  lemma DistinctStepIds(steps: seq<Step>)
    ensures Distinct(StepIds(steps)) <==> UniqueIds(steps)
  {
    var ids := StepIds(steps);
    if Distinct(ids) {
      forall i, j | 0 <= i < j < |steps|
        ensures steps[i].id != steps[j].id
      {
        assert ids[i] != ids[j];
      }
    }
  }

  /** With unique ids the dictionary finds the one step of the id. */
  lemma ResultIsFound(steps: seq<Step>, id: string)
    ensures UniqueIds(steps) && StepById(steps, id).Some? ==>
              forall s :: s in steps && s.id == id ==> s == StepById(steps, id).value
  {
    hide StepById;
  }

  method StepInventoryIssues(manifest: Manifest) returns (issues: seq<Issue>)
    ensures issues == [] <==> StepInventory(manifest.steps, manifest.resultStep)
  {
    var steps := manifest.steps;
    issues := Each(StepIdRepeated, Duplicates(StepIds(steps)));
    var result := StepById(steps, manifest.resultStep);
    NoDuplicatesIffDistinct(StepIds(steps));
    DistinctStepIds(steps);
    ResultIsFound(steps, manifest.resultStep);
    hide StepById, UniqueIds, Duplicates, Distinct, StepIds;
    issues := issues
      + When(result.None?, ResultStepUnknown, manifest.resultStep)
      + When(result.Some? && !result.value.kind.IndependentDecision?, ResultStepKind, manifest.resultStep)
      + When(!(exists s :: s in steps && s.kind.SourceMaterialize?), NoSource, manifest.id)
      + When(!(exists s :: s in steps && IsNativeCommand(s)), NoNativeCommand, manifest.id)
      + When(!(exists s :: s in steps && s.kind.IndependentOracle?), NoOracle, manifest.id);
  }

  predicate ReplayCoversDeclared(manifest: Manifest, replay: Replay) {
    forall row :: row in replay.covers ==> row in manifest.covers
  }

  method ReplayCoverIssues(manifest: Manifest, replays: seq<Replay>) returns (issues: seq<Issue>)
    ensures issues == [] <==> forall r :: r in replays ==> ReplayCoversDeclared(manifest, r)
  {
    issues := [];
    for k := 0 to |replays|
      invariant issues == [] <==> forall i :: 0 <= i < k ==> ReplayCoversDeclared(manifest, replays[i])
    {
      NoneOutside(replays[k].covers, Elements(manifest.covers));
      var found := Each(ReplayCoversUndeclared, Elements(replays[k].covers) - Elements(manifest.covers));
      issues := issues + found;
    }
  }

  /** What the manifest alone, with the files it names, must satisfy. */
  ghost predicate StructureSound(env: Env, ctx: Context, manifest: Manifest) {
    && (forall c :: c in manifest.contracts ==> RefValid(env, c))
    && StepInventory(manifest.steps, manifest.resultStep)
    && StepsSound(env, manifest.steps)
    && PositivelyCovered(manifest, ctx.rows)
    && (forall r :: r in manifest.negativeReplays ==> ReplayCoversDeclared(manifest, r))
    && (forall r :: r in manifest.tamperReplays ==> ReplayCoversDeclared(manifest, r))
  }

  ghost predicate ChainSound(env: Env, ctx: Context, manifest: Manifest, run: Run) {
    && env.provenance(env.repo, manifest, run).Accepts?
    && AgentEvidenceSound(env, manifest, run)
    && StructureSound(env, ctx, manifest)
    && env.releaseVerifier(env.repo, manifest, run, ctx.release).Accepts?
    && (forall row :: row in manifest.covers ==> row in ctx.rows)
  }

  method ContractIssues(env: Env, contracts: seq<FileRef>) returns (issues: seq<Issue>, raised: bool)
    ensures raised <==> exists c :: c in contracts && RefRaises(env, c)
    ensures !raised ==> (issues == [] <==> forall c :: c in contracts ==> RefValid(env, c))
  {
    issues, raised := [], false;
    for k := 0 to |contracts|
      invariant !raised && forall i :: 0 <= i < k ==> !RefRaises(env, contracts[i])
      invariant issues == [] <==> forall i :: 0 <= i < k ==> RefValid(env, contracts[i])
    {
      if RefRaises(env, contracts[k]) {
        return issues, true;
      }
      if !RefValid(env, contracts[k]) {
        issues := issues + [Issue(FileRefInvalid, contracts[k].path)];
      }
    }
  }

  /** Looking at a contract, at a step's files or at an oracle's source raises. */
  predicate StructureRaises(env: Env, manifest: Manifest) {
    (exists c :: c in manifest.contracts && RefRaises(env, c)) || (exists s :: s in manifest.steps && StepRaises(env, s))
  }

  method StructureIssues(env: Env, ctx: Context, manifest: Manifest) returns (issues: seq<Issue>, raised: bool)
    ensures raised <==> StructureRaises(env, manifest)
    ensures !raised ==> (issues == [] <==> StructureSound(env, ctx, manifest))
  {
    hide RefRaises, StepRaises;
    var contracts, steps;
    contracts, raised := ContractIssues(env, manifest.contracts);
    if raised {
      return contracts, true;
    }
    var inventory := StepInventoryIssues(manifest);
    steps, raised := StepIssues(env, manifest);
    if raised {
      return steps, true;
    }
    var positive := PositiveCoverageIssues(manifest, ctx.rows);
    var negative := ReplayCoverIssues(manifest, manifest.negativeReplays);
    var tamper := ReplayCoverIssues(manifest, manifest.tamperReplays);
    issues := contracts + inventory + steps + positive + negative + tamper;
  }

  /** Everything is sound that is asked before the release verifier. */
  ghost predicate ReleaseReached(env: Env, ctx: Context, manifest: Manifest, run: Run) {
    && env.provenance(env.repo, manifest, run).Accepts?
    && AgentEvidenceSound(env, manifest, run)
    && StructureSound(env, ctx, manifest)
  }

  /** `clean`: nothing was reported for the record before; the release verifier runs only on a clean record. */
  ghost predicate ChainRaises(env: Env, ctx: Context, manifest: Manifest, run: Run, clean: bool) {
    || env.provenance(env.repo, manifest, run).Raises?
    || AgentRaises(env, manifest, run)
    || StructureRaises(env, manifest)
    || (clean && ReleaseReached(env, ctx, manifest, run) && env.releaseVerifier(env.repo, manifest, run, ctx.release).Raises?)
  }

  method ChainIssues(env: Env, ctx: Context, manifest: Manifest, run: Run, clean: bool) returns (issues: seq<Issue>, raised: bool)
    ensures raised <==> ChainRaises(env, ctx, manifest, run, clean)
    ensures !raised && clean ==> (issues == [] <==> ChainSound(env, ctx, manifest, run))
  {
    hide AgentEvidenceSound, AgentRaises, StructureSound, StructureRaises;
    var provenance := env.provenance(env.repo, manifest, run);
    if provenance.Raises? {
      return [], true;
    }
    issues := When(!provenance.Accepts?, DesignProvenance, run.chainId);
    var agent;
    agent, raised := AgentPointerIssues(env, manifest, run);
    if raised {
      return;
    }
    var structure;
    structure, raised := StructureIssues(env, ctx, manifest);
    if raised {
      return;
    }
    issues := issues + agent + structure;
    if clean && issues == [] {
      var verified := env.releaseVerifier(env.repo, manifest, run, ctx.release);
      if verified.Raises? {
        return issues, true;
      }
      issues := When(!verified.Accepts?, ReleaseVerifier, run.chainId);
    }
    NoneOutside(manifest.covers, ctx.rows.Keys);
    var unknown := Each(RowUnknown, Elements(manifest.covers) - ctx.rows.Keys);
    issues := issues + unknown;
  }

  /** Evidence with every required pointer raises nothing. */
  lemma SoundEvidenceDoesNotRaise(env: Env, manifest: Manifest, run: Run)
    ensures AgentEvidenceSound(env, manifest, run) ==> !AgentRaises(env, manifest, run)
  {
    hide Document;
    forall a | AgentDocumentSound(env, manifest, a)
      ensures !AgentDocumentRaises(env, manifest, a)
    {
      var document := Document(env, env.resolve(a.path).path).value;
      assert forall p :: p in manifest.requiredPointers ==> PointerPresent(env, document, p);
    }
  }

  lemma SoundStructureDoesNotRaise(env: Env, ctx: Context, manifest: Manifest)
    requires StructureSound(env, ctx, manifest)
    ensures !StructureRaises(env, manifest)
  {
    hide StepInventory, PositivelyCovered, ReplayCoversDeclared, RolesOrdered, RolesDefinedOnce, OracleConsumesNative, Readable;
    assert StepsSound(env, manifest.steps);
    assert forall s :: s in manifest.steps ==> StepRefsValid(env, s);
  }

  lemma SoundChainDoesNotRaise(env: Env, ctx: Context, manifest: Manifest, run: Run, clean: bool)
    requires ChainSound(env, ctx, manifest, run)
    ensures !ChainRaises(env, ctx, manifest, run, clean)
  {
    SoundEvidenceDoesNotRaise(env, manifest, run);
    SoundStructureDoesNotRaise(env, ctx, manifest);
    hide AgentEvidenceSound, AgentRaises, StructureSound, StructureRaises;
  }

  // One record: all or nothing.

  datatype Contribution = Contribution(
    recordId: string,
    conformanceIds: seq<string>,
    manifest: Manifest,
    run: Run,
    runSha256: string)

  ghost predicate Admissible(env: Env, ctx: Context, record: Json) {
    && ShapeSound(ctx, record)
    && var refs := Refs(RefOf(record.fields["manifest"]), RefOf(record.fields["run"]));
       && FilesLoaded(env, ctx, ConformanceIds(record), refs)
       && ChainSound(env, ctx, ManifestAt(env, refs).value, RunAt(env, refs).value)
  }

  ghost function Contributed(env: Env, ctx: Context, record: Json): Option<Contribution> {
    if Admissible(env, ctx, record) then
      var refs := Refs(RefOf(record.fields["manifest"]), RefOf(record.fields["run"]));
      Some(Contribution(IdOf(record), ConformanceIds(record), ManifestAt(env, refs).value, RunAt(env, refs).value,
                        refs.run.value.sha256))
    else None
  }

  /** The record's shape and files are sound and give this contribution. */
  ghost predicate LoadedAs(env: Env, ctx: Context, record: Json, refs: Refs, c: Contribution) {
    && ShapeSound(ctx, record)
    && refs == Refs(RefOf(record.fields["manifest"]), RefOf(record.fields["run"]))
    && FilesLoaded(env, ctx, ConformanceIds(record), refs)
    && ManifestAt(env, refs) == Some(c.manifest) && RunAt(env, refs) == Some(c.run)
    && c == Contribution(IdOf(record), ConformanceIds(record), c.manifest, c.run, refs.run.value.sha256)
  }

  lemma UnpackRecord(env: Env, ctx: Context, record: Json, c: Contribution) returns (refs: Refs)
    requires Contributed(env, ctx, record) == Some(c)
    ensures Admissible(env, ctx, record) && refs == Refs(RefOf(record.fields["manifest"]), RefOf(record.fields["run"]))
    ensures ManifestAt(env, refs) == Some(c.manifest) && RunAt(env, refs) == Some(c.run)
    ensures c == Contribution(IdOf(record), ConformanceIds(record), c.manifest, c.run, refs.run.value.sha256)
  {
    hide ChainSound, InventorySound, InClaimCycle, AttestationSound, Bound;
    refs := Refs(RefOf(record.fields["manifest"]), RefOf(record.fields["run"]));
  }

  lemma Unpack(env: Env, ctx: Context, record: Json, c: Contribution) returns (refs: Refs)
    requires Contributed(env, ctx, record) == Some(c)
    ensures LoadedAs(env, ctx, record, refs, c)
    ensures ChainSound(env, ctx, c.manifest, c.run)
  {
    hide ShapeSound, FilesLoaded, ChainSound, Contributed;
    refs := UnpackRecord(env, ctx, record, c);
  }

  lemma Pack(env: Env, ctx: Context, record: Json, refs: Refs, c: Contribution)
    requires LoadedAs(env, ctx, record, refs, c) && ChainSound(env, ctx, c.manifest, c.run)
    ensures Contributed(env, ctx, record) == Some(c)
  {
  }

  /** Loading gets as far as some look at a file, some pointer or some check that raises. */
  ghost predicate RecordRaises(env: Env, ctx: Context, record: Json) {
    && HasRefs(record)
    && (RawRefRaises(env, record.fields["manifest"]) || RawRefRaises(env, record.fields["run"]) || FilesRaise(env, ctx, record))
  }

  ghost predicate FilesRaise(env: Env, ctx: Context, record: Json)
    requires HasRefs(record)
  {
    var refs := Refs(RefOf(record.fields["manifest"]), RefOf(record.fields["run"]));
    && FilesBound(env, ctx, refs)
    && var manifest, run := ManifestAt(env, refs).value, RunAt(env, refs).value;
       || SomeArtifactRaises(env, run)
       || (InventorySound(env, run, manifest) &&
           ChainRaises(env, ctx, manifest, run, ShapeSound(ctx, record) && FilesLoaded(env, ctx, ConformanceIds(record), refs)))
  }

  /** A record raises; or it reports an issue and contributes nothing; or it reports none and contributes itself. */
  method LoadRecord(env: Env, ctx: Context, record: Json)
    returns (issues: seq<Issue>, id: Option<string>, registered: seq<string>, contribution: Option<Contribution>, raised: bool)
    ensures raised <==> RecordRaises(env, ctx, record)
    ensures contribution == Contributed(env, ctx, record)
    ensures !raised ==> (issues == [] <==> contribution.Some?)
    ensures contribution.Some? ==> !raised && id == Some(contribution.value.recordId) && registered == contribution.value.conformanceIds
  {
    if Contributed(env, ctx, record).Some? {
      AdmittedDoesNotRaise(env, ctx, record);
    }
    hide InventorySound, SomeArtifactRaises, ChainRaises, ChainSound, ManifestAt, RunAt, Bound, InClaimCycle, AttestationSound;
    raised := false;
    contribution := None;
    var refs;
    issues, id, registered, refs := RecordShapeIssues(ctx, record);
    if refs.None? {
      return;
    }
    if RawRefRaises(env, record.fields["manifest"]) || RawRefRaises(env, record.fields["run"]) {
      raised := true;
      return;
    }
    var loadIssues, chain;
    loadIssues, chain, raised := LoadFiles(env, ctx, registered, refs.value);
    if raised {
      return;
    }
    issues := issues + loadIssues;
    if chain.None? {
      return;
    }
    var (manifest, run) := chain.value;
    var chainIssues;
    chainIssues, raised := ChainIssues(env, ctx, manifest, run, issues == []);
    if raised {
      return;
    }
    issues := issues + chainIssues;
    if issues == [] {
      contribution := Some(Contribution(id.value, registered, manifest, run, refs.value.run.value.sha256));
    }
  }

  lemma AdmittedDoesNotRaise(env: Env, ctx: Context, record: Json)
    requires Contributed(env, ctx, record).Some?
    ensures !RecordRaises(env, ctx, record)
  {
    hide InventorySound, SomeArtifactRaises, ChainRaises, ChainSound, ManifestAt, RunAt, Bound, ShapeSound, InClaimCycle, AttestationSound, Readable;
    if RecordRaises(env, ctx, record) {
      var refs := Refs(RefOf(record.fields["manifest"]), RefOf(record.fields["run"]));
      var manifest, run := ManifestAt(env, refs).value, RunAt(env, refs).value;
      SoundFilesDoNotRaise(env, run, manifest);
      SoundChainDoesNotRaise(env, ctx, manifest, run, true);
      SoundChainDoesNotRaise(env, ctx, manifest, run, false);
    }
  }
}
