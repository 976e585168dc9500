/** The rules of admission written out: what a record, its manifest, its run and the files they name must be like. */
module Admission {
  import opened Prelude
  import opened Json
  import opened Chain
  import opened Repository
  import opened StepDag
  import opened Inventory
  import opened PositiveCoverage
  import opened Loader
  import DepthScan
  import JsonPointer
  import Paths

  // Files.

  /** A regular file of 1 byte to 16 MiB with this digest, under some spelling of its path. */
  predicate HoldsFile(env: Env, ref: FileRef) {
    env.resolve(ref.path).To? &&
    var path := env.resolve(ref.path).path;
    && path in env.repo && env.repo[path].kind.Regular?
    && 1 <= |env.repo[path].bytes| <= 16777216
    && env.sha256(env.repo[path].bytes) == ref.sha256
  }

  /** The file is such a file, decodes, nests at most 64 deep and parses to this object. */
  predicate HoldsJson(env: Env, path: string, json: Json) {
    && path in env.repo && env.repo[path].kind.Regular?
    && 1 <= |env.repo[path].bytes| <= 16777216
    && env.utf8(env.repo[path].bytes).Some?
    && DepthScan.Within(DepthScan.START, env.utf8(env.repo[path].bytes).value, 64)
    && env.parse(env.utf8(env.repo[path].bytes).value) == Some(json)
    && json.Obj?
  }

  lemma RefExactly(env: Env, ref: FileRef)
    ensures RefValid(env, ref) <==> HoldsFile(env, ref)
  {
  }

  lemma DocumentExactly(env: Env, path: string, json: Json)
    ensures Document(env, path) == Some(json) <==> HoldsJson(env, path, json)
  {
    hide DepthScan.Within;
  }

  // The record.

  /** A reference is an object of three fields; a path or a digest that is not a string names no file. */
  predicate NamesFile(json: Json, ref: FileRef) {
    && json.Obj? && json.fields.Keys == {"repository_path", "sha256", "extensions"}
    && json.fields["repository_path"] == Str(ref.path) && json.fields["sha256"] == Str(ref.sha256)
    && json.fields["extensions"].Obj?
  }

  predicate ListsTexts(list: Json, texts: seq<string>) {
    list.Arr? && |list.items| == |texts| && forall k :: 0 <= k < |texts| ==> list.items[k] == Str(texts[k])
  }

  predicate WellFormed(ctx: Context, record: Json, id: string, ids: seq<string>, manifest: FileRef, run: FileRef) {
    && record.Obj? && record.fields.Keys == {"id", "conformance_record_ids", "manifest", "run", "extensions"}
    && record.fields["id"] == Str(id) && 1 <= |id| <= 256
    && ListsTexts(record.fields["conformance_record_ids"], ids) && |ids| <= 256
    && (forall id :: id in ids ==> 1 <= |id| <= 256 && id in ctx.knownConformance)
    && (forall i, j :: 0 <= i < j < |ids| ==> ids[i] != ids[j])
    && record.fields["extensions"].Obj?
    && NamesFile(record.fields["manifest"], manifest) && NamesFile(record.fields["run"], run)
  }

  ghost predicate Shaped(ctx: Context, record: Json, id: string, ids: seq<string>, refs: Refs) {
    && ShapeSound(ctx, record) && id == IdOf(record) && ids == ConformanceIds(record)
    && refs == Refs(RefOf(record.fields["manifest"]), RefOf(record.fields["run"]))
  }

  lemma NamesFileIs(json: Json, ref: FileRef)
    ensures NamesFile(json, ref) <==> RefShape(json) && RefOf(json) == Some(ref)
  {
  }

  lemma IdsAre(record: Json, ids: seq<string>)
    requires HasKeys(record)
    ensures ConformanceShape(record.fields["conformance_record_ids"]) && ids == ConformanceIds(record) <==>
            ListsTexts(record.fields["conformance_record_ids"], ids) && |ids| <= 256 && forall id :: id in ids ==> 1 <= |id| <= 256
  {
    var list := record.fields["conformance_record_ids"];
    if ListsTexts(list, ids) && |ids| <= 256 && forall id :: id in ids ==> 1 <= |id| <= 256 {
      forall item | item in list.items
        ensures BoundedString(item)
      {
        var k :| 0 <= k < |ids| && list.items[k] == item;
        assert ids[k] in ids;
      }
      assert Texts(list.items) == ids;
    }
    if ConformanceShape(list) && ids == ConformanceIds(record) {
      forall id | id in ids
        ensures 1 <= |id| <= 256
      {
        var k :| 0 <= k < |ids| && ids[k] == id;
        assert list.items[k] in list.items;
      }
      assert forall k :: 0 <= k < |ids| ==> list.items[k] in list.items;
    }
  }

  lemma ShapeExactly(ctx: Context, record: Json, id: string, ids: seq<string>, manifest: FileRef, run: FileRef)
    ensures WellFormed(ctx, record, id, ids, manifest, run) <==> Shaped(ctx, record, id, ids, Refs(Some(manifest), Some(run)))
  {
    if HasKeys(record) {
      IdsAre(record, ids);
      IdIs(record, id);
      NamesFileIs(record.fields["manifest"], manifest);
      NamesFileIs(record.fields["run"], run);
      assert Distinct(ids) <==> forall i, j :: 0 <= i < j < |ids| ==> ids[i] != ids[j];
      hide ConformanceShape, ConformanceIds, ListsTexts, NamesFile, RefShape, RefOf, RECORD_KEYS, HasId, IdOf, Distinct;
    }
  }

  lemma IdIs(record: Json, id: string)
    requires HasKeys(record)
    ensures record.fields["id"] == Str(id) && 1 <= |id| <= 256 <==> HasId(record) && id == IdOf(record)
  {
  }

  // The run and its source.

  /** The run is bound to the manifest bytes and to the subject, and so is its source; a release was made from a clean commit. */
  predicate BoundToSource(env: Env, ctx: Context, manifest: Manifest, run: Run, manifestSha256: string) {
    && run.chainId == manifest.id && run.manifestSha256 == manifestSha256
    && run.subject == ctx.subject && run.attestation.subject == ctx.subject
    && (ctx.release ==>
          && run.attestation.release
          && run.attestation.cleanBefore && run.attestation.cleanAfter && run.attestation.stateUnchanged
          && env.committed(run.attestation.revision) == Some((ctx.subject, run.attestation.tree)))
  }

  predicate NoOwnManifest(ctx: Context, manifest: Manifest, ids: seq<string>) {
    forall id, contract :: id in ids && id in ctx.providerManifests && contract in manifest.contracts ==>
      contract.path != ctx.providerManifests[id]
  }

  lemma CycleExactly(ctx: Context, manifest: Manifest, ids: seq<string>)
    ensures NoOwnManifest(ctx, manifest, ids) <==> forall id :: id in ids ==> !InClaimCycle(ctx, manifest, id)
  {
    forall id | id in ids
      ensures InClaimCycle(ctx, manifest, id) <==>
              id in ctx.providerManifests && exists c :: c in manifest.contracts && c.path == ctx.providerManifests[id]
    {
      if id in ctx.providerManifests {
        if c :| c in manifest.contracts && c.path == ctx.providerManifests[id] {
          var k :| 0 <= k < |manifest.contracts| && manifest.contracts[k] == c;
        }
      }
    }
    hide InClaimCycle;
  }

  // The artifacts.

  /** The file of an artifact is where its own spelling says, with the stated size and digest. */
  predicate IsOnFile(env: Env, a: Artifact) {
    var path := Paths.Plain(a.path);
    && env.resolve(a.path) == To(path)
    && path in env.repo && env.repo[path].kind.Regular?
    && |env.repo[path].bytes| == a.bytes && env.sha256(env.repo[path].bytes) == a.sha256
  }

  /** The step that may produce an artifact of this role. */
  predicate MayProduce(manifest: Manifest, step: Step, role: Role) {
    match role
    case Other(_) => true
    case Trust(ContractTest) => true
    case Trust(PinnedRealDesign) => step.kind == SourceMaterialize
    case Trust(NativeRun) => step.kind == SemanticCommand && step.native
    case Trust(IndependentArtifactCheck) => step.kind == IndependentOracle
    case Trust(NormalizedEvidence) => step.kind == SemanticCommand && !step.native
    case Trust(DownstreamDecision) => step.kind == SemanticCommand && !step.native
    case Trust(AgentVisibleEvidence) => step.kind == IndependentDecision && step.id == manifest.resultStep
    case Trust(NegativeReplay) => true
    case Trust(TamperReplay) => true
  }

  ghost predicate ComesFrom(manifest: Manifest, a: Artifact) {
    match a.role
    case Trust(NegativeReplay) => exists r :: r in manifest.negativeReplays && a.replayId == Some(r.id)
    case Trust(TamperReplay) => exists r :: r in manifest.tamperReplays && a.replayId == Some(r.id)
    case _ => exists s :: IsLastOf(manifest.steps, s, a.sourceStep.value) && a.sourceOutput.value in s.produces && MayProduce(manifest, s, a.role)
  }

  /** The step with this id; the last one where ids repeat. */
  ghost predicate IsLastOf(steps: seq<Step>, s: Step, id: string) {
    exists i :: 0 <= i < |steps| && steps[i] == s && s.id == id && forall j :: i < j < |steps| ==> steps[j].id != id
  }

  /** One artifact and one only of the role is that of this replay. */
  ghost predicate ReplayedOnce(run: Run, role: Role, id: string) {
    exists k :: IsReplayOf(run, k, role, id) && forall j :: IsReplayOf(run, j, role, id) ==> j == k
  }

  ghost predicate IsReplayOf(run: Run, k: int, role: Role, id: string) {
    0 <= k < |run.artifacts| && run.artifacts[k].role == role && run.artifacts[k].replayId == Some(id)
  }

  /** Every artifact is on file and comes from where it may, and no path, digest of a trust role or replay id is used twice. */
  ghost predicate FilesInventoried(env: Env, manifest: Manifest, run: Run) {
    && (forall a :: a in run.artifacts ==> IsOnFile(env, a) && ComesFrom(manifest, a))
    && (forall i, j :: 0 <= i < j < |run.artifacts| ==> run.artifacts[i].path != run.artifacts[j].path)
    && (forall i, j :: 0 <= i < j < |run.artifacts| && run.artifacts[i].role.Trust? && run.artifacts[j].role.Trust? ==>
          run.artifacts[i].sha256 != run.artifacts[j].sha256)
    && (forall i, j :: 0 <= i < j < |manifest.negativeReplays| ==> manifest.negativeReplays[i].id != manifest.negativeReplays[j].id)
    && (forall i, j :: 0 <= i < j < |manifest.tamperReplays| ==> manifest.tamperReplays[i].id != manifest.tamperReplays[j].id)
  }

  ghost predicate Inventoried(env: Env, manifest: Manifest, run: Run) {
    && FilesInventoried(env, manifest, run)
    && (forall check :: check in run.checks ==> exists a :: a in run.artifacts && a.role == Trust(check))
    && (NegativeReplay in run.checks ==> forall r :: r in manifest.negativeReplays ==> ReplayedOnce(run, Trust(NegativeReplay), r.id))
    && (TamperReplay in run.checks ==> forall r :: r in manifest.tamperReplays ==> ReplayedOnce(run, Trust(TamperReplay), r.id))
    && (PinnedRealDesign in run.checks <==> manifest.designClass == PublicDesign || manifest.designClass == PublicTapeout)
  }

  lemma {:induction false} StepOfId(steps: seq<Step>, id: string, s: Step)
    ensures StepById(steps, id) == Some(s) <==> IsLastOf(steps, s, id)
  {
    if steps != [] {
      var n := |steps| - 1;
      StepOfId(steps[..n], id, s);
      LastOfNext(steps, s, id);
      hide IsLastOf;
    }
  }

  lemma LastOfNext(steps: seq<Step>, s: Step, id: string)
    requires steps != []
    ensures var n := |steps| - 1;
            IsLastOf(steps, s, id) <==> if steps[n].id == id then s == steps[n] else IsLastOf(steps[..n], s, id)
  {
    var n := |steps| - 1;
    if IsLastOf(steps, s, id) {
      var i :| 0 <= i < |steps| && steps[i] == s && s.id == id && forall j :: i < j < |steps| ==> steps[j].id != id;
      if steps[n].id != id {
        assert steps[..n][i] == s;
      }
    }
    if steps[n].id != id && IsLastOf(steps[..n], s, id) {
      var i :| 0 <= i < n && steps[..n][i] == s && s.id == id && forall j :: i < j < n ==> steps[..n][j].id != id;
      assert steps[i] == s && forall j :: i < j < n ==> steps[j] == steps[..n][j];
    }
  }

  lemma FitsExactly(manifest: Manifest, step: Step, role: Role)
    requires !IsReplayRole(role)
    ensures StepFits(role, step, manifest) <==> MayProduce(manifest, step, role)
  {
  }

  lemma OriginExactly(manifest: Manifest, a: Artifact)
    ensures OriginValid(manifest, a) <==> ComesFrom(manifest, a)
  {
    hide StepById, IsLastOf, StepFits, MayProduce;
    if IsReplayRole(a.role) {
      DeclaredExactly(manifest, a.role, a.replayId.value);
    } else {
      forall s
        ensures StepById(manifest.steps, a.sourceStep.value) == Some(s) <==> IsLastOf(manifest.steps, s, a.sourceStep.value)
        ensures StepFits(a.role, s, manifest) <==> MayProduce(manifest, s, a.role)
      {
        StepOfId(manifest.steps, a.sourceStep.value, s);
        FitsExactly(manifest, s, a.role);
      }
    }
  }

  lemma DeclaredExactly(manifest: Manifest, role: Role, id: string)
    requires IsReplayRole(role)
    ensures id in DeclaredReplays(manifest, role) <==>
            if role == Trust(NegativeReplay) then exists r :: r in manifest.negativeReplays && id == r.id
            else exists r :: r in manifest.tamperReplays && id == r.id
  {
    var replays := if role == Trust(NegativeReplay) then manifest.negativeReplays else manifest.tamperReplays;
    if r :| r in replays && id == r.id {
      var k :| 0 <= k < |replays| && replays[k] == r;
      assert ReplayIds(replays)[k] == id;
    }
    if id in ReplayIds(replays) {
      var k :| 0 <= k < |replays| && ReplayIds(replays)[k] == id;
      assert replays[k] in replays;
    }
  }

  lemma {:induction false} CountExactly(artifacts: seq<Artifact>, role: Role, id: string, k: nat)
    requires k < |artifacts| && artifacts[k].role == role && artifacts[k].replayId == Some(id)
    requires forall j :: 0 <= j < |artifacts| && artifacts[j].role == role && artifacts[j].replayId == Some(id) ==> j == k
    ensures ReplayCount(artifacts, role, id) == 1
    decreases |artifacts|
  {
    var n := |artifacts| - 1;
    if k < n {
      CountExactly(artifacts[..n], role, id, k);
    } else {
      NotCounted(artifacts[..n], role, id);
    }
  }

  lemma {:induction false} NotCounted(artifacts: seq<Artifact>, role: Role, id: string)
    requires forall j :: 0 <= j < |artifacts| ==> !(artifacts[j].role == role && artifacts[j].replayId == Some(id))
    ensures ReplayCount(artifacts, role, id) == 0
  {
    if artifacts != [] {
      NotCounted(artifacts[..|artifacts| - 1], role, id);
    }
  }

  lemma OnceExactly(run: Run, role: Role, id: string)
    ensures ReplayedOnce(run, role, id) <==> ReplayCount(run.artifacts, role, id) == 1
  {
    if ReplayCount(run.artifacts, role, id) == 1 {
      var k := CountedOnce(run.artifacts, role, id);
      assert IsReplayOf(run, k, role, id);
    }
    if ReplayedOnce(run, role, id) {
      var k :| IsReplayOf(run, k, role, id) && forall j :: IsReplayOf(run, j, role, id) ==> j == k;
      assert forall j :: 0 <= j < |run.artifacts| && run.artifacts[j].role == role && run.artifacts[j].replayId == Some(id) ==> IsReplayOf(run, j, role, id);
      CountExactly(run.artifacts, role, id, k);
    }
  }

  lemma InventoriedIs(env: Env, manifest: Manifest, run: Run)
    ensures Inventoried(env, manifest, run) <==>
            && FilesInventoried(env, manifest, run)
            && (forall check :: check in run.checks ==> Backed(run.artifacts, check))
            && (NegativeReplay in run.checks ==> ReplaysComplete(run, manifest, NegativeReplay))
            && (TamperReplay in run.checks ==> ReplaysComplete(run, manifest, TamperReplay))
            && (PinnedRealDesign in run.checks <==> !manifest.designClass.Synthetic?)
  {
    ReplaysExactly(manifest, run, NegativeReplay);
    ReplaysExactly(manifest, run, TamperReplay);
    BackedExactly(run);
    hide FilesInventoried, Backed, ReplaysComplete, ReplayedOnce, ManifestAdmitted;
  }

  lemma InventoryExactly(env: Env, manifest: Manifest, run: Run)
    ensures InventorySound(env, run, manifest) <==> Inventoried(env, manifest, run)
  {
    hide *;
    InventoryIs(env, run, manifest);
    InventoriedIs(env, manifest, run);
    FilesExactly(env, manifest, run);
  }

  lemma ReplaysExactly(manifest: Manifest, run: Run, check: Evidence)
    requires check == NegativeReplay || check == TamperReplay
    ensures ReplaysComplete(run, manifest, check) <==>
            if check == NegativeReplay then forall r :: r in manifest.negativeReplays ==> ReplayedOnce(run, Trust(check), r.id)
            else forall r :: r in manifest.tamperReplays ==> ReplayedOnce(run, Trust(check), r.id)
  {
    forall id
      ensures ReplayedOnce(run, Trust(check), id) <==> ReplayCount(run.artifacts, Trust(check), id) == 1
      ensures id in DeclaredReplays(manifest, Trust(check)) <==>
              if check == NegativeReplay then exists r :: r in manifest.negativeReplays && id == r.id
              else exists r :: r in manifest.tamperReplays && id == r.id
    {
      OnceExactly(run, Trust(check), id);
      DeclaredExactly(manifest, Trust(check), id);
    }
    hide ReplayedOnce, ReplayCount, DeclaredReplays;
  }

  lemma BackedExactly(run: Run)
    ensures forall check :: Backed(run.artifacts, check) <==> exists a :: a in run.artifacts && a.role == Trust(check)
  {
    forall check | exists a :: a in run.artifacts && a.role == Trust(check)
      ensures Backed(run.artifacts, check)
    {
      var a :| a in run.artifacts && a.role == Trust(check);
      var k :| 0 <= k < |run.artifacts| && run.artifacts[k] == a;
      assert HasRole(run.artifacts, k, Trust(check));
    }
  }

  lemma FilesExactly(env: Env, manifest: Manifest, run: Run)
    ensures FilesSound(env, run, manifest) <==> FilesInventoried(env, manifest, run)
  {
    forall a | a in run.artifacts
      ensures ContentValid(env, a) && OriginValid(manifest, a) <==> IsOnFile(env, a) && ComesFrom(manifest, a)
    {
      OriginExactly(manifest, a);
      assert ContentValid(env, a) <==> IsOnFile(env, a);
    }
    IdsDiffer(manifest.negativeReplays);
    IdsDiffer(manifest.tamperReplays);
    hide ContentValid, OriginValid, IsOnFile, ComesFrom, Distinct, ReplayIds;
  }

  lemma IdsDiffer(replays: seq<Replay>)
    ensures Distinct(ReplayIds(replays)) <==> forall i, j :: 0 <= i < j < |replays| ==> replays[i].id != replays[j].id
  {
    var ids := ReplayIds(replays);
    if Distinct(ids) {
      forall i, j | 0 <= i < j < |replays|
        ensures replays[i].id != replays[j].id
      {
        assert ids[i] != ids[j];
      }
    }
  }

  // The steps.

  ghost predicate NativeFeedsOracle(steps: seq<Step>, i: int, j: int, role: string) {
    && 0 <= i < j < |steps|
    && steps[i].kind == SemanticCommand && steps[i].native && steps[j].kind == IndependentOracle
    && role in steps[i].produces && role in steps[j].consumes
  }

  /** Every role is consumed after the one step that produces it, an oracle looks at native output, and the result is a decision. */
  ghost predicate InSequence(steps: seq<Step>, resultStep: string) {
    && (forall i, j :: 0 <= i < j < |steps| ==> steps[i].id != steps[j].id)
    && (forall j, role :: 0 <= j < |steps| && role in steps[j].consumes ==> exists i :: 0 <= i < j && role in steps[i].produces)
    && (forall i, j, role :: 0 <= i < j < |steps| && role in steps[i].produces ==> role !in steps[j].produces)
    && (exists i, j, role :: NativeFeedsOracle(steps, i, j, role))
    && (exists s :: s in steps && s.id == resultStep && s.kind == IndependentDecision)
    && (exists s :: s in steps && s.kind == SourceMaterialize)
  }

  predicate HoldsStepFiles(env: Env, step: Step) {
    && (step.request.Some? ==> HoldsFile(env, step.request.value))
    && (step.implementation.Some? ==> HoldsFile(env, step.implementation.value))
    && (step.kind == IndependentOracle && step.implementation.Some? ==> env.oracleSource(env.repo, step.implementation.value) == Accepts)
  }

  lemma OracleExactly(steps: seq<Step>)
    ensures OracleConsumesNative(steps) <==> exists i, j, role :: NativeFeedsOracle(steps, i, j, role)
  {
    if OracleConsumesNative(steps) {
      var i, j :| 0 <= i < j && IsNativeCommandAt(steps, i) && IsOracleAt(steps, j) && Feeds(steps, i, j);
      var role :| role in steps[i].produces && role in steps[j].consumes;
      assert NativeFeedsOracle(steps, i, j, role);
    }
    if i, j, role :| NativeFeedsOracle(steps, i, j, role) {
      assert IsNativeCommandAt(steps, i) && IsOracleAt(steps, j) && Feeds(steps, i, j);
    }
  }

  lemma OrderedExactly(steps: seq<Step>)
    ensures RolesOrdered(steps) <==>
            forall j, role :: 0 <= j < |steps| && role in steps[j].consumes ==> exists i :: 0 <= i < j && role in steps[i].produces
  {
    forall j, role | 0 <= j < |steps|
      ensures ProducedBefore(steps, j, role) <==> exists i :: 0 <= i < j && role in steps[i].produces
    {
    }
    hide ProducedBefore;
  }

  lemma SequenceExactly(steps: seq<Step>, resultStep: string)
    ensures InSequence(steps, resultStep) <==>
            WellOrdered(steps) && OracleConsumesNative(steps) && StepInventory(steps, resultStep)
  {
    OracleExactly(steps);
    OrderedExactly(steps);
    KindsExactly(steps, resultStep);
    hide RolesOrdered, OracleConsumesNative, NativeFeedsOracle, StepInventory;
  }

  /** Where an oracle looks at native output there are both. */
  lemma KindsExactly(steps: seq<Step>, resultStep: string)
    requires OracleConsumesNative(steps) <==> exists i, j, role :: NativeFeedsOracle(steps, i, j, role)
    ensures OracleConsumesNative(steps) ==>
              (StepInventory(steps, resultStep) <==>
               && UniqueIds(steps)
               && (exists s :: s in steps && s.id == resultStep && s.kind == IndependentDecision)
               && (exists s :: s in steps && s.kind == SourceMaterialize))
    ensures StepInventory(steps, resultStep) ==> UniqueIds(steps)
  {
    hide OracleConsumesNative, UniqueIds;
    if i, j, role :| NativeFeedsOracle(steps, i, j, role) {
      assert steps[i] in steps && IsNativeCommand(steps[i]) && steps[j] in steps && steps[j].kind.IndependentOracle?;
    }
  }

  lemma StepFilesExactly(env: Env, step: Step)
    ensures StepRefsValid(env, step) <==> HoldsStepFiles(env, step)
  {
    hide Readable;
    if step.request.Some? {
      RefExactly(env, step.request.value);
    }
    if step.implementation.Some? {
      RefExactly(env, step.implementation.value);
    }
    hide RefValid, HoldsFile;
  }

  // The rows.

  predicate RunsNatively(operation: string) {
    || operation == "openada.operation/circuit.simulate/v1alpha1"
    || operation == "openada.operation/circuit.simulate/v1alpha2"
    || operation == "openada.operation/logic.synthesize/v1alpha1"
    || operation == "openada.operation/rtl.lint/v1alpha1"
    || operation == "openada.operation/rtl.test/v1alpha1"
    || operation == "openada.operation/timing.analyze/v1alpha1"
  }

  /** A class in the catalog decides, then the kind of provider, then the operation, then the classification. */
  predicate NeedsNative(row: RowSpec) {
    if row.declaredClass.Some? then row.declaredClass.value == NativeEda
    else if row.providerKind == Some(EdaDriver) || row.providerKind == Some(EvidenceKernel) then row.providerKind == Some(EdaDriver)
    else if row.operation.Some? then RunsNatively(row.operation.value)
    else row.classification == TransportExecution || row.classification == SemanticExecution
  }

  predicate NeedsDerived(row: RowSpec) {
    if row.declaredClass.Some? then row.declaredClass.value == ArtifactKernel
    else if row.providerKind == Some(EdaDriver) || row.providerKind == Some(EvidenceKernel) then row.providerKind == Some(EvidenceKernel)
    else row.operation.Some? && !RunsNatively(row.operation.value)
  }

  ghost predicate Runs(steps: seq<Step>, i: int, rowId: string) {
    0 <= i < |steps| && steps[i].kind == SemanticCommand && rowId in steps[i].covers
  }

  ghost predicate LeadsToResult(manifest: Manifest, i: int) {
    exists r :: 0 <= r < |manifest.steps| && manifest.steps[r].id == manifest.resultStep && Reaches(manifest.steps, i, r)
  }

  ghost predicate FollowsNative(steps: seq<Step>, i: int) {
    exists n :: 0 <= n < |steps| && steps[n].kind == SemanticCommand && steps[n].native && Reaches(steps, n, i)
  }

  /** A command runs the row and leads to the result; a native row has a native one, a derived row one after a native command. */
  ghost predicate Evidenced(manifest: Manifest, row: RowSpec, rowId: string) {
    && (exists i :: Runs(manifest.steps, i, rowId) && LeadsToResult(manifest, i))
    && (NeedsNative(row) ==> exists i :: Runs(manifest.steps, i, rowId) && manifest.steps[i].native)
    && (NeedsDerived(row) ==> exists i :: Runs(manifest.steps, i, rowId) && !manifest.steps[i].native && FollowsNative(manifest.steps, i))
    && (row.declaredClass.Some? ==> !row.declaredClass.value.Unrecognized?)
  }

  lemma ClassExactly(row: RowSpec)
    ensures RowExecutionClass(row) == NativeEda <==> NeedsNative(row)
    ensures RowExecutionClass(row) == ArtifactKernel <==> NeedsDerived(row)
    ensures RowExecutionClass(row).Unrecognized? <==> row.declaredClass.Some? && row.declaredClass.value.Unrecognized?
  {
  }

  lemma AncestorAt(steps: seq<Step>, i: nat, j: nat)
    requires WellOrdered(steps) && i < |steps| && j < |steps|
    ensures steps[i].id in AncestorsOf(steps, steps[j].id) <==> Reaches(steps, i, j)
  {
    AncestorClosure(steps, j, steps[i].id);
    hide AncestorsOf, Reaches, RolesOrdered, RolesDefinedOnce;
  }

  lemma ResultExactly(manifest: Manifest, rowId: string)
    requires WellOrdered(manifest.steps)
    ensures ConsumedByAgent(manifest, rowId) <==> exists i :: Runs(manifest.steps, i, rowId) && LeadsToResult(manifest, i)
  {
    var steps := manifest.steps;
    forall i: nat, j: nat | i < |steps| && j < |steps|
      ensures steps[i].id in AncestorsOf(steps, steps[j].id) <==> Reaches(steps, i, j)
    {
      AncestorAt(steps, i, j);
    }
    hide WellOrdered, AncestorsOf, Reaches;
    if ConsumedByAgent(manifest, rowId) {
      var s :| s in steps && Covers(s, rowId) && s.id in AncestorsOf(steps, manifest.resultStep);
      var i :| 0 <= i < |steps| && steps[i] == s;
      var r :| 0 <= r < |steps| && steps[r].id == manifest.resultStep;
      assert Reaches(steps, i, r);
      assert Runs(steps, i, rowId) && LeadsToResult(manifest, i);
    }
    if i :| Runs(steps, i, rowId) && LeadsToResult(manifest, i) {
      var r :| 0 <= r < |steps| && steps[r].id == manifest.resultStep && Reaches(steps, i, r);
      assert Covers(steps[i], rowId);
    }
  }

  lemma NativeExactly(steps: seq<Step>, i: nat)
    requires WellOrdered(steps) && i < |steps|
    ensures HasNativeAncestor(steps, steps[i].id) <==> FollowsNative(steps, i)
  {
    forall n: nat | n < |steps|
      ensures steps[n].id in AncestorsOf(steps, steps[i].id) <==> Reaches(steps, n, i)
    {
      AncestorAt(steps, n, i);
    }
    hide WellOrdered, AncestorsOf, Reaches;
    if HasNativeAncestor(steps, steps[i].id) {
      var s :| s in steps && IsNativeCommand(s) && s.id in AncestorsOf(steps, steps[i].id);
      var n :| 0 <= n < |steps| && steps[n] == s;
    }
    if n :| 0 <= n < |steps| && steps[n].kind == SemanticCommand && steps[n].native && Reaches(steps, n, i) {
      assert steps[n] in steps && IsNativeCommand(steps[n]);
    }
  }

  lemma SomeRuns(steps: seq<Step>, rowId: string)
    requires WellOrdered(steps)
    ensures (exists s :: s in steps && Covers(s, rowId)) <==> exists i :: Runs(steps, i, rowId)
    ensures (exists s :: s in steps && Covers(s, rowId) && s.native) <==> exists i :: Runs(steps, i, rowId) && steps[i].native
    ensures (exists s :: s in steps && Covers(s, rowId) && !s.native && HasNativeAncestor(steps, s.id)) <==>
            exists i :: Runs(steps, i, rowId) && !steps[i].native && FollowsNative(steps, i)
  {
    forall i: nat | i < |steps|
      ensures HasNativeAncestor(steps, steps[i].id) <==> FollowsNative(steps, i)
    {
      NativeExactly(steps, i);
    }
    hide WellOrdered, HasNativeAncestor, FollowsNative;
    forall s | s in steps && Covers(s, rowId)
      ensures exists i :: Runs(steps, i, rowId) && steps[i] == s
    {
      var i :| 0 <= i < |steps| && steps[i] == s;
      assert Runs(steps, i, rowId);
    }
    assert forall i :: Runs(steps, i, rowId) ==> steps[i] in steps && Covers(steps[i], rowId);
  }

  lemma ByClassExactly(steps: seq<Step>, row: RowSpec, rowId: string)
    requires WellOrdered(steps)
    ensures CoveredByClass(steps, row, rowId) <==>
            && (NeedsNative(row) ==> exists i :: Runs(steps, i, rowId) && steps[i].native)
            && (NeedsDerived(row) ==> exists i :: Runs(steps, i, rowId) && !steps[i].native && FollowsNative(steps, i))
            && (row.declaredClass.Some? ==> !row.declaredClass.value.Unrecognized?)
  {
    ClassExactly(row);
    SomeRuns(steps, rowId);
    hide WellOrdered, RowExecutionClass, NeedsNative, NeedsDerived, Runs, FollowsNative, HasNativeAncestor, Covers;
  }

  lemma EvidencedExactly(manifest: Manifest, row: RowSpec, rowId: string)
    requires WellOrdered(manifest.steps)
    ensures CoveredByClass(manifest.steps, row, rowId) && ConsumedByAgent(manifest, rowId) <==> Evidenced(manifest, row, rowId)
  {
    hide WellOrdered, CoveredByClass, NeedsNative, NeedsDerived, Runs, LeadsToResult, FollowsNative, ConsumedByAgent, ManifestAdmitted;
    ByClassExactly(manifest.steps, row, rowId);
    ResultExactly(manifest, rowId);
  }

  /** The chain declares exactly the rows that its commands run, the known ones among them are evidenced, and replays cover
      declared rows only. */
  ghost predicate Covered(manifest: Manifest, rows: map<string, RowSpec>) {
    && (forall rowId :: rowId in manifest.covers <==> exists i :: Runs(manifest.steps, i, rowId))
    && (forall rowId :: rowId in manifest.covers && rowId in rows ==> Evidenced(manifest, rows[rowId], rowId))
    && (forall r, rowId :: r in manifest.negativeReplays && rowId in r.covers ==> rowId in manifest.covers)
    && (forall r, rowId :: r in manifest.tamperReplays && rowId in r.covers ==> rowId in manifest.covers)
  }

  lemma CoveredExactly(manifest: Manifest, rows: map<string, RowSpec>)
    requires WellOrdered(manifest.steps)
    ensures Covered(manifest, rows) <==>
            && PositivelyCovered(manifest, rows)
            && (forall r :: r in manifest.negativeReplays ==> ReplayCoversDeclared(manifest, r))
            && (forall r :: r in manifest.tamperReplays ==> ReplayCoversDeclared(manifest, r))
  {
    forall rowId
      ensures Exercised(manifest, rowId) <==> exists i :: Runs(manifest.steps, i, rowId)
      ensures rowId in rows ==> (RowBound(manifest, rows, rowId) <==> Evidenced(manifest, rows[rowId], rowId))
    {
      SomeRuns(manifest.steps, rowId);
      if rowId in rows {
        EvidencedExactly(manifest, rows[rowId], rowId);
      }
      hide WellOrdered, CoveredByClass, ConsumedByAgent, Evidenced, Runs, Covers;
    }
    hide WellOrdered, RowBound, Exercised, Evidenced, Runs, ManifestAdmitted;
  }

  // What the agent sees.

  predicate SeenAt(env: Env, document: Json, pointer: string) {
    pointer != "" && JsonPointer.Walk(env.unicode, document, JsonPointer.PointerTokens(pointer)) == JsonPointer.Exists
  }

  ghost predicate IsSeen(env: Env, manifest: Manifest, a: Artifact, document: Json) {
    && env.resolve(a.path).To? && HoldsJson(env, env.resolve(a.path).path, document)
    && forall p :: p in manifest.requiredPointers ==> SeenAt(env, document, p)
  }

  ghost predicate OnlyVisible(run: Run, k: int) {
    && 0 <= k < |run.artifacts| && run.artifacts[k].role == Trust(AgentVisibleEvidence)
    && forall j :: 0 <= j < |run.artifacts| && run.artifacts[j].role == Trust(AgentVisibleEvidence) ==> j == k
  }

  /** The one agent-visible artifact of the run is a JSON object in which every required pointer leads somewhere. */
  ghost predicate SeenByAgent(env: Env, manifest: Manifest, run: Run) {
    exists k, document :: OnlyVisible(run, k) && IsSeen(env, manifest, run.artifacts[k], document)
  }

  lemma VisibleExactly(run: Run)
    ensures forall k :: OnlyAgentArtifact(run, k) <==> OnlyVisible(run, k)
  {
    forall k
      ensures OnlyAgentArtifact(run, k) <==> OnlyVisible(run, k)
    {
      if OnlyAgentArtifact(run, k) {
        assert forall j :: 0 <= j < |run.artifacts| && run.artifacts[j].role == Trust(AgentVisibleEvidence) ==> AgentArtifacts(run, j);
      }
    }
  }

  lemma SeenExactly(env: Env, manifest: Manifest, a: Artifact)
    ensures AgentDocumentSound(env, manifest, a) <==> exists document :: IsSeen(env, manifest, a, document)
  {
    hide HoldsJson, Document, JsonPointer.Walk, JsonPointer.PointerTokens;
    var path := env.resolve(a.path);
    if path.To? {
      forall document
        ensures Document(env, path.path) == Some(document) <==> HoldsJson(env, path.path, document)
        ensures PointersPresent(env, document, manifest.requiredPointers) <==>
                forall p :: p in manifest.requiredPointers ==> SeenAt(env, document, p)
      {
        DocumentExactly(env, path.path, document);
        assert forall p :: PointerPresent(env, document, p) == SeenAt(env, document, p);
      }
      hide PointersPresent, SeenAt;
      if AgentDocumentSound(env, manifest, a) {
        assert IsSeen(env, manifest, a, Document(env, path.path).value);
      }
    }
  }

  lemma AgentExactly(env: Env, manifest: Manifest, run: Run)
    ensures AgentEvidenceSound(env, manifest, run) <==> SeenByAgent(env, manifest, run)
  {
    VisibleExactly(run);
    forall k | OnlyVisible(run, k)
      ensures AgentDocumentSound(env, manifest, run.artifacts[k]) <==> exists document :: IsSeen(env, manifest, run.artifacts[k], document)
    {
      SeenExactly(env, manifest, run.artifacts[k]);
    }
    hide OnlyAgentArtifact, AgentDocumentSound, IsSeen;
  }

  // The chain and the record.

  /** What the manifest and the files it names must be like. */
  ghost predicate StructureRules(env: Env, ctx: Context, manifest: Manifest) {
    && (forall contract :: contract in manifest.contracts ==> HoldsFile(env, contract))
    && (forall step :: step in manifest.steps ==> HoldsStepFiles(env, step))
    && InSequence(manifest.steps, manifest.resultStep)
    && Covered(manifest, ctx.rows)
  }

  ghost predicate ChainRules(env: Env, ctx: Context, manifest: Manifest, run: Run) {
    && env.provenance(env.repo, manifest, run) == Accepts
    && SeenByAgent(env, manifest, run)
    && StructureRules(env, ctx, manifest)
    && env.releaseVerifier(env.repo, manifest, run, ctx.release) == Accepts
    && (forall rowId :: rowId in manifest.covers ==> rowId in ctx.rows)
  }

  lemma StructureExactly(env: Env, ctx: Context, manifest: Manifest)
    ensures StructureSound(env, ctx, manifest) <==> StructureRules(env, ctx, manifest)
  {
    hide RefValid, HoldsFile, StepRefsValid, HoldsStepFiles, WellOrdered, StepInventory, InSequence, Covered, PositivelyCovered,
      OracleConsumesNative, ReplayCoversDeclared;
    forall contract | contract in manifest.contracts
      ensures RefValid(env, contract) <==> HoldsFile(env, contract)
    {
      RefExactly(env, contract);
    }
    forall step | step in manifest.steps
      ensures StepRefsValid(env, step) <==> HoldsStepFiles(env, step)
    {
      StepFilesExactly(env, step);
    }
    SequenceExactly(manifest.steps, manifest.resultStep);
    OrderIs(manifest.steps, manifest.resultStep);
    if WellOrdered(manifest.steps) {
      CoveredExactly(manifest, ctx.rows);
    }
    hide ManifestAdmitted, RolesOrdered, RolesDefinedOnce;
  }

  lemma ChainExactly(env: Env, ctx: Context, manifest: Manifest, run: Run)
    ensures ChainSound(env, ctx, manifest, run) <==> ChainRules(env, ctx, manifest, run)
  {
    AgentExactly(env, manifest, run);
    StructureExactly(env, ctx, manifest);
    hide AgentEvidenceSound, SeenByAgent, StructureSound, StructureRules;
  }

  lemma OrderIs(steps: seq<Step>, resultStep: string)
    ensures RolesOrdered(steps) && RolesDefinedOnce(steps) && StepInventory(steps, resultStep) <==>
            WellOrdered(steps) && StepInventory(steps, resultStep)
  {
    hide RolesOrdered, RolesDefinedOnce, UniqueIds;
  }

  /** The file of a reference holds a JSON object that the schema reads as this manifest, or as this run. */
  ghost predicate HoldsManifest(env: Env, ref: FileRef, manifest: Manifest) {
    HoldsFile(env, ref) && exists json :: HoldsJson(env, env.resolve(ref.path).path, json) && env.manifest(json) == Some(manifest)
  }

  ghost predicate HoldsRun(env: Env, ref: FileRef, run: Run) {
    HoldsFile(env, ref) && exists json :: HoldsJson(env, env.resolve(ref.path).path, json) && env.run(json) == Some(run)
  }

  /** Every rule for a record that names these two files. */
  ghost predicate RulesFor(env: Env, ctx: Context, record: Json, c: Contribution, manifest: FileRef, run: FileRef) {
    && WellFormed(ctx, record, c.recordId, c.conformanceIds, manifest, run)
    && HoldsManifest(env, manifest, c.manifest) && HoldsRun(env, run, c.run) && c.runSha256 == run.sha256
    && NoOwnManifest(ctx, c.manifest, c.conformanceIds)
    && BoundToSource(env, ctx, c.manifest, c.run, manifest.sha256)
    && Inventoried(env, c.manifest, c.run)
    && ChainRules(env, ctx, c.manifest, c.run)
  }

  ghost predicate Rules(env: Env, ctx: Context, record: Json, c: Contribution) {
    exists manifest, run :: RulesFor(env, ctx, record, c, manifest, run)
  }

  lemma FilesAreHeld(env: Env, refs: Refs, manifest: Manifest, run: Run)
    requires refs.manifest.Some? && refs.run.Some?
    ensures HoldsManifest(env, refs.manifest.value, manifest) && HoldsRun(env, refs.run.value, run) <==>
            RefsValid(env, refs) && ManifestAt(env, refs) == Some(manifest) && RunAt(env, refs) == Some(run)
  {
    hide Document, HoldsJson, RefValid, HoldsFile, ManifestAdmitted;
    RefExactly(env, refs.manifest.value);
    RefExactly(env, refs.run.value);
    forall path, json
      ensures Document(env, path) == Some(json) <==> HoldsJson(env, path, json)
    {
      DocumentExactly(env, path, json);
    }
    assert HoldsFile(env, refs.manifest.value) ==> env.resolve(refs.manifest.value.path).To? by { HeldIsTo(env, refs.manifest.value); }
    assert HoldsFile(env, refs.run.value) ==> env.resolve(refs.run.value.path).To? by { HeldIsTo(env, refs.run.value); }
  }

  lemma HeldIsTo(env: Env, ref: FileRef)
    ensures HoldsFile(env, ref) ==> env.resolve(ref.path).To?
  {
  }

  /** The loader accepts the record as this contribution, from these two files. */
  ghost predicate Loads(env: Env, ctx: Context, record: Json, c: Contribution, manifest: FileRef, run: FileRef) {
    LoadedAs(env, ctx, record, Refs(Some(manifest), Some(run)), c) && ChainSound(env, ctx, c.manifest, c.run)
  }

  lemma BoundExactly(env: Env, ctx: Context, refs: Refs, manifest: Manifest, run: Run)
    requires RefsValid(env, refs)
    ensures BoundToSource(env, ctx, manifest, run, refs.manifest.value.sha256) <==>
            Bound(env, ctx, refs, manifest, run) && AttestationSound(env, ctx, run.attestation, run)
  {
    hide Readable;
  }

  predicate FreeOfCycles(ctx: Context, manifest: Manifest, ids: seq<string>) {
    forall id :: id in ids ==> !InClaimCycle(ctx, manifest, id)
  }

  lemma LoadsIs(env: Env, ctx: Context, record: Json, c: Contribution, manifest: FileRef, run: FileRef)
    ensures var refs := Refs(Some(manifest), Some(run));
            Loads(env, ctx, record, c, manifest, run) <==>
            && Shaped(ctx, record, c.recordId, c.conformanceIds, refs)
            && RefsValid(env, refs) && ManifestAt(env, refs) == Some(c.manifest) && RunAt(env, refs) == Some(c.run)
            && c.runSha256 == run.sha256
            && FreeOfCycles(ctx, c.manifest, c.conformanceIds)
            && Bound(env, ctx, refs, c.manifest, c.run) && AttestationSound(env, ctx, c.run.attestation, c.run)
            && InventorySound(env, c.run, c.manifest)
            && ChainSound(env, ctx, c.manifest, c.run)
  {
    hide RefsValid, ManifestAt, RunAt, InClaimCycle, Bound, AttestationSound, InventorySound, ChainSound, ManifestAdmitted,
      ConformanceIds, ConformanceShape, RefShape, RefOf, Distinct;
  }

  lemma RulesAre(env: Env, ctx: Context, record: Json, c: Contribution, manifest: FileRef, run: FileRef)
    ensures RulesFor(env, ctx, record, c, manifest, run) <==>
            && WellFormed(ctx, record, c.recordId, c.conformanceIds, manifest, run)
            && HoldsManifest(env, manifest, c.manifest) && HoldsRun(env, run, c.run) && c.runSha256 == run.sha256
            && NoOwnManifest(ctx, c.manifest, c.conformanceIds)
            && BoundToSource(env, ctx, c.manifest, c.run, manifest.sha256)
            && Inventoried(env, c.manifest, c.run)
            && ChainRules(env, ctx, c.manifest, c.run)
  {
    hide WellFormed, HoldsManifest, HoldsRun, NoOwnManifest, BoundToSource, Inventoried, ChainRules;
  }

  lemma LoadsExactly(env: Env, ctx: Context, record: Json, c: Contribution, manifest: FileRef, run: FileRef)
    ensures Loads(env, ctx, record, c, manifest, run) <==> RulesFor(env, ctx, record, c, manifest, run)
  {
    var refs := Refs(Some(manifest), Some(run));
    hide *;
    LoadsIs(env, ctx, record, c, manifest, run);
    RulesAre(env, ctx, record, c, manifest, run);
    ShapeExactly(ctx, record, c.recordId, c.conformanceIds, manifest, run);
    FilesAreHeld(env, refs, c.manifest, c.run);
    CyclesExactly(ctx, c.manifest, c.conformanceIds);
    if RefsValid(env, refs) {
      BoundExactly(env, ctx, refs, c.manifest, c.run);
    }
    ChainExactly(env, ctx, c.manifest, c.run);
    InventoryExactly(env, c.manifest, c.run);
  }

  lemma CyclesExactly(ctx: Context, manifest: Manifest, ids: seq<string>)
    ensures NoOwnManifest(ctx, manifest, ids) <==> FreeOfCycles(ctx, manifest, ids)
  {
    CycleExactly(ctx, manifest, ids);
    hide InClaimCycle, NoOwnManifest;
  }

  lemma ContributedLoads(env: Env, ctx: Context, record: Json, c: Contribution)
    ensures Contributed(env, ctx, record) == Some(c) <==> exists manifest, run :: Loads(env, ctx, record, c, manifest, run)
  {
    hide Contributed, ChainSound, LoadedAs, ManifestAdmitted;
    if Contributed(env, ctx, record) == Some(c) {
      var refs := Unpack(env, ctx, record, c);
      LoadedRefs(env, ctx, record, refs, c);
      assert refs == Refs(Some(refs.manifest.value), Some(refs.run.value));
      assert Loads(env, ctx, record, c, refs.manifest.value, refs.run.value);
    }
    if manifest, run :| Loads(env, ctx, record, c, manifest, run) {
      Pack(env, ctx, record, Refs(Some(manifest), Some(run)), c);
    }
  }

  lemma LoadedRefs(env: Env, ctx: Context, record: Json, refs: Refs, c: Contribution)
    requires LoadedAs(env, ctx, record, refs, c)
    ensures refs.manifest.Some? && refs.run.Some?
  {
  }

  /** A record is admitted, and as this contribution, exactly under these rules. */
  lemma AdmittedExactly(env: Env, ctx: Context, record: Json, c: Contribution)
    ensures Contributed(env, ctx, record) == Some(c) <==> Rules(env, ctx, record, c)
  {
    hide Contributed, Loads, RulesFor, ManifestAdmitted;
    ContributedLoads(env, ctx, record, c);
    forall manifest, run
      ensures Loads(env, ctx, record, c, manifest, run) <==> RulesFor(env, ctx, record, c, manifest, run)
    {
      LoadsExactly(env, ctx, record, c, manifest, run);
    }
  }

  // When loading a record raises.

  predicate ShortText(json: Json) {
    json.Str? && 1 <= |json.text| <= 256
  }

  predicate IsReference(json: Json) {
    json.Obj? && json.fields.Keys == {"repository_path", "sha256", "extensions"} && json.fields["extensions"].Obj?
  }

  /** Enough of a record for its two files to be looked at. */
  predicate NamesBothFiles(record: Json) {
    && record.Obj? && record.fields.Keys == {"id", "conformance_record_ids", "manifest", "run", "extensions"}
    && ShortText(record.fields["id"])
    && record.fields["conformance_record_ids"].Arr? && |record.fields["conformance_record_ids"].items| <= 256
    && (forall item :: item in record.fields["conformance_record_ids"].items ==> ShortText(item))
    && IsReference(record.fields["manifest"]) && IsReference(record.fields["run"])
  }

  predicate NamesNothing(env: Env, ref: Json) {
    ref.Obj? && "repository_path" in ref.fields && ref.fields["repository_path"].Str?
    && env.resolve(ref.fields["repository_path"].text) == Unresolvable
  }

  predicate HaltsAtArtifact(env: Env, a: Artifact) {
    || env.resolve(a.path) == Unresolvable
    || (env.resolve(a.path).To? && env.resolve(a.path).path in env.repo && env.repo[env.resolve(a.path).path].kind == Directory)
  }

  predicate HaltsAtPath(env: Env, ref: Option<FileRef>) {
    ref.Some? && env.resolve(ref.value.path) == Unresolvable
  }

  predicate HaltsAtStep(env: Env, step: Step) {
    || HaltsAtPath(env, step.request) || HaltsAtPath(env, step.implementation)
    || (step.kind == IndependentOracle && step.implementation.Some? && env.oracleSource(env.repo, step.implementation.value) == Raises)
  }

  predicate HaltsAtPointer(env: Env, document: Json, pointer: string) {
    pointer != "" && JsonPointer.Walk(env.unicode, document, JsonPointer.PointerTokens(pointer)) == JsonPointer.Raises
  }

  ghost predicate HaltsAtDocument(env: Env, manifest: Manifest, a: Artifact, document: Json) {
    && env.resolve(a.path).To? && HoldsJson(env, env.resolve(a.path).path, document)
    && exists p :: p in manifest.requiredPointers && HaltsAtPointer(env, document, p)
  }

  ghost predicate HaltsAtAgent(env: Env, manifest: Manifest, run: Run) {
    exists k :: OnlyVisible(run, k) &&
      (env.resolve(run.artifacts[k].path) == Unresolvable || exists document :: HaltsAtDocument(env, manifest, run.artifacts[k], document))
  }

  /** `clean`: the record has met every rule that is checked before its chain. */
  ghost predicate HaltsOnChain(env: Env, ctx: Context, manifest: Manifest, run: Run, clean: bool) {
    || env.provenance(env.repo, manifest, run) == Raises
    || HaltsAtAgent(env, manifest, run)
    || (exists contract :: contract in manifest.contracts && env.resolve(contract.path) == Unresolvable)
    || (exists step :: step in manifest.steps && HaltsAtStep(env, step))
    || (clean && env.provenance(env.repo, manifest, run) == Accepts && SeenByAgent(env, manifest, run) && StructureRules(env, ctx, manifest)
        && env.releaseVerifier(env.repo, manifest, run, ctx.release) == Raises)
  }

  lemma AgentHaltsExactly(env: Env, manifest: Manifest, run: Run)
    ensures AgentRaises(env, manifest, run) <==> HaltsAtAgent(env, manifest, run)
  {
    VisibleExactly(run);
    forall k | OnlyVisible(run, k)
      ensures AgentDocumentRaises(env, manifest, run.artifacts[k]) <==>
              (env.resolve(run.artifacts[k].path) == Unresolvable ||
               exists document :: HaltsAtDocument(env, manifest, run.artifacts[k], document))
    {
      DocumentHaltsExactly(env, manifest, run.artifacts[k]);
    }
    hide OnlyAgentArtifact, AgentDocumentRaises, HaltsAtDocument;
  }

  lemma DocumentHaltsExactly(env: Env, manifest: Manifest, a: Artifact)
    ensures AgentDocumentRaises(env, manifest, a) <==>
            (env.resolve(a.path) == Unresolvable || exists document :: HaltsAtDocument(env, manifest, a, document))
  {
    hide HoldsJson, Document, JsonPointer.Walk, JsonPointer.PointerTokens;
    var path := env.resolve(a.path);
    if path.To? {
      forall document
        ensures Document(env, path.path) == Some(document) <==> HoldsJson(env, path.path, document)
        ensures SomePointerRaises(env, document, manifest.requiredPointers) <==>
                exists p :: p in manifest.requiredPointers && HaltsAtPointer(env, document, p)
      {
        DocumentExactly(env, path.path, document);
        assert forall p :: PointerRaises(env, document, p) == HaltsAtPointer(env, document, p);
      }
      hide SomePointerRaises, HaltsAtPointer;
      if AgentDocumentRaises(env, manifest, a) {
        assert HaltsAtDocument(env, manifest, a, Document(env, path.path).value);
      }
    }
  }

  lemma ChainHaltsExactly(env: Env, ctx: Context, manifest: Manifest, run: Run, clean: bool)
    ensures ChainRaises(env, ctx, manifest, run, clean) <==> HaltsOnChain(env, ctx, manifest, run, clean)
  {
    hide AgentRaises, HaltsAtAgent, AgentEvidenceSound, SeenByAgent, StructureSound, StructureRules, ManifestAdmitted;
    AgentHaltsExactly(env, manifest, run);
    AgentExactly(env, manifest, run);
    StructureExactly(env, ctx, manifest);
    assert forall step :: StepRaises(env, step) == HaltsAtStep(env, step);
    assert forall contract :: RefRaises(env, contract) <==> env.resolve(contract.path) == Unresolvable;
    hide StepRaises, HaltsAtStep, RefRaises;
  }

  /** Loading has got as far as the artifacts of this run under this manifest. */
  ghost predicate Reached(env: Env, ctx: Context, record: Json, manifest: Manifest, run: Run, m: FileRef, r: FileRef)
    requires NamesBothFiles(record)
  {
    && NamesFile(record.fields["manifest"], m) && NamesFile(record.fields["run"], r)
    && HoldsManifest(env, m, manifest) && HoldsRun(env, r, run)
    && run.chainId == manifest.id && run.manifestSha256 == m.sha256 && run.subject == ctx.subject
  }

  ghost predicate WellFormedApart(ctx: Context, record: Json, manifest: Manifest, m: FileRef, r: FileRef) {
    exists id, ids :: WellFormed(ctx, record, id, ids, m, r) && NoOwnManifest(ctx, manifest, ids)
  }

  /** No issue has been reported for the record before its chain. */
  ghost predicate Clean(env: Env, ctx: Context, record: Json, manifest: Manifest, run: Run, m: FileRef, r: FileRef) {
    WellFormedApart(ctx, record, manifest, m, r) && BoundToSource(env, ctx, manifest, run, m.sha256)
  }

  /** From there some artifact stops it; or, past a sound inventory, some check of the chain does. */
  ghost predicate Halts(env: Env, ctx: Context, record: Json, manifest: Manifest, run: Run, m: FileRef, r: FileRef)
    requires NamesBothFiles(record)
  {
    && Reached(env, ctx, record, manifest, run, m, r)
    && ((exists a :: a in run.artifacts && HaltsAtArtifact(env, a)) ||
        (Inventoried(env, manifest, run) && HaltsOnChain(env, ctx, manifest, run, Clean(env, ctx, record, manifest, run, m, r))))
  }

  lemma BothFilesExactly(record: Json)
    ensures HasRefs(record) <==> NamesBothFiles(record)
  {
    assert forall item :: BoundedString(item) <==> ShortText(item);
    hide BoundedString, ShortText;
  }

  lemma NamesNothingIs(env: Env, ref: Json)
    requires RefShape(ref)
    ensures RawRefRaises(env, ref) <==> NamesNothing(env, ref)
  {
  }

  lemma ReachedExactly(env: Env, ctx: Context, record: Json, manifest: Manifest, run: Run, m: FileRef, r: FileRef)
    requires HasRefs(record) && NamesBothFiles(record)
    ensures var refs := Refs(RefOf(record.fields["manifest"]), RefOf(record.fields["run"]));
            Reached(env, ctx, record, manifest, run, m, r) <==>
            && refs == Refs(Some(m), Some(r)) && FilesBound(env, ctx, refs)
            && ManifestAt(env, refs) == Some(manifest) && RunAt(env, refs) == Some(run)
  {
    NamesFileIs(record.fields["manifest"], m);
    NamesFileIs(record.fields["run"], r);
    FilesAreHeld(env, Refs(Some(m), Some(r)), manifest, run);
    DigestOf(env, m);
    hide HasRefs, NamesBothFiles, RefOf, NamesFile, HoldsManifest, HoldsRun, RefValid, ManifestAt, RunAt, ManifestAdmitted;
  }

  lemma DigestOf(env: Env, ref: FileRef)
    ensures RefValid(env, ref) ==> env.resolve(ref.path).To? && env.resolve(ref.path).path in env.repo
                                   && env.sha256(env.repo[env.resolve(ref.path).path].bytes) == ref.sha256
  {
  }

  lemma WellFormedExactly(ctx: Context, record: Json, manifest: Manifest, m: FileRef, r: FileRef)
    requires HasRefs(record) && Refs(RefOf(record.fields["manifest"]), RefOf(record.fields["run"])) == Refs(Some(m), Some(r))
    ensures WellFormedApart(ctx, record, manifest, m, r) <==>
            ShapeSound(ctx, record) && FreeOfCycles(ctx, manifest, ConformanceIds(record))
  {
    forall id, ids
      ensures WellFormed(ctx, record, id, ids, m, r) <==> Shaped(ctx, record, id, ids, Refs(Some(m), Some(r)))
      ensures NoOwnManifest(ctx, manifest, ids) <==> FreeOfCycles(ctx, manifest, ids)
    {
      ShapeExactly(ctx, record, id, ids, m, r);
      CyclesExactly(ctx, manifest, ids);
    }
    ShapedIs(ctx, record, IdOf(record), ConformanceIds(record), Refs(Some(m), Some(r)));
    forall id, ids | Shaped(ctx, record, id, ids, Refs(Some(m), Some(r)))
      ensures ShapeSound(ctx, record) && ids == ConformanceIds(record)
    {
    }
    hide HasRefs, ShapeSound, Shaped, WellFormed, NoOwnManifest, FreeOfCycles, ConformanceIds, RefOf;
  }

  lemma ShapedIs(ctx: Context, record: Json, id: string, ids: seq<string>, refs: Refs)
    requires HasRefs(record) && refs == Refs(RefOf(record.fields["manifest"]), RefOf(record.fields["run"]))
    requires id == IdOf(record) && ids == ConformanceIds(record)
    ensures Shaped(ctx, record, id, ids, refs) <==> ShapeSound(ctx, record)
  {
    hide ConformanceShape, ConformanceIds, RefShape, RefOf, Distinct;
  }

  lemma CleanExactly(env: Env, ctx: Context, record: Json, manifest: Manifest, run: Run, m: FileRef, r: FileRef)
    requires HasRefs(record) && Refs(RefOf(record.fields["manifest"]), RefOf(record.fields["run"])) == Refs(Some(m), Some(r))
    requires var refs := Refs(Some(m), Some(r));
             FilesBound(env, ctx, refs) && ManifestAt(env, refs) == Some(manifest) && RunAt(env, refs) == Some(run)
    requires InventorySound(env, run, manifest)
    ensures Clean(env, ctx, record, manifest, run, m, r) <==>
            ShapeSound(ctx, record) && FilesLoaded(env, ctx, ConformanceIds(record), Refs(Some(m), Some(r)))
  {
    var refs := Refs(Some(m), Some(r));
    WellFormedExactly(ctx, record, manifest, m, r);
    BoundExactly(env, ctx, refs, manifest, run);
    hide HasRefs, WellFormedApart, ShapeSound, ConformanceIds, RefsValid, ManifestAt, RunAt, Bound, BoundToSource, AttestationSound, InventorySound,
      InClaimCycle, RefOf, ManifestAdmitted;
  }

  lemma FilesRaiseIs(env: Env, ctx: Context, record: Json, refs: Refs, manifest: Manifest, run: Run)
    requires HasRefs(record) && refs == Refs(RefOf(record.fields["manifest"]), RefOf(record.fields["run"]))
    requires FilesBound(env, ctx, refs) && ManifestAt(env, refs) == Some(manifest) && RunAt(env, refs) == Some(run)
    ensures FilesRaise(env, ctx, record) <==>
            || SomeArtifactRaises(env, run)
            || (InventorySound(env, run, manifest) &&
                ChainRaises(env, ctx, manifest, run, ShapeSound(ctx, record) && FilesLoaded(env, ctx, ConformanceIds(record), refs)))
  {
    hide HasRefs, FilesBound, ManifestAt, RunAt, SomeArtifactRaises, InventorySound, ChainRaises, ShapeSound, FilesLoaded, ConformanceIds, RefOf,
      ManifestAdmitted;
  }

  lemma ArtifactHalts(env: Env, run: Run)
    ensures SomeArtifactRaises(env, run) <==> exists a :: a in run.artifacts && HaltsAtArtifact(env, a)
  {
    assert forall a :: HaltsAtArtifact(env, a) == ArtifactRaises(env, a);
    hide HaltsAtArtifact, ArtifactRaises;
  }

  lemma HaltsExactly(env: Env, ctx: Context, record: Json, manifest: Manifest, run: Run, m: FileRef, r: FileRef)
    requires HasRefs(record) && NamesBothFiles(record)
    requires Reached(env, ctx, record, manifest, run, m, r)
    ensures Halts(env, ctx, record, manifest, run, m, r) <==> FilesRaise(env, ctx, record)
  {
    ReachedExactly(env, ctx, record, manifest, run, m, r);
    hide Reached, HasRefs, NamesBothFiles, FilesBound, ManifestAt, RunAt, InventorySound, Inventoried, HaltsAtArtifact, SomeArtifactRaises, Clean,
      ChainRaises, HaltsOnChain, ShapeSound, FilesLoaded, FilesRaise, ConformanceIds, RefOf, ManifestAdmitted;
    var refs := Refs(Some(m), Some(r));
    FilesRaiseIs(env, ctx, record, refs, manifest, run);
    InventoryExactly(env, manifest, run);
    ArtifactHalts(env, run);
    if InventorySound(env, run, manifest) {
      CleanExactly(env, ctx, record, manifest, run, m, r);
      ChainHaltsExactly(env, ctx, manifest, run, Clean(env, ctx, record, manifest, run, m, r));
    }
  }

  /** Loading a record raises exactly when one of its two paths cannot be resolved, or it gets far enough to halt. */
  lemma RaisesExactly(env: Env, ctx: Context, record: Json)
    ensures RecordRaises(env, ctx, record) <==>
            NamesBothFiles(record) &&
            (NamesNothing(env, record.fields["manifest"]) || NamesNothing(env, record.fields["run"]) ||
             exists manifest, run, m, r :: Halts(env, ctx, record, manifest, run, m, r))
  {
    BothFilesExactly(record);
    if HasRefs(record) {
      NamesNothingIs(env, record.fields["manifest"]);
      NamesNothingIs(env, record.fields["run"]);
      HaltsSomewhere(env, ctx, record);
    }
    hide HasRefs, NamesBothFiles, NamesNothing, RawRefRaises, FilesRaise, Halts;
  }

  lemma HaltsSomewhere(env: Env, ctx: Context, record: Json)
    requires HasRefs(record) && NamesBothFiles(record)
    ensures FilesRaise(env, ctx, record) <==> exists manifest, run, m, r :: Halts(env, ctx, record, manifest, run, m, r)
  {
    var refs := Refs(RefOf(record.fields["manifest"]), RefOf(record.fields["run"]));
    if FilesRaise(env, ctx, record) {
      BoundNames(env, ctx, refs);
      var manifest, run, m, r := ManifestAt(env, refs).value, RunAt(env, refs).value, refs.manifest.value, refs.run.value;
      ReachedExactly(env, ctx, record, manifest, run, m, r);
      HaltsExactly(env, ctx, record, manifest, run, m, r);
    }
    if manifest, run, m, r :| Halts(env, ctx, record, manifest, run, m, r) {
      HaltsExactly(env, ctx, record, manifest, run, m, r);
    }
    hide HasRefs, NamesBothFiles, Reached, FilesBound, ManifestAt, RunAt, InventorySound, SomeArtifactRaises, ChainRaises, HaltsOnChain, ManifestAdmitted;
  }

  lemma BoundNames(env: Env, ctx: Context, refs: Refs)
    requires FilesBound(env, ctx, refs)
    ensures refs.manifest.Some? && refs.run.Some? && refs == Refs(Some(refs.manifest.value), Some(refs.run.value))
  {
  }
}
