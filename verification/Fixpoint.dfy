/** What an admitted record depends on, and why publishing in the order subject, run, claim, index ends fresh and resolved. */
module Fixpoint {
  import opened Prelude
  import opened Json
  import opened Chain
  import opened Repository
  import opened StepDag
  import opened Inventory
  import opened PositiveCoverage
  import opened Loader
  import opened Coverage
  import opened Report
  import opened Subject
  import Publish

  // The files whose bytes a record hashes.

  predicate LeadsTo(env: Env, raw: string, path: string) {
    env.resolve(raw) == To(path)
  }

  predicate HashesStep(env: Env, step: Step, path: string) {
    (step.request.Some? && LeadsTo(env, step.request.value.path, path)) ||
    (step.implementation.Some? && LeadsTo(env, step.implementation.value.path, path))
  }

  predicate HashedByContract(env: Env, manifest: Manifest, path: string) {
    exists c :: c in manifest.contracts && LeadsTo(env, c.path, path)
  }

  predicate HashedByStep(env: Env, manifest: Manifest, path: string) {
    exists s :: s in manifest.steps && HashesStep(env, s, path)
  }

  predicate HashedAsArtifact(env: Env, run: Run, path: string) {
    exists a :: a in run.artifacts && LeadsTo(env, a.path, path)
  }

  predicate Hashes(env: Env, manifest: Manifest, run: Run, path: string) {
    HashedByContract(env, manifest, path) || HashedByStep(env, manifest, path) || HashedAsArtifact(env, run, path)
  }

  /** The resolved paths of the two files that a record refers to by digest. */
  predicate Refers(env: Env, record: Json, path: string) {
    HasKeys(record) && RefShape(record.fields["manifest"]) && RefShape(record.fields["run"]) &&
    (RefersBy(env, RefOf(record.fields["manifest"]), path) || RefersBy(env, RefOf(record.fields["run"]), path))
  }

  predicate RefersBy(env: Env, ref: Option<FileRef>, path: string) {
    ref.Some? && LeadsTo(env, ref.value.path, path)
  }

  // The same record against another state of the repository.

  function At(env: Env, repo: map<string, File>): Env {
    env.(repo := repo)
  }

  function Write(env: Env, path: string, file: File): Env {
    At(env, env.repo[path := file])
  }

  ghost predicate Injective(sha256: Bytes -> string) {
    forall a, b :: sha256(a) == sha256(b) ==> a == b
  }

  /** The file is there, regular, with the same bytes as before. */
  predicate Kept(env: Env, repo: map<string, File>, path: string) {
    path in env.repo && path in repo && repo[path].kind.Regular? && repo[path].bytes == env.repo[path].bytes
  }

  ghost predicate KeepsHashed(env: Env, repo: map<string, File>, manifest: Manifest, run: Run) {
    forall path :: Hashes(env, manifest, run, path) ==> Kept(env, repo, path)
  }

  ghost predicate KeepsReferred(env: Env, repo: map<string, File>, record: Json) {
    forall path :: Refers(env, record, path) ==> Kept(env, repo, path)
  }

  /** What the checks that run code say of this state of the repository. */
  predicate VerifiersAccept(env: Env, release: bool, manifest: Manifest, run: Run) {
    && env.provenance(env.repo, manifest, run).Accepts?
    && OracleSourcesSound(env, manifest.steps)
    && env.releaseVerifier(env.repo, manifest, run, release).Accepts?
  }

  predicate OracleSourcesSound(env: Env, steps: seq<Step>) {
    forall s :: s in steps ==> OracleSourceSound(env, s)
  }

  predicate OracleSourceSound(env: Env, step: Step) {
    step.kind.IndependentOracle? && step.implementation.Some? ==> env.oracleSource(env.repo, step.implementation.value).Accepts?
  }

  predicate KeptRef(env: Env, repo: map<string, File>, raw: string) {
    env.resolve(raw).To? && Kept(env, repo, env.resolve(raw).path)
  }

  predicate KeptOptional(env: Env, repo: map<string, File>, ref: Option<FileRef>) {
    ref.Some? ==> KeptRef(env, repo, ref.value.path)
  }

  lemma RefKept(env: Env, ref: FileRef, repo: map<string, File>)
    requires Injective(env.sha256) && RefValid(env, ref)
    ensures RefValid(At(env, repo), ref) <==> KeptRef(env, repo, ref.path)
  {
  }

  lemma ContentKept(env: Env, a: Artifact, repo: map<string, File>)
    requires Injective(env.sha256) && ContentValid(env, a)
    ensures ContentValid(At(env, repo), a) <==> KeptRef(env, repo, a.path)
  {
  }

  predicate KeepsArtifacts(env: Env, repo: map<string, File>, run: Run) {
    forall a :: a in run.artifacts ==> KeptRef(env, repo, a.path)
  }

  lemma InventoryKept(env: Env, run: Run, manifest: Manifest, repo: map<string, File>)
    requires Injective(env.sha256) && InventorySound(env, run, manifest)
    ensures InventorySound(At(env, repo), run, manifest) <==> KeepsArtifacts(env, repo, run)
  {
    forall k | 0 <= k < |run.artifacts|
      ensures ContentValid(At(env, repo), run.artifacts[k]) <==> KeptRef(env, repo, run.artifacts[k].path)
    {
      ContentKept(env, run.artifacts[k], repo);
    }
    hide ContentValid, OriginValid, KeptRef, NothingReused, Backed, ReplaysComplete;
  }

  predicate KeepsContracts(env: Env, repo: map<string, File>, manifest: Manifest) {
    forall c :: c in manifest.contracts ==> KeptRef(env, repo, c.path)
  }

  predicate KeepsStep(env: Env, repo: map<string, File>, step: Step) {
    KeptOptional(env, repo, step.request) && KeptOptional(env, repo, step.implementation)
  }

  predicate KeepsSteps(env: Env, repo: map<string, File>, manifest: Manifest) {
    forall s :: s in manifest.steps ==> KeepsStep(env, repo, s)
  }

  lemma StepKept(env: Env, step: Step, repo: map<string, File>)
    requires Injective(env.sha256) && StepRefsValid(env, step)
    ensures StepRefsValid(At(env, repo), step) <==> KeepsStep(env, repo, step) && OracleSourceSound(At(env, repo), step)
  {
    if step.request.Some? {
      RefKept(env, step.request.value, repo);
    }
    if step.implementation.Some? {
      RefKept(env, step.implementation.value, repo);
    }
    hide RefValid, KeptRef, Injective;
  }

  lemma StepsKept(env: Env, manifest: Manifest, repo: map<string, File>)
    requires Injective(env.sha256) && StepsSound(env, manifest.steps)
    ensures StepsSound(At(env, repo), manifest.steps) <==>
            KeepsSteps(env, repo, manifest) && OracleSourcesSound(At(env, repo), manifest.steps)
  {
    forall s | s in manifest.steps
      ensures StepRefsValid(At(env, repo), s) <==> KeepsStep(env, repo, s) && OracleSourceSound(At(env, repo), s)
    {
      StepKept(env, s, repo);
    }
    hide StepRefsValid, KeepsStep, OracleSourceSound, RolesOrdered, RolesDefinedOnce, OracleConsumesNative;
  }

  lemma ContractsKept(env: Env, manifest: Manifest, repo: map<string, File>)
    requires Injective(env.sha256) && forall c :: c in manifest.contracts ==> RefValid(env, c)
    ensures (forall c :: c in manifest.contracts ==> RefValid(At(env, repo), c)) <==> KeepsContracts(env, repo, manifest)
  {
    forall c | c in manifest.contracts
      ensures RefValid(At(env, repo), c) <==> KeptRef(env, repo, c.path)
    {
      RefKept(env, c, repo);
    }
    hide RefValid, KeptRef;
  }

  lemma StructureKept(env: Env, ctx: Context, manifest: Manifest, repo: map<string, File>)
    requires Injective(env.sha256) && StructureSound(env, ctx, manifest)
    ensures StructureSound(At(env, repo), ctx, manifest) <==>
            && KeepsContracts(env, repo, manifest) && KeepsSteps(env, repo, manifest)
            && OracleSourcesSound(At(env, repo), manifest.steps)
  {
    hide RefValid, StepsSound, KeepsContracts, KeepsSteps, OracleSourcesSound, StepInventory, PositivelyCovered, ReplayCoversDeclared, Injective;
    ContractsKept(env, manifest, repo);
    StepsKept(env, manifest, repo);
  }

  lemma AgentKept(env: Env, run: Run, manifest: Manifest, repo: map<string, File>)
    requires AgentEvidenceSound(env, manifest, run) && KeepsArtifacts(env, repo, run)
    ensures AgentEvidenceSound(At(env, repo), manifest, run)
  {
    var k :| OnlyAgentArtifact(run, k) && AgentDocumentSound(env, manifest, run.artifacts[k]);
    var path := env.resolve(run.artifacts[k].path).path;
    assert KeptRef(env, repo, run.artifacts[k].path);
    SameDocument(env, repo, path);
    assert AgentDocumentSound(At(env, repo), manifest, run.artifacts[k]) by {
      SamePointers(env, repo, Document(env, path).value, manifest.requiredPointers);
    }
  }

  lemma SameDocument(env: Env, repo: map<string, File>, path: string)
    requires Kept(env, repo, path) && env.repo[path].kind.Regular?
    ensures Document(At(env, repo), path) == Document(env, path)
  {
  }

  lemma SamePointers(env: Env, repo: map<string, File>, document: Json, pointers: seq<string>)
    ensures PointersPresent(At(env, repo), document, pointers) == PointersPresent(env, document, pointers)
  {
    assert forall p :: PointerPresent(At(env, repo), document, p) == PointerPresent(env, document, p);
  }

  /** The hashed paths are those of the contracts, of the steps and of the artifacts. */
  lemma KeepsHashedIs(env: Env, repo: map<string, File>, ctx: Context, manifest: Manifest, run: Run)
    requires InventorySound(env, run, manifest) && StructureSound(env, ctx, manifest)
    ensures KeepsHashed(env, repo, manifest, run) <==>
            KeepsContracts(env, repo, manifest) && KeepsSteps(env, repo, manifest) && KeepsArtifacts(env, repo, run)
  {
    PathsResolve(env, ctx, manifest, run);
    hide *;
    if KeepsHashed(env, repo, manifest, run) {
      forall c | c in manifest.contracts
        ensures KeptRef(env, repo, c.path)
      {
        ContractIsHashed(env, manifest, run, c);
        KeptAt(env, repo, manifest, run, c.path);
      }
      forall a | a in run.artifacts
        ensures KeptRef(env, repo, a.path)
      {
        ArtifactIsHashed(env, manifest, run, a);
        KeptAt(env, repo, manifest, run, a.path);
      }
      forall s | s in manifest.steps
        ensures KeepsStep(env, repo, s)
      {
        StepIsHashed(env, repo, manifest, run, s);
      }
      KeepsAll(env, repo, manifest, run);
    } else {
      KeepsNotAll(env, repo, manifest, run);
    }
  }

  lemma ContractIsHashed(env: Env, manifest: Manifest, run: Run, c: FileRef)
    requires c in manifest.contracts && env.resolve(c.path).To?
    ensures Hashes(env, manifest, run, env.resolve(c.path).path)
  {
    assert LeadsTo(env, c.path, env.resolve(c.path).path);
  }

  lemma ArtifactIsHashed(env: Env, manifest: Manifest, run: Run, a: Artifact)
    requires a in run.artifacts && env.resolve(a.path).To?
    ensures Hashes(env, manifest, run, env.resolve(a.path).path)
  {
    assert LeadsTo(env, a.path, env.resolve(a.path).path);
  }

  lemma KeptAt(env: Env, repo: map<string, File>, manifest: Manifest, run: Run, raw: string)
    requires KeepsHashed(env, repo, manifest, run)
    requires env.resolve(raw).To? && Hashes(env, manifest, run, env.resolve(raw).path)
    ensures KeptRef(env, repo, raw)
  {
    hide Hashes, Kept;
  }

  lemma StepIsHashed(env: Env, repo: map<string, File>, manifest: Manifest, run: Run, s: Step)
    requires KeepsHashed(env, repo, manifest, run) && s in manifest.steps && StepResolves(env, s)
    ensures KeepsStep(env, repo, s)
  {
    if s.request.Some? {
      assert HashesStep(env, s, env.resolve(s.request.value.path).path);
      KeptAt(env, repo, manifest, run, s.request.value.path);
    }
    if s.implementation.Some? {
      assert HashesStep(env, s, env.resolve(s.implementation.value.path).path);
      KeptAt(env, repo, manifest, run, s.implementation.value.path);
    }
    hide KeptRef, KeepsHashed;
  }

  lemma KeepsAll(env: Env, repo: map<string, File>, manifest: Manifest, run: Run)
    requires forall c :: c in manifest.contracts ==> KeptRef(env, repo, c.path)
    requires forall a :: a in run.artifacts ==> KeptRef(env, repo, a.path)
    requires forall s :: s in manifest.steps ==> KeepsStep(env, repo, s)
    ensures KeepsContracts(env, repo, manifest) && KeepsSteps(env, repo, manifest) && KeepsArtifacts(env, repo, run)
  {
    hide KeptRef, KeepsStep;
  }

  /** A hashed file that does not stay is one of a contract, a step or an artifact. */
  lemma KeepsNotAll(env: Env, repo: map<string, File>, manifest: Manifest, run: Run)
    requires !KeepsHashed(env, repo, manifest, run)
    ensures !KeepsContracts(env, repo, manifest) || !KeepsSteps(env, repo, manifest) || !KeepsArtifacts(env, repo, run)
  {
    hide Kept;
    var path :| Hashes(env, manifest, run, path) && !Kept(env, repo, path);
    if HashedByContract(env, manifest, path) {
      var c :| c in manifest.contracts && LeadsTo(env, c.path, path);
      assert !KeptRef(env, repo, c.path);
    } else if HashedByStep(env, manifest, path) {
      var s :| s in manifest.steps && HashesStep(env, s, path);
      assert !KeepsStep(env, repo, s);
    } else {
      var a :| a in run.artifacts && LeadsTo(env, a.path, path);
      assert !KeptRef(env, repo, a.path);
    }
  }

  predicate StepResolves(env: Env, s: Step) {
    && (s.request.Some? ==> env.resolve(s.request.value.path).To?)
    && (s.implementation.Some? ==> env.resolve(s.implementation.value.path).To?)
  }

  lemma PathsResolve(env: Env, ctx: Context, manifest: Manifest, run: Run)
    requires InventorySound(env, run, manifest) && StructureSound(env, ctx, manifest)
    ensures forall c :: c in manifest.contracts ==> env.resolve(c.path).To?
    ensures forall a :: a in run.artifacts ==> env.resolve(a.path).To?
    ensures forall s :: s in manifest.steps ==> StepResolves(env, s)
  {
    hide OriginValid, NothingReused, Backed, ReplaysComplete, StepInventory, PositivelyCovered, ReplayCoversDeclared,
      RolesOrdered, RolesDefinedOnce, OracleConsumesNative;
    assert StepsSound(env, manifest.steps);
    forall s | s in manifest.steps
      ensures StepResolves(env, s)
    {
      assert StepRefsValid(env, s);
    }
    forall a | a in run.artifacts
      ensures env.resolve(a.path).To?
    {
      var k :| 0 <= k < |run.artifacts| && run.artifacts[k] == a;
      assert ContentValid(env, run.artifacts[k]);
    }
  }

  /** Inventory and chain stay sound exactly when the hashed files stay and the verifiers still accept. */
  lemma ChainKept(env: Env, ctx: Context, manifest: Manifest, run: Run, repo: map<string, File>)
    requires Injective(env.sha256) && InventorySound(env, run, manifest) && ChainSound(env, ctx, manifest, run)
    ensures InventorySound(At(env, repo), run, manifest) && ChainSound(At(env, repo), ctx, manifest, run) <==>
            KeepsHashed(env, repo, manifest, run) && VerifiersAccept(At(env, repo), ctx.release, manifest, run)
  {
    hide InventorySound, AgentEvidenceSound, StructureSound, KeepsHashed, KeepsContracts, KeepsSteps, KeepsArtifacts, OracleSourcesSound, Injective;
    KeepsHashedIs(env, repo, ctx, manifest, run);
    InventoryKept(env, run, manifest, repo);
    StructureKept(env, ctx, manifest, repo);
    if KeepsArtifacts(env, repo, run) {
      AgentKept(env, run, manifest, repo);
    }
  }

  lemma LoadedFacts(env: Env, ctx: Context, record: Json, refs: Refs, c: Contribution)
    requires LoadedAs(env, ctx, record, refs, c)
    ensures InventorySound(env, c.run, c.manifest) && c.run.subject == ctx.subject && RefsValid(env, refs)
    ensures refs == Refs(RefOf(record.fields["manifest"]), RefOf(record.fields["run"]))
    ensures forall id :: id in c.conformanceIds ==> !InClaimCycle(ctx, c.manifest, id)
  {
  }

  /** Both referenced files stay exactly when both references stay valid. */
  lemma ReferredKept(env: Env, ctx: Context, record: Json, refs: Refs, repo: map<string, File>)
    requires Injective(env.sha256) && ShapeSound(ctx, record) && RefsValid(env, refs)
    requires refs == Refs(RefOf(record.fields["manifest"]), RefOf(record.fields["run"]))
    ensures KeepsReferred(env, repo, record) <==> RefsValid(At(env, repo), refs)
  {
    RefKept(env, refs.manifest.value, repo);
    RefKept(env, refs.run.value, repo);
    hide RefValid, Kept, RefShape, RefOf, Injective;
    if KeepsReferred(env, repo, record) {
      assert Refers(env, record, env.resolve(refs.manifest.value.path).path);
      assert Refers(env, record, env.resolve(refs.run.value.path).path);
    }
  }

  lemma LoadedElsewhere(env: Env, ctx: Context, record: Json, refs: Refs, c: Contribution, repo: map<string, File>)
    requires Injective(env.sha256) && LoadedAs(env, ctx, record, refs, c) && RefsValid(At(env, repo), refs)
    ensures LoadedAs(At(env, repo), ctx, record, refs, c) <==> InventorySound(At(env, repo), c.run, c.manifest)
    ensures FilesLoaded(At(env, repo), ctx, ConformanceIds(record), refs) ==> InventorySound(At(env, repo), c.run, c.manifest)
    ensures ManifestAt(At(env, repo), refs) == Some(c.manifest) && RunAt(At(env, repo), refs) == Some(c.run)
  {
    hide RefsValid, RefValid, ManifestAt, RunAt, Bound, InventorySound, ShapeSound, InClaimCycle, AttestationSound, Document, Injective;
    PairElsewhere(env, ctx, refs, c.manifest, c.run, repo);
    AttestationElsewhere(env, ctx, c.run, repo);
  }

  lemma PairElsewhere(env: Env, ctx: Context, refs: Refs, manifest: Manifest, run: Run, repo: map<string, File>)
    requires Injective(env.sha256) && RefsValid(env, refs) && RefsValid(At(env, repo), refs)
    requires ManifestAt(env, refs) == Some(manifest) && RunAt(env, refs) == Some(run)
    ensures ManifestAt(At(env, repo), refs) == Some(manifest) && RunAt(At(env, repo), refs) == Some(run)
    ensures Bound(At(env, repo), ctx, refs, manifest, run) == Bound(env, ctx, refs, manifest, run)
  {
    hide Document;
    RefKept(env, refs.manifest.value, repo);
    RefKept(env, refs.run.value, repo);
    SameDocument(env, repo, env.resolve(refs.manifest.value.path).path);
    SameDocument(env, repo, env.resolve(refs.run.value.path).path);
  }

  lemma AttestationElsewhere(env: Env, ctx: Context, run: Run, repo: map<string, File>)
    ensures AttestationSound(At(env, repo), ctx, run.attestation, run) == AttestationSound(env, ctx, run.attestation, run)
  {
  }

  /** Against the same context: the same exactly when the files referred to and hashed stay and the verifiers accept. */
  lemma RecordDependsOnFiles(env: Env, ctx: Context, record: Json, c: Contribution, repo: map<string, File>)
    requires Injective(env.sha256) && Contributed(env, ctx, record) == Some(c)
    ensures Contributed(At(env, repo), ctx, record) ==
            if StillAdmitted(env, ctx, record, c, repo) then Some(c) else None
  {
    hide *;
    var later := At(env, repo);
    var refs := Unpack(env, ctx, record, c);
    LoadedFacts(env, ctx, record, refs, c);
    ShapeOf(env, ctx, record, refs, c);
    ReferredKept(env, ctx, record, refs, repo);
    ChainKept(env, ctx, c.manifest, c.run, repo);
    StillAdmittedIs(env, ctx, record, c, repo);
    if Contributed(later, ctx, record).Some? {
      var other := Contributed(later, ctx, record).value;
      var refs' := Unpack(later, ctx, record, other);
      LoadedFacts(later, ctx, record, refs', other);
      LoadedElsewhere(env, ctx, record, refs, c, repo);
      SameContribution(later, ctx, record, refs, c, other);
    } else if StillAdmitted(env, ctx, record, c, repo) {
      LoadedElsewhere(env, ctx, record, refs, c, repo);
      Pack(later, ctx, record, refs, c);
    }
  }

  lemma ShapeOf(env: Env, ctx: Context, record: Json, refs: Refs, c: Contribution)
    requires LoadedAs(env, ctx, record, refs, c)
    ensures ShapeSound(ctx, record)
    ensures c == Contribution(IdOf(record), ConformanceIds(record), c.manifest, c.run, refs.run.value.sha256)
  {
    hide FilesLoaded;
  }

  lemma SameContribution(later: Env, ctx: Context, record: Json, refs: Refs, c: Contribution, other: Contribution)
    requires LoadedAs(later, ctx, record, refs, other)
    requires ManifestAt(later, refs) == Some(c.manifest) && RunAt(later, refs) == Some(c.run)
    requires ShapeSound(ctx, record)
    requires c == Contribution(IdOf(record), ConformanceIds(record), c.manifest, c.run, refs.run.value.sha256)
    ensures c == other
  {
    hide FilesLoaded, ShapeSound;
  }

  ghost predicate StillAdmitted(env: Env, ctx: Context, record: Json, c: Contribution, repo: map<string, File>) {
    && KeepsReferred(env, repo, record)
    && KeepsHashed(env, repo, c.manifest, c.run)
    && VerifiersAccept(At(env, repo), ctx.release, c.manifest, c.run)
  }

  lemma StillAdmittedIs(env: Env, ctx: Context, record: Json, c: Contribution, repo: map<string, File>)
    ensures StillAdmitted(env, ctx, record, c, repo) <==>
            && KeepsReferred(env, repo, record) && KeepsHashed(env, repo, c.manifest, c.run)
            && VerifiersAccept(At(env, repo), ctx.release, c.manifest, c.run)
  {
    hide KeepsReferred, KeepsHashed, VerifiersAccept;
  }

  // The gate derives its rows and the subject anew from the new state.

  /** What a record can tell of two derivations: everything but the claimed digests. */
  predicate AgreeOnRows(a: Context, b: Context) {
    && a.knownConformance == b.knownConformance && a.providerManifests == b.providerManifests && a.release == b.release
    && a.rows.Keys == b.rows.Keys
    && forall rowId :: rowId in a.rows ==> RowExecutionClass(a.rows[rowId]) == RowExecutionClass(b.rows[rowId])
  }

  lemma SameCoverage(manifest: Manifest, a: map<string, RowSpec>, b: map<string, RowSpec>)
    requires a.Keys == b.Keys && forall rowId :: rowId in a ==> RowExecutionClass(a[rowId]) == RowExecutionClass(b[rowId])
    ensures PositivelyCovered(manifest, a) == PositivelyCovered(manifest, b)
  {
    hide RowExecutionClass, HasNativeAncestor, ConsumedByAgent, Exercised, Covers;
    forall rowId
      ensures RowBound(manifest, a, rowId) == RowBound(manifest, b, rowId)
    {
      if rowId in a {
        assert CoveredByClass(manifest.steps, a[rowId], rowId) == CoveredByClass(manifest.steps, b[rowId], rowId);
      }
    }
    hide RowBound;
  }

  lemma SameFilesLoaded(env: Env, a: Context, b: Context, ids: seq<string>, refs: Refs)
    requires a.subject == b.subject && AgreeOnRows(a, b)
    ensures FilesLoaded(env, a, ids, refs) == FilesLoaded(env, b, ids, refs)
  {
    hide RefsValid, ManifestAt, RunAt, InventorySound, RowExecutionClass;
    assert forall manifest, id :: InClaimCycle(a, manifest, id) == InClaimCycle(b, manifest, id);
  }

  lemma SameChain(env: Env, a: Context, b: Context, manifest: Manifest, run: Run)
    requires a.subject == b.subject && AgreeOnRows(a, b)
    ensures ChainSound(env, a, manifest, run) == ChainSound(env, b, manifest, run)
  {
    SameCoverage(manifest, a.rows, b.rows);
    hide RowExecutionClass, PositivelyCovered, AgentEvidenceSound, StepsSound, StepInventory, RefValid, ReplayCoversDeclared;
    assert forall rowId :: rowId in a.rows <==> rowId in a.rows.Keys;
    assert forall rowId :: rowId in b.rows <==> rowId in b.rows.Keys;
  }

  lemma SameRowsSameRecord(env: Env, a: Context, b: Context, record: Json)
    requires a.subject == b.subject && AgreeOnRows(a, b)
    ensures Contributed(env, a, record) == Contributed(env, b, record)
  {
    assert ShapeSound(a, record) == ShapeSound(b, record);
    hide AgreeOnRows, ShapeSound, ChainSound, ManifestAt, RunAt;
    if ShapeSound(a, record) {
      ShapeGivesRefs(a, record);
      var refs := Refs(RefOf(record.fields["manifest"]), RefOf(record.fields["run"]));
      SameFilesLoaded(env, a, b, ConformanceIds(record), refs);
      if FilesLoaded(env, a, ConformanceIds(record), refs) {
        SameChain(env, a, b, ManifestAt(env, refs).value, RunAt(env, refs).value);
      }
      hide FilesLoaded;
    }
  }

  lemma ShapeGivesRefs(ctx: Context, record: Json)
    requires ShapeSound(ctx, record)
    ensures HasRefs(record)
  {
  }

  /** A run of another subject is stale. */
  lemma StaleRecord(env: Env, ctx: Context, later: Context, record: Json, c: Contribution, repo: map<string, File>)
    requires Injective(env.sha256) && Contributed(env, ctx, record) == Some(c) && later.subject != ctx.subject
    ensures Contributed(At(env, repo), later, record).None?
  {
    hide *;
    var refs := Unpack(env, ctx, record, c);
    LoadedFacts(env, ctx, record, refs, c);
    LoadedPair(env, ctx, record, refs, c);
    if Contributed(At(env, repo), later, record).Some? {
      var other := Contributed(At(env, repo), later, record).value;
      var refs' := Unpack(At(env, repo), later, record, other);
      LoadedFacts(At(env, repo), later, record, refs', other);
      LoadedPair(At(env, repo), later, record, refs', other);
      PairElsewhere(env, ctx, refs, c.manifest, c.run, repo);
    }
  }

  lemma LoadedPair(env: Env, ctx: Context, record: Json, refs: Refs, c: Contribution)
    requires LoadedAs(env, ctx, record, refs, c)
    ensures ManifestAt(env, refs) == Some(c.manifest) && RunAt(env, refs) == Some(c.run)
  {
    hide FilesLoaded, ShapeSound;
  }

  /** What the gate makes of the record in another state, `derived` being what it derives there apart from the subject.
      Without a subject it ends without a report. */
  ghost function Reloaded(env: Env, codec: Codec, derived: Context, catalog: Catalog, record: Json, repo: map<string, File>): Option<Contribution> {
    var subject := SubjectOf(codec, repo, catalog);
    if subject.None? then None else Contributed(At(env, repo), derived.(subject := subject.value), record)
  }

  lemma ReloadedIs(env: Env, codec: Codec, derived: Context, catalog: Catalog, record: Json, repo: map<string, File>)
    ensures Reloaded(env, codec, derived, catalog, record, repo) ==
            var subject := SubjectOf(codec, repo, catalog);
            if subject.None? then None else Contributed(At(env, repo), derived.(subject := subject.value), record)
  {
    hide SubjectOf, Contributed;
  }

  /**
   * Against any other state of the repository, the gate admits the record as before or not at all: as before exactly when
   * the subject files are the same up to claimed digests, the files that the record refers to and hashes stay, and its
   * verifiers accept the new state.
   */
  lemma RecordDependsOnly(env: Env, codec: Codec, ctx: Context, derived: Context, catalog: Catalog, record: Json, c: Contribution, repo: map<string, File>)
    requires Injective(env.sha256) && CollisionFree(codec) && SortsSets(codec)
    requires SubjectOf(codec, env.repo, catalog) == Some(ctx.subject) && Contributed(env, ctx, record) == Some(c)
    // equal subject files give equal rows
    requires SameSubjectFiles(codec, env.repo, repo, catalog) ==> AgreeOnRows(ctx, derived)
    ensures Reloaded(env, codec, derived, catalog, record, repo) ==
            if SameSubjectFiles(codec, env.repo, repo, catalog) && StillAdmitted(env, ctx, record, c, repo) then Some(c) else None
  {
    hide *;
    ReloadedIs(env, codec, derived, catalog, record, repo);
    SubjectBindsExactly(codec, env.repo, repo, catalog);
    var subject := SubjectOf(codec, repo, catalog);
    if subject == Some(ctx.subject) {
      RecordDependsOnFiles(env, ctx, record, c, repo);
      AgreeOnSubject(ctx, derived, ctx.subject);
      SameRowsSameRecord(At(env, repo), ctx, derived.(subject := ctx.subject), record);
    } else if subject.Some? {
      StaleRecord(env, ctx, derived.(subject := subject.value), record, c, repo);
    }
  }

  lemma AgreeOnSubject(a: Context, b: Context, subject: string)
    ensures AgreeOnRows(a, b) == AgreeOnRows(a, b.(subject := subject))
  {
    hide RowExecutionClass;
  }

  // One write.

  lemma KeptUnlessChanged(env: Env, path: string, repo: map<string, File>, p: string)
    requires p in env.repo && env.repo[p].kind.Regular?
    requires p != path ==> p in repo && repo[p] == env.repo[p]
    requires p == path ==> p in repo && repo[p].bytes != env.repo[p].bytes
    ensures Kept(env, repo, p) <==> p != path
  {
  }

  /** What an admitted record refers to and hashes is there and regular. */
  lemma DependenciesArePresent(env: Env, ctx: Context, record: Json, c: Contribution, path: string)
    requires Injective(env.sha256) && Contributed(env, ctx, record) == Some(c)
    requires Refers(env, record, path) || Hashes(env, c.manifest, c.run, path)
    ensures path in env.repo && env.repo[path].kind.Regular?
  {
    hide *;
    AtItself(env);
    RecordDependsOnFiles(env, ctx, record, c, env.repo);
    StillAdmittedIs(env, ctx, record, c, env.repo);
    KeptAtPath(env, record, c, path);
  }

  lemma AtItself(env: Env)
    ensures At(env, env.repo) == env
  {
  }

  lemma KeptAtPath(env: Env, record: Json, c: Contribution, path: string)
    requires KeepsReferred(env, env.repo, record) && KeepsHashed(env, env.repo, c.manifest, c.run)
    requires Refers(env, record, path) || Hashes(env, c.manifest, c.run, path)
    ensures path in env.repo && env.repo[path].kind.Regular?
  {
    hide Refers, Hashes;
  }

  /**
   * Writing new bytes to a file keeps a record admitted exactly when the subject sees nothing of the write, the record
   * neither refers to the file nor hashes it under any spelling, and the verifiers accept the repository after the write.
   */
  lemma WriteKeepsRecord(env: Env, codec: Codec, ctx: Context, derived: Context, catalog: Catalog, record: Json, c: Contribution, path: string, file: File)
    requires Injective(env.sha256) && CollisionFree(codec) && SortsSets(codec)
    requires SubjectOf(codec, env.repo, catalog) == Some(ctx.subject) && Contributed(env, ctx, record) == Some(c)
    requires NeutralWrite(codec, env.repo, catalog, path, file) ==> AgreeOnRows(ctx, derived)
    requires path in env.repo ==> file.bytes != env.repo[path].bytes
    ensures Reloaded(env, codec, derived, catalog, record, env.repo[path := file]) ==
            if NeutralWrite(codec, env.repo, catalog, path, file)
               && !Refers(env, record, path) && !Hashes(env, c.manifest, c.run, path)
               && VerifiersAccept(Write(env, path, file), ctx.release, c.manifest, c.run)
            then Some(c) else None
  {
    hide *;
    var repo := env.repo[path := file];
    NeutralWriteKeepsFiles(codec, env.repo, catalog, path, file);
    RecordDependsOnly(env, codec, ctx, derived, catalog, record, c, repo);
    WriteIs(env, path, file);
    StillAdmittedIs(env, ctx, record, c, repo);
    DependenciesStay(env, ctx, record, c, path, repo);
  }

  lemma WriteIs(env: Env, path: string, file: File)
    ensures Write(env, path, file) == At(env, env.repo[path := file])
  {
  }

  /** Where only one file has changed, the others that the record depends on stay. */
  lemma DependenciesStay(env: Env, ctx: Context, record: Json, c: Contribution, path: string, repo: map<string, File>)
    requires Injective(env.sha256) && Contributed(env, ctx, record) == Some(c)
    requires forall p :: p in env.repo && p != path ==> p in repo && repo[p] == env.repo[p]
    requires path in env.repo ==> path in repo && repo[path].bytes != env.repo[path].bytes
    ensures KeepsReferred(env, repo, record) && KeepsHashed(env, repo, c.manifest, c.run) <==>
            !Refers(env, record, path) && !Hashes(env, c.manifest, c.run, path)
  {
    hide Contributed, Refers, Hashes, Kept, Injective;
    forall p | Refers(env, record, p) || Hashes(env, c.manifest, c.run, p)
      ensures Kept(env, repo, p) <==> p != path
    {
      DependenciesArePresent(env, ctx, record, c, p);
      KeptUnlessChanged(env, path, repo, p);
    }
  }

  /** New bytes in a subject file stale every admitted record, unless they are new claims in a provider manifest. */
  lemma SubjectWriteStalesRecord(env: Env, codec: Codec, ctx: Context, derived: Context, catalog: Catalog, record: Json, c: Contribution, path: string, file: File)
    requires Injective(env.sha256) && CollisionFree(codec) && SortsSets(codec)
    requires SubjectOf(codec, env.repo, catalog) == Some(ctx.subject) && Contributed(env, ctx, record) == Some(c)
    requires path in SubjectPaths(env.repo, catalog) && !IsProviderManifest(path) && file.bytes != env.repo[path].bytes
    ensures Reloaded(env, codec, derived, catalog, record, env.repo[path := file]).None?
  {
    assert !NeutralWrite(codec, env.repo, catalog, path, file);
    hide *;
    WriteKeepsRecord(env, codec, ctx, derived, catalog, record, c, path, file);
  }

  /** The verifiers read no file outside the set. */
  ghost predicate VerifiersRead(env: Env, release: bool, manifest: Manifest, run: Run, inputs: set<string>) {
    forall repo: map<string, File> ::
      (forall p :: p in inputs ==> (p in repo <==> p in env.repo) && (p in repo ==> repo[p] == env.repo[p])) ==>
        (VerifiersAccept(At(env, repo), release, manifest, run) <==> VerifiersAccept(env, release, manifest, run))
  }

  /** A write that the verifiers do not read is judged by the digests alone. */
  lemma UnreadWriteKeepsRecord(
      env: Env, codec: Codec, ctx: Context, derived: Context, catalog: Catalog, record: Json, c: Contribution, path: string, file: File, inputs: set<string>)
    requires Injective(env.sha256) && CollisionFree(codec) && SortsSets(codec)
    requires SubjectOf(codec, env.repo, catalog) == Some(ctx.subject) && Contributed(env, ctx, record) == Some(c)
    requires NeutralWrite(codec, env.repo, catalog, path, file) ==> AgreeOnRows(ctx, derived)
    requires path in env.repo ==> file.bytes != env.repo[path].bytes
    requires VerifiersRead(env, ctx.release, c.manifest, c.run, inputs) && path !in inputs
    ensures Reloaded(env, codec, derived, catalog, record, env.repo[path := file]) == Some(c) <==>
            NeutralWrite(codec, env.repo, catalog, path, file) && !Refers(env, record, path) && !Hashes(env, c.manifest, c.run, path)
  {
    hide *;
    AtItself(env);
    WriteKeepsRecord(env, codec, ctx, derived, catalog, record, c, path, file);
    RecordDependsOnFiles(env, ctx, record, c, env.repo);
    StillAdmittedIs(env, ctx, record, c, env.repo);
    UnreadWrite(env, ctx.release, c.manifest, c.run, path, file, inputs);
  }

  lemma UnreadWrite(env: Env, release: bool, manifest: Manifest, run: Run, path: string, file: File, inputs: set<string>)
    requires VerifiersRead(env, release, manifest, run, inputs) && path !in inputs
    ensures VerifiersAccept(Write(env, path, file), release, manifest, run) == VerifiersAccept(env, release, manifest, run)
  {
    hide VerifiersAccept;
    var repo := env.repo[path := file];
    assert Write(env, path, file) == At(env, repo);
    assert forall p :: p in inputs ==> (p in repo <==> p in env.repo) && (p in repo ==> repo[p] == env.repo[p]);
  }

  /** A contract of another spelling that leads to the provider manifest. */
  predicate AliasedContract(env: Env, manifest: Manifest, driver: string) {
    exists c :: c in manifest.contracts && c.path != driver && LeadsTo(env, c.path, driver)
  }

  /** The refused contract cycle is one way to hash the provider manifest. An admitted record is free of it, so it hashes
      the manifest that holds its own claim exactly through a contract of another spelling, a step or an artifact. */
  lemma CycleCheckComparesSpellings(env: Env, ctx: Context, record: Json, c: Contribution, id: string, driver: string)
    requires Contributed(env, ctx, record) == Some(c)
    requires id in c.conformanceIds && id in ctx.providerManifests && ctx.providerManifests[id] == driver
    ensures forall contract :: contract in c.manifest.contracts ==> contract.path != driver
    ensures Hashes(env, c.manifest, c.run, driver) <==>
            || AliasedContract(env, c.manifest, driver)
            || HashedByStep(env, c.manifest, driver)
            || HashedAsArtifact(env, c.run, driver)
  {
    hide *;
    var refs := Unpack(env, ctx, record, c);
    LoadedFacts(env, ctx, record, refs, c);
    NoCycleNoSpelling(ctx, c.manifest, id);
    HashesIs(env, c.manifest, c.run, driver);
  }

  lemma HashesIs(env: Env, manifest: Manifest, run: Run, driver: string)
    requires forall contract :: contract in manifest.contracts ==> contract.path != driver
    ensures Hashes(env, manifest, run, driver) <==>
            AliasedContract(env, manifest, driver) || HashedByStep(env, manifest, driver) || HashedAsArtifact(env, run, driver)
  {
  }

  lemma NoCycleNoSpelling(ctx: Context, manifest: Manifest, id: string)
    requires id in ctx.providerManifests && !InClaimCycle(ctx, manifest, id)
    ensures forall c :: c in manifest.contracts ==> c.path != ctx.providerManifests[id]
  {
    forall c | c in manifest.contracts
      ensures c.path != ctx.providerManifests[id]
    {
      var k :| 0 <= k < |manifest.contracts| && manifest.contracts[k] == c;
      assert manifest.contracts[k].path != ctx.providerManifests[id];
    }
  }

  // The claim write and the subject.

  function WriteClaim(manifest: Json, k: nat, digest: string): (r: Json)
    requires HasRecords(manifest) && k < |RecordsOf(manifest)| && HasClaim(RecordsOf(manifest)[k])
    ensures HasRecords(r)
  {
    WithRecords(manifest, RecordsOf(manifest)[k := SetClaim(RecordsOf(manifest)[k], Str(digest))])
  }

  lemma ClaimIsDetached(manifest: Json, k: nat, digest: string)
    requires HasRecords(manifest) && k < |RecordsOf(manifest)| && HasClaim(RecordsOf(manifest)[k])
    ensures SameButClaims(manifest, WriteClaim(manifest, k, digest))
  {
    var r := RecordsOf(manifest)[k];
    var s := SetClaim(r, Str(digest));
    assert r.fields - {"evidence"} == s.fields - {"evidence"};
    assert r.fields["evidence"].fields - {"sha256"} == s.fields["evidence"].fields - {"sha256"};
    assert SameButClaim(r, s);
    var after := WriteClaim(manifest, k, digest);
    assert manifest.fields - {"conformance_records"} == after.fields - {"conformance_records"};
  }

  /** The claim write replaces one existing digest of a provider manifest by the digest of the run. */
  ghost predicate IsClaimWrite(codec: Codec, before: File, after: File, k: nat, digest: string) {
    var m := ProviderManifest(codec, before.bytes);
    && !before.kind.Directory? && !after.kind.Directory?
    && m.Some? && HasRecords(m.value) && k < |RecordsOf(m.value)| && HasClaim(RecordsOf(m.value)[k])
    && ProviderManifest(codec, after.bytes) == Some(WriteClaim(m.value, k, digest))
  }

  lemma NotALauncher(path: string)
    requires IsProviderManifest(path)
    ensures !IsLauncher(path)
  {
    assert path[..10][0] == path[0] == "providers/"[0];
    assert |path| >= 11 ==> path[..11][0] == path[0];
    assert "bin/openada"[0] != "providers/"[0];
  }

  lemma ClaimWriteKeepsSubject(codec: Codec, repo: map<string, File>, catalog: Catalog, driver: string, after: File, k: nat, digest: string)
    requires CollisionFree(codec) && SortsSets(codec) && SubjectOf(codec, repo, catalog).Some?
    requires driver in repo && IsProviderManifest(driver)
    requires IsClaimWrite(codec, repo[driver], after, k, digest)
    ensures SubjectOf(codec, repo[driver := after], catalog) == SubjectOf(codec, repo, catalog)
  {
    ClaimIsDetached(ProviderManifest(codec, repo[driver].bytes).value, k, digest);
    NotALauncher(driver);
    assert SameFile(codec, driver, repo[driver], after);
    hide CollisionFree, SortsSets, SubjectOf, SameFile, IsClaimWrite, InSubject, IsProviderManifest;
    assert !repo[driver].kind.Directory? && !after.kind.Directory? by {
      ClaimIsInFile(codec, repo[driver], after, k, digest);
    }
    assert NeutralWrite(codec, repo, catalog, driver, after);
    NeutralWriteKeepsFiles(codec, repo, catalog, driver, after);
    SameFilesSameSubject(codec, repo, repo[driver := after], catalog);
  }

  lemma ClaimIsInFile(codec: Codec, before: File, after: File, k: nat, digest: string)
    requires IsClaimWrite(codec, before, after, k, digest)
    ensures !before.kind.Directory? && !after.kind.Directory?
  {
  }

  lemma FileIsItself(codec: Codec, repo: map<string, File>, catalog: Catalog, path: string)
    requires SortsSets(codec) && SubjectOf(codec, repo, catalog).Some? && path in SubjectPaths(repo, catalog)
    ensures SameFile(codec, path, repo[path], repo[path])
  {
    SubjectExists(codec, repo, catalog);
  }

  /** The write concerns no subject file, or nothing that the subject sees of one. */
  ghost predicate NeutralWrite(codec: Codec, repo: map<string, File>, catalog: Catalog, path: string, file: File) {
    && (path in SubjectPaths(repo, catalog) <==> InSubject(path, catalog) && !file.kind.Directory?)
    && (path in SubjectPaths(repo, catalog) ==> SameFile(codec, path, repo[path], file))
  }

  lemma NeutralWriteKeepsFiles(codec: Codec, repo: map<string, File>, catalog: Catalog, path: string, file: File)
    requires SortsSets(codec) && SubjectOf(codec, repo, catalog).Some?
    ensures SameSubjectFiles(codec, repo, repo[path := file], catalog) <==> NeutralWrite(codec, repo, catalog, path, file)
  {
    hide SortsSets, SubjectOf, SameFile, InSubject;
    var later := repo[path := file];
    assert path in SubjectPaths(later, catalog) <==> InSubject(path, catalog) && !file.kind.Directory?;
    if NeutralWrite(codec, repo, catalog, path, file) {
      assert SubjectPaths(later, catalog) == SubjectPaths(repo, catalog);
      forall p | p in SubjectPaths(repo, catalog)
        ensures SameFile(codec, p, repo[p], later[p])
      {
        FileIsItself(codec, repo, catalog, p);
      }
    }
  }

  lemma OutsideWriteKeepsSubject(codec: Codec, repo: map<string, File>, catalog: Catalog, path: string, file: File)
    requires CollisionFree(codec) && SortsSets(codec) && SubjectOf(codec, repo, catalog).Some?
    requires !InSubject(path, catalog)
    ensures SubjectOf(codec, repo[path := file], catalog) == SubjectOf(codec, repo, catalog)
  {
    hide CollisionFree, SortsSets, SubjectOf, SameFile, InSubject;
    NeutralWriteKeepsFiles(codec, repo, catalog, path, file);
    SameFilesSameSubject(codec, repo, repo[path := file], catalog);
  }

  // The registry that the loader builds from the published index.

  /** What record n contributes is listed by publication n. */
  lemma ListedContribution(told: Env, done: Env, ctx: Context, p: Publish.Publication)
    requires Publish.Publishable(told, ctx.subject, p)
    ensures var c := Contributed(done, ctx, Publish.RecordJson(told, p));
            c.Some? ==> c.value.conformanceIds == p.conformanceIds && c.value.runSha256 == told.sha256(told.repo[p.run].bytes)
  {
    var record := Publish.RecordJson(told, p);
    Publish.RecordHasShape(told, p);
    if Contributed(done, ctx, record).Some? {
      hide Contributed, Publish.Publishable;
      var c := Contributed(done, ctx, record).value;
      var refs := Unpack(done, ctx, record, c);
      ShapeOf(done, ctx, record, refs, c);
      hide LoadedAs, ChainSound;
      assert ConformanceIds(record) == p.conformanceIds;
    }
  }

  lemma {:induction false} FlattenHas(publications: seq<Publish.Publication>, k: nat, id: string)
    requires k < |publications| && id in publications[k].conformanceIds
    ensures id in Publish.Flatten(publications)
    decreases |publications|
  {
    if k < |publications| - 1 {
      FlattenHas(publications[..|publications| - 1], k, id);
    }
  }

  lemma {:induction false} ListedOnce(publications: seq<Publish.Publication>, j: nat, k: nat, id: string)
    requires Distinct(Publish.Flatten(publications)) && j < k < |publications|
    requires id in publications[j].conformanceIds
    ensures id !in publications[k].conformanceIds
    decreases |publications|
  {
    var front, last := publications[..|publications| - 1], publications[|publications| - 1];
    DistinctAppend(Publish.Flatten(front), last.conformanceIds);
    if k < |publications| - 1 {
      ListedOnce(front, j, k, id);
    } else {
      FlattenHas(front, j, id);
    }
  }

  /** If only record n can register the id, the registry holds what record n registers. */
  lemma {:induction false} RegisteredBy(cs: Contributions, n: nat, id: string)
    requires n < |cs|
    requires forall k :: 0 <= k < |cs| && k != n ==> ClaimShare(cs[k], id).None?
    ensures Registered(cs, id) == ClaimShare(cs[n], id)
    decreases |cs|
  {
    hide ClaimShare;
    var last := |cs| - 1;
    if n < last {
      RegisteredBy(cs[..last], n, id);
    } else {
      NoneRegisters(cs[..last], id);
    }
  }

  lemma {:induction false} NoneRegisters(cs: Contributions, id: string)
    requires forall k :: 0 <= k < |cs| ==> ClaimShare(cs[k], id).None?
    ensures Registered(cs, id).None?
  {
    hide ClaimShare;
    if cs != [] {
      NoneRegisters(cs[..|cs| - 1], id);
    }
  }

  /** In the registry loaded from a published index a claim is what the one record that lists it registers. */
  lemma PublishedRegistry(told: Env, done: Env, ctx: Context, path: string, publications: seq<Publish.Publication>, n: nat, id: string)
    requires Publish.AllPublishable(told, ctx.subject, publications) && |publications| <= 512
    requires Document(done, path) == Some(Publish.IndexJson(Publish.RecordJsons(told, publications)))
    requires n < |publications| && id in publications[n].conformanceIds
    ensures Registered(IndexContributions(done, ctx, path), id) ==
            ClaimShare(Contributed(done, ctx, Publish.RecordJson(told, publications[n])), id)
  {
    hide Contributed, Document, ClaimShare;
    var records := Publish.RecordJsons(told, publications);
    Publish.BuiltRecords(done, path, records);
    var cs := IndexContributions(done, ctx, path);
    assert cs == ContributedBy(done, ctx, records);
    forall k | 0 <= k < |cs| && k != n
      ensures ClaimShare(cs[k], id).None?
    {
      ListedContribution(told, done, ctx, publications[k]);
      if k < n {
        if id in publications[k].conformanceIds {
          ListedOnce(publications, k, n, id);
        }
      } else {
        ListedOnce(publications, n, k, id);
      }
      OthersDoNotClaim(cs[k], publications[k], id);
    }
    RegisteredBy(cs, n, id);
  }

  lemma OthersDoNotClaim(c: Option<Contribution>, p: Publish.Publication, id: string)
    requires c.Some? ==> c.value.conformanceIds == p.conformanceIds
    requires id !in p.conformanceIds
    ensures ClaimShare(c, id).None?
  {
  }

  /**
   * Publication ends in a fixpoint. `env` is the repository before the run is written and `ctx.subject` its subject.
   * The run file is written; its digest is claimed in the provider manifest; the publisher builds an index from that
   * state and the index file is written. Publication n is the one of this run, and `derived` what the gate derives from
   * the final state. The subject has not moved, and the report row of the claim is resolved exactly when the digest is
   * not the all-zero one and publishing has touched nothing else that the record depends on: the files it refers to and
   * hashes, and the verdict of its verifiers.
   */
  lemma PublicationFixpoint(
      env: Env, codec: Codec, ctx: Context, derived: Context, catalog: Catalog, publications: seq<Publish.Publication>, n: nat, c: Contribution,
      run: File, driver: string, claimed: File, k: nat, indexPath: string, index: File, spec: RowSpec)
    requires Injective(env.sha256) && CollisionFree(codec) && SortsSets(codec)
    requires SubjectOf(codec, env.repo, catalog) == Some(ctx.subject) && AgreeOnRows(ctx, derived)
    requires n < |publications| <= 512
    requires !InSubject(publications[n].run, catalog) && !InSubject(indexPath, catalog) && indexPath != publications[n].run
    requires driver in env.repo && IsProviderManifest(driver)
    requires IsClaimWrite(codec, env.repo[driver], claimed, k, env.sha256(run.bytes))
    // the publisher accepts the state after the claim write, and the index file holds what it builds
    requires Publish.AllPublishable(Told(env, publications[n].run, run, driver, claimed), ctx.subject, publications)
    requires var told := Told(env, publications[n].run, run, driver, claimed);
             Document(Write(told, indexPath, index), indexPath) == Some(Publish.IndexJson(Publish.RecordJsons(told, publications)))
    // the record of this run is admitted as soon as the run is there
    requires Contributed(Write(env, publications[n].run, run), ctx,
                         Publish.RecordJson(Told(env, publications[n].run, run, driver, claimed), publications[n])) == Some(c)
    requires spec.claim.Some? && spec.claim.value.conformanceId in publications[n].conformanceIds
    requires spec.claim.value.digest == ClaimedDigest(codec, claimed, k)
    ensures var told := Told(env, publications[n].run, run, driver, claimed);
            var done := Write(told, indexPath, index);
            var record := Publish.RecordJson(told, publications[n]);
            var stays := StillAdmitted(Write(env, publications[n].run, run), ctx, record, c, done.repo);
            && SubjectOf(codec, done.repo, catalog) == Some(ctx.subject)
            && Reloaded(done, codec, derived, catalog, record, done.repo) == (if stays then Some(c) else None)
            && Outcome(IndexContributions(done, derived.(subject := ctx.subject), indexPath), spec).resolution ==
               Some(if IsPlaceholder(env.sha256(run.bytes)) then PlaceholderDigest else if stays then Resolved else Unresolved)
  {
    hide *;
    var runPath := publications[n].run;
    var ran := Write(env, runPath, run);
    var told := Told(env, runPath, run, driver, claimed);
    var done := Write(told, indexPath, index);
    var record := Publish.RecordJson(told, publications[n]);
    var later := derived.(subject := ctx.subject);
    NotInSubject(driver, runPath, catalog);
    ThreeWritesKeepSubject(codec, env.repo, catalog, runPath, run, driver, claimed, k, env.sha256(run.bytes), indexPath, index);
    WritesCompose(env, runPath, run, driver, claimed, indexPath, index);
    SubjectBindsExactly(codec, ran.repo, done.repo, catalog);
    RecordDependsOnly(ran, codec, ctx, derived, catalog, record, c, done.repo);
    ReloadedIs(done, codec, derived, catalog, record, done.repo);
    ReloadedIs(ran, codec, derived, catalog, record, done.repo);
    AtItself(done);
    PublishedRegistry(told, done, later, indexPath, publications, n, spec.claim.value.conformanceId);
    PublishableAt(told, ctx.subject, publications, n);
    ListedContribution(told, ran, ctx, publications[n]);
    ClaimedIsWritten(codec, env.repo[driver], claimed, k, env.sha256(run.bytes));
    ResolutionOfClaim(IndexContributions(done, later, indexPath), spec, Contributed(done, later, record));
  }

  /** The repository after the run is written and its digest claimed. */
  function Told(env: Env, runPath: string, run: File, driver: string, claimed: File): Env {
    Write(Write(env, runPath, run), driver, claimed)
  }

  lemma WritesCompose(env: Env, p: string, f: File, q: string, g: File, r: string, h: File)
    requires p != q
    ensures var ran, told := Write(env, p, f), Told(env, p, f, q, g);
            && Write(told, r, h) == At(ran, Write(told, r, h).repo)
            && Write(told, r, h).repo == env.repo[p := f][q := g][r := h] && ran.repo == env.repo[p := f]
            && ran.sha256 == told.sha256 == env.sha256
            && p in told.repo && told.repo[p] == f
  {
  }

  lemma PublishableAt(env: Env, subject: string, publications: seq<Publish.Publication>, n: nat)
    requires Publish.AllPublishable(env, subject, publications) && n < |publications|
    ensures Publish.Publishable(env, subject, publications[n])
  {
  }

  /** The status of a claim against the one contribution that may register it. */
  lemma ResolutionOfClaim(cs: Contributions, spec: RowSpec, c: Option<Contribution>)
    requires spec.claim.Some? && Registered(cs, spec.claim.value.conformanceId) == ClaimShare(c, spec.claim.value.conformanceId)
    requires c.Some? ==> c.value.runSha256 == spec.claim.value.digest && spec.claim.value.conformanceId in c.value.conformanceIds
    ensures Outcome(cs, spec).resolution ==
            Some(if IsPlaceholder(spec.claim.value.digest) then PlaceholderDigest else if c.Some? then Resolved else Unresolved)
  {
    hide Registered, Applied, IsPlaceholder;
  }

  lemma ThreeWritesKeepSubject(
      codec: Codec, repo: map<string, File>, catalog: Catalog, runPath: string, run: File,
      driver: string, claimed: File, k: nat, digest: string, indexPath: string, index: File)
    requires CollisionFree(codec) && SortsSets(codec) && SubjectOf(codec, repo, catalog).Some?
    requires !InSubject(runPath, catalog) && !InSubject(indexPath, catalog) && driver != runPath
    requires driver in repo && IsProviderManifest(driver)
    requires IsClaimWrite(codec, repo[driver], claimed, k, digest)
    ensures SubjectOf(codec, repo[runPath := run], catalog) == SubjectOf(codec, repo, catalog)
    ensures SubjectOf(codec, repo[runPath := run][driver := claimed][indexPath := index], catalog) == SubjectOf(codec, repo, catalog)
  {
    var ran := repo[runPath := run];
    OutsideWriteKeepsSubject(codec, repo, catalog, runPath, run);
    ClaimWriteKeepsSubject(codec, ran, catalog, driver, claimed, k, digest);
    OutsideWriteKeepsSubject(codec, ran[driver := claimed], catalog, indexPath, index);
  }

  lemma ClaimedIsWritten(codec: Codec, before: File, after: File, k: nat, digest: string)
    requires IsClaimWrite(codec, before, after, k, digest)
    ensures ClaimedDigest(codec, after, k) == digest
  {
    var m := ProviderManifest(codec, before.bytes).value;
    assert RecordsOf(WriteClaim(m, k, digest))[k] == SetClaim(RecordsOf(m)[k], Str(digest));
  }

  lemma NotInSubject(driver: string, path: string, catalog: Catalog)
    requires IsProviderManifest(driver) && !InSubject(path, catalog)
    ensures driver != path
  {
    assert driver[|driver| - 21..][16..] == ".json";
    assert driver[|driver| - 5..] == driver[|driver| - 21..][16..];
    assert InSubject(driver, catalog);
  }

  /** The digest that the provider manifest claims for its record k: what the claim row of the matrix carries. */
  function ClaimedDigest(codec: Codec, file: File, k: nat): string {
    var m := ProviderManifest(codec, file.bytes);
    if m.Some? && HasRecords(m.value) && k < |RecordsOf(m.value)| && HasClaim(RecordsOf(m.value)[k])
       && RecordsOf(m.value)[k].fields["evidence"].fields["sha256"].Str?
    then RecordsOf(m.value)[k].fields["evidence"].fields["sha256"].text
    else ""
  }
}
