/**
 * A small repository with one admitted record, two ways in which new bytes in the provider manifest of its own claim remove
 * that record, two records that end the gate without a report, and three publications, of which one ends resolved.
 */
module Witness {
  import opened Prelude
  import opened Json
  import opened Chain
  import opened Repository
  import opened StepDag
  import opened Inventory
  import opened PositiveCoverage
  import opened Loader
  import opened Coverage
  import opened Report
  import opened Subject
  import opened Fixpoint
  import DepthScan
  import JsonPointer
  import Paths
  import Publish
  import Segments

  // A digest without collisions, and files told apart by their length.

  function Letters(bytes: Bytes): (s: string)
    ensures |s| == |bytes| && forall k :: 0 <= k < |s| ==> s[k] == bytes[k] as char
  {
    seq(|bytes|, k requires 0 <= k < |bytes| => bytes[k] as char)
  }

  lemma LettersDiffer(a: Bytes, b: Bytes)
    requires Letters(a) == Letters(b)
    ensures a == b
  {
    forall k | 0 <= k < |a|
      ensures a[k] == b[k]
    {
      assert Letters(a)[k] == Letters(b)[k];
    }
  }

  function Spaces(size: nat): (bytes: Bytes)
    ensures |bytes| == size && forall k :: 0 <= k < size ==> bytes[k] == 32
  {
    seq(size, k => 32)
  }

  function Contents(size: nat): File {
    File(Spaces(size), 420, Regular)
  }

  function Digest(size: nat): (s: string)
    ensures |s| == size
  {
    Letters(Spaces(size))
  }

  lemma {:induction false} BlankIsFlat(text: string, limit: int)
    requires forall c :: c in text ==> c == ' '
    ensures DepthScan.Within(DepthScan.START, text, limit)
  {
    if text != "" {
      assert text[0] in text && forall c :: c in text[1..] ==> c in text;
      BlankIsFlat(text[1..], limit);
    }
  }

  lemma DigestIsFlat(size: nat)
    ensures DepthScan.Within(DepthScan.START, Digest(size), MAX_JSON_DEPTH)
  {
    BlankIsFlat(Digest(size), MAX_JSON_DEPTH);
  }

  // The names of a small repository: ten files, other spellings of two of them, and four steps.

  datatype World = World(
    manifest: string, run: string, evidence: string, driver: string, rules: string, request: string,
    oracleSource: string, decisionSource: string, catalog: string, index: string,
    driverAlias: string, evidenceAlias: string,
    chain: string, source: string, native: string, oracle: string, decision: string,
    contract: FileRef,
    verifier: map<string, File> -> bool,
    subject: string)

  /** File k of the repository has k + 1 bytes. The index is not there yet. */
  function Files(w: World): seq<string> {
    [w.manifest, w.run, w.evidence, w.driver, w.rules, w.request, w.oracleSource, w.decisionSource, w.catalog]
  }

  function StepNames(w: World): seq<string> {
    [w.source, w.native, w.oracle, w.decision]
  }

  ghost predicate Plainly(files: seq<string>) {
    forall path :: path in files ==> Paths.Plain(path) == path
  }

  ghost predicate Apt(w: World) {
    && Distinct(Files(w)) && Plainly(Files(w)) && w.index !in Files(w) && Paths.Plain(w.index) == w.index
    && Distinct(StepNames(w))
    && Paths.Plain(w.driverAlias) == w.driver && w.driverAlias != w.driver
    && Paths.Plain(w.evidenceAlias) == w.evidence && w.evidenceAlias != w.evidence
    && 0 < |w.chain| <= 256
    && (w.contract == Rules(w) || w.contract == AliasedDriver(w))
  }

  /** The contract is a file of its own, or the provider manifest under another spelling. */
  function Rules(w: World): FileRef {
    FileRef(w.rules, Digest(5))
  }

  function AliasedDriver(w: World): FileRef {
    FileRef(w.driverAlias, Digest(4))
  }

  function RepoOf(files: seq<string>): map<string, File> {
    if files == [] then map[]
    else RepoOf(files[..|files| - 1])[files[|files| - 1] := Contents(|files|)]
  }

  lemma {:induction false} HoldsFile(files: seq<string>, k: nat)
    requires Distinct(files) && k < |files|
    ensures files[k] in RepoOf(files) && RepoOf(files)[files[k]] == Contents(k + 1)
    decreases |files|
  {
    if k < |files| - 1 {
      HoldsFile(files[..|files| - 1], k);
      assert files[k] != files[|files| - 1];
    }
  }

  lemma {:induction false} HoldsOnly(files: seq<string>, path: string)
    ensures path in RepoOf(files) <==> path in files
  {
    if files != [] {
      HoldsOnly(files[..|files| - 1], path);
      assert files == files[..|files| - 1] + [files[|files| - 1]];
    }
  }

  function Repo(w: World): map<string, File> {
    RepoOf(Files(w))
  }

  // The chain: source, native command, oracle, decision; one row; one agent-visible artifact.

  function Source(w: World): Step {
    Step(w.source, SourceMaterialize, false, [], None, None, [], [w.source])
  }

  function Native(w: World): Step {
    Step(w.native, SemanticCommand, true, [w.native], Some(FileRef(w.request, Digest(6))), None, [w.source], [w.native])
  }

  function Oracle(w: World): Step {
    Step(w.oracle, IndependentOracle, false, [], None, Some(FileRef(w.oracleSource, Digest(7))), [w.native], [w.oracle])
  }

  function Decision(w: World): Step {
    Step(w.decision, IndependentDecision, false, [], None, Some(FileRef(w.decisionSource, Digest(8))), [w.oracle], [w.decision])
  }

  function Steps(w: World): seq<Step> {
    [Source(w), Native(w), Oracle(w), Decision(w)]
  }

  lemma StepsAreAdmitted(w: World)
    ensures forall s :: s in Steps(w) ==> StepAdmitted(s)
  {
    hide Digest;
  }

  function TheManifest(w: World): (m: Manifest)
    ensures m.id == w.chain && m.steps == Steps(w) && m.contracts == [w.contract] && m.covers == [w.native]
    ensures m.resultStep == w.decision && m.designClass == Synthetic && m.requiredPointers == ["/r"]
    ensures m.negativeReplays == m.tamperReplays == [Replay("replay", [w.native])]
  {
    StepsAreAdmitted(w);
    var replays := [Replay("replay", [w.native])];
    ManifestData(w.chain, Synthetic, [w.contract], [w.native], Steps(w), replays, replays, w.decision, ["/r"])
  }

  function TheArtifact(w: World): Artifact {
    ArtifactData(w.evidence, 3, Digest(3), Trust(AgentVisibleEvidence), Some(w.decision), Some(w.decision), None)
  }

  function TheRun(w: World): Run {
    RunData(w.chain, Digest(1), w.subject, Attestation(true, w.source, w.source, w.subject, true, true, true),
            {AgentVisibleEvidence}, [TheArtifact(w)])
  }

  // What the files hold.

  function ManifestJson(w: World): Json {
    Obj(map["id" := Str(w.chain)])
  }

  function RunJson(w: World): Json {
    Obj(map["chain_id" := Str(w.chain),
            "chain_manifest_sha256" := Str(Digest(1)),
            "semantic_subject_sha256" := Str(w.subject),
            "status" := Str("pass"),
            "source_attestation" := AttestationJson(w)])
  }

  function AttestationJson(w: World): Json {
    Obj(map["receipt_class" := Str("release"),
            "semantic_subject_sha256" := Str(w.subject),
            "clean_before" := Bool(true),
            "clean_after" := Bool(true),
            "state_unchanged" := Bool(true)])
  }

  const EVIDENCE: Json := Obj(map["r" := Bool(true)])

  /** The provider manifest with one conformance record, which claims the digest. */
  function DriverJson(digest: string): Json {
    Obj(map["conformance_records" := Arr([ClaimJson(digest)])])
  }

  function ClaimJson(digest: string): Json {
    Obj(map["id" := Str("c"), "evidence" := Obj(map["sha256" := Str(digest)])])
  }

  /** Four bytes are the provider manifest before, eleven after its claim is written. */
  function ProviderDoc(size: nat): Option<Json> {
    if size == 4 then Some(DriverJson("")) else if size == 11 then Some(DriverJson(Digest(2))) else None
  }

  function Doc(w: World, size: nat): Option<Json> {
    if size == 1 then Some(ManifestJson(w))
    else if size == 2 then Some(RunJson(w))
    else if size == 3 then Some(EVIDENCE)
    else if size == 9 then Some(Obj(map[]))
    else if size == 10 then Some(IndexJson(w))
    else ProviderDoc(size)
  }

  function TheRef(path: string, digest: string): Json {
    Obj(map["repository_path" := Str(path), "sha256" := Str(digest), "extensions" := Obj(map[])])
  }

  /** The record registers the claim "c". */
  function TheRecord(w: World): Json {
    Obj(map["id" := Str(w.chain),
            "conformance_record_ids" := Arr([Str("c")]),
            "manifest" := TheRef(w.manifest, Digest(1)),
            "run" := TheRef(w.run, Digest(2)),
            "extensions" := Obj(map[])])
  }

  function IndexJson(w: World): Json {
    Obj(map["schema" := Str("openada.semantic-chain-index/v0alpha1"), "records" := Arr([TheRecord(w)]), "extensions" := Obj(map[])])
  }

  /** The claim "c" is held by the provider manifest. */
  function TheContext(w: World): Context {
    Context(map[w.native := RowSpec(w.native, None, Some(NativeEda), None, None, SemanticExecution, None)],
            {"c"}, map["c" := w.driver], w.subject, true)
  }

  /** A tree without links, ASCII digits, and checks that accept except for the release verifier of the chain. */
  function TheEnv(w: World): Env {
    Env(Repo(w), path => To(Paths.Plain(path)), Letters, bytes => Some(Letters(bytes)), text => Doc(w, |text|),
        json => if json == ManifestJson(w) then Some(TheManifest(w)) else None,
        json => if json == RunJson(w) then Some(TheRun(w)) else None,
        spelling => spelling == "1",
        JsonPointer.Unicode(c => '0' <= c <= '9', c => if '0' <= c <= '9' then Some((c - '0') as nat) else None, None),
        revision => Some((w.subject, w.source)),
        (repo, manifest, run) => Accepts, (repo, ref) => Accepts,
        (repo, manifest, run, release) => if release ==> w.verifier(repo) then Accepts else Refuses)
  }

  function TheRefs(w: World): Refs {
    Refs(Some(FileRef(w.manifest, Digest(1))), Some(FileRef(w.run, Digest(2))))
  }

  function TheContribution(w: World): Contribution {
    Contribution(w.chain, ["c"], TheManifest(w), TheRun(w), Digest(2))
  }

  // The files are there.

  ghost predicate Stored(w: World, path: string, size: nat) {
    var env := TheEnv(w);
    && path in env.repo && env.repo[path] == Contents(size)
    && env.resolve(path) == To(path)
    && RefValid(env, FileRef(path, Digest(size)))
    && (Doc(w, size).Some? && Doc(w, size).value.Obj? ==> Document(env, path) == Doc(w, size))
  }

  lemma ReadsBack(w: World, repo: map<string, File>, path: string, size: nat)
    requires path in repo && repo[path] == Contents(size) && 1 <= size <= 16
    ensures var env := At(TheEnv(w), repo);
            && Readable(env, path) && env.sha256(repo[path].bytes) == Digest(size)
            && env.utf8(repo[path].bytes) == Some(Digest(size)) && env.parse(Digest(size)) == Doc(w, size) && env.repo == repo
  {
    hide Repo, TheManifest, TheRun, Doc, Letters;
  }

  lemma DocumentIs(w: World, repo: map<string, File>, path: string, size: nat)
    requires path in repo && repo[path] == Contents(size) && 1 <= size <= 16 && Doc(w, size).Some? && Doc(w, size).value.Obj?
    ensures Document(At(TheEnv(w), repo), path) == Doc(w, size)
  {
    ReadsBack(w, repo, path, size);
    DigestIsFlat(size);
    hide TheEnv, Readable, Doc, Digest, Contents, DepthScan.Within;
  }

  lemma ResolvesPlainly(w: World, path: string)
    ensures TheEnv(w).resolve(path) == To(Paths.Plain(path))
  {
    hide Paths.Plain, Repo, TheManifest, TheRun, Doc, Letters;
  }

  lemma FileIsStored(w: World, k: nat)
    requires Distinct(Files(w)) && Plainly(Files(w)) && k < |Files(w)| <= 9
    ensures Stored(w, Files(w)[k], k + 1)
  {
    var path := Files(w)[k];
    assert path in Files(w);
    HoldsFile(Files(w), k);
    assert Paths.Plain(path) == path;
    hide RepoOf, Files, Distinct, Plainly, Paths.Plain;
    EnvRepo(w);
    AtItself(TheEnv(w));
    ReadsBack(w, Repo(w), path, k + 1);
    if Doc(w, k + 1).Some? && Doc(w, k + 1).value.Obj? {
      DocumentIs(w, Repo(w), path, k + 1);
    }
    ResolvesPlainly(w, path);
    hide TheEnv, Readable, Document, Doc, Digest, Contents;
  }

  lemma EnvRepo(w: World)
    ensures TheEnv(w).repo == Repo(w)
  {
    hide Repo, TheManifest, TheRun, Doc, Letters;
  }

  lemma AptFiles(w: World)
    requires Apt(w)
    ensures Distinct(Files(w)) && Plainly(Files(w))
  {
    hide Distinct, Plainly, Paths.Plain, Files, StepNames, Digest;
  }

  lemma FilesAre(w: World)
    ensures |Files(w)| == 9
    ensures Files(w)[0] == w.manifest && Files(w)[1] == w.run && Files(w)[2] == w.evidence && Files(w)[3] == w.driver
    ensures Files(w)[4] == w.rules && Files(w)[5] == w.request && Files(w)[6] == w.oracleSource && Files(w)[7] == w.decisionSource
    ensures Files(w)[8] == w.catalog
  {
  }

  lemma AllStored(w: World)
    requires Apt(w)
    ensures Stored(w, w.manifest, 1) && Stored(w, w.run, 2) && Stored(w, w.evidence, 3) && Stored(w, w.driver, 4)
    ensures Stored(w, w.rules, 5) && Stored(w, w.request, 6) && Stored(w, w.oracleSource, 7) && Stored(w, w.decisionSource, 8)
    ensures Stored(w, w.catalog, 9)
  {
    hide *;
    AptFiles(w);
    FilesAre(w);
    forall k | 0 <= k < 9
      ensures Stored(w, Files(w)[k], k + 1)
    {
      FileIsStored(w, k);
    }
  }

  lemma StoredRef(w: World, path: string, size: nat)
    requires Stored(w, path, size)
    ensures RefValid(TheEnv(w), FileRef(path, Digest(size))) && TheEnv(w).resolve(path) == To(path)
    ensures path in TheEnv(w).repo && TheEnv(w).repo[path] == Contents(size)
  {
    hide Document, RefValid, Repo, Digest, Doc, Contents;
  }

  lemma StoredDocument(w: World, path: string, size: nat)
    requires Stored(w, path, size) && Doc(w, size).Some? && Doc(w, size).value.Obj?
    ensures Document(TheEnv(w), path) == Doc(w, size)
  {
    hide Document, RefValid, Repo, Digest, Doc, Contents;
  }

  lemma StoredDigest(w: World, path: string, size: nat)
    requires Stored(w, path, size)
    ensures path in TheEnv(w).repo && TheEnv(w).sha256(TheEnv(w).repo[path].bytes) == Digest(size)
  {
    hide Document, RefValid, Repo, Doc, Spaces;
  }

  lemma ContractIsValid(w: World)
    requires Apt(w)
    ensures RefValid(TheEnv(w), w.contract)
  {
    AllStored(w);
    hide Stored, Apt, Document, Repo, Digest;
    StoredRef(w, w.rules, 5);
    StoredRef(w, w.driver, 4);
    AliasIsValid(w);
    ContractIs(w);
  }

  lemma ContractIs(w: World)
    requires Apt(w)
    ensures w.contract == Rules(w) || w.contract == AliasedDriver(w)
  {
    hide Paths.Plain, Files, StepNames, Plainly, Distinct, Digest;
  }

  lemma AliasIsValid(w: World)
    requires Apt(w) && RefValid(TheEnv(w), FileRef(w.driver, Digest(4))) && TheEnv(w).resolve(w.driver) == To(w.driver)
    ensures RefValid(TheEnv(w), AliasedDriver(w)) && TheEnv(w).resolve(w.driverAlias) == To(w.driver)
  {
    hide Paths.Plain, Files, StepNames, Plainly, Distinct, Digest, Readable, Repo, TheManifest, TheRun, Doc;
  }

  // The steps.

  lemma StepIsNamed(w: World, i: nat)
    requires Distinct(StepNames(w)) && i < 4
    ensures Steps(w)[i].id == StepNames(w)[i] && Steps(w)[i].produces == [StepNames(w)[i]]
    ensures forall j :: 0 <= j < 4 && j != i ==> StepNames(w)[j] != StepNames(w)[i]
  {
    hide Digest;
  }

  lemma RolesAreDefinedOnce(w: World)
    requires Distinct(StepNames(w))
    ensures RolesDefinedOnce(Steps(w)) && UniqueIds(Steps(w))
  {
    StepIsNamed(w, 0);
    StepIsNamed(w, 1);
    StepIsNamed(w, 2);
    StepIsNamed(w, 3);
    assert |Steps(w)| == 4;
    hide Steps, StepNames, Distinct;
  }

  lemma RolesAreOrdered(w: World)
    ensures RolesOrdered(Steps(w))
  {
    hide Digest;
    var steps := Steps(w);
    assert w.source in steps[0].produces && w.native in steps[1].produces && w.oracle in steps[2].produces;
    assert ProducedBefore(steps, 1, w.source) && ProducedBefore(steps, 2, w.native) && ProducedBefore(steps, 3, w.oracle);
  }

  lemma OracleSeesRaw(w: World)
    ensures OracleConsumesNative(Steps(w)) && Feeds(Steps(w), 1, 2) && Feeds(Steps(w), 2, 3)
  {
    hide Digest;
    var steps := Steps(w);
    assert w.native in steps[1].produces && w.native in steps[2].consumes;
    assert w.oracle in steps[2].produces && w.oracle in steps[3].consumes;
    assert Feeds(steps, 1, 2) && Feeds(steps, 2, 3);
    assert IsNativeCommandAt(steps, 1) && IsOracleAt(steps, 2);
  }

  lemma AllKinds(w: World)
    requires UniqueIds(Steps(w))
    ensures StepInventory(Steps(w), w.decision)
  {
    var steps := Steps(w);
    assert Source(w) in steps && Native(w) in steps && Oracle(w) in steps && Decision(w) in steps;
    hide Steps, UniqueIds, Digest;
  }

  lemma OracleSourcesAccepted(w: World, ref: FileRef)
    ensures TheEnv(w).oracleSource(TheEnv(w).repo, ref).Accepts?
  {
    hide Repo, TheManifest, TheRun, Doc, Letters;
  }

  lemma StepRefsAre(env: Env, step: Step)
    requires step.request.Some? ==> RefValid(env, step.request.value)
    requires step.implementation.Some? ==> RefValid(env, step.implementation.value)
    requires step.implementation.Some? ==> env.oracleSource(env.repo, step.implementation.value).Accepts?
    ensures StepRefsValid(env, step)
  {
    hide RefValid;
  }

  lemma RefsOfSteps(w: World)
    ensures forall s :: s in Steps(w) ==>
              && (s.request.Some? ==> s.request.value == FileRef(w.request, Digest(6)))
              && (s.implementation.Some? ==>
                    s.implementation.value in {FileRef(w.oracleSource, Digest(7)), FileRef(w.decisionSource, Digest(8))})
  {
    hide Digest;
  }

  lemma ReferencesAreValid(w: World)
    requires Apt(w)
    ensures forall s :: s in Steps(w) ==> StepRefsValid(TheEnv(w), s)
  {
    hide *;
    AllStored(w);
    StoredRef(w, w.request, 6);
    StoredRef(w, w.oracleSource, 7);
    StoredRef(w, w.decisionSource, 8);
    RefsOfSteps(w);
    forall s | s in Steps(w)
      ensures StepRefsValid(TheEnv(w), s)
    {
      if s.implementation.Some? {
        OracleSourcesAccepted(w, s.implementation.value);
      }
      StepRefsAre(TheEnv(w), s);
    }
  }

  lemma AptSteps(w: World)
    requires Apt(w)
    ensures Distinct(StepNames(w))
  {
    hide Distinct, Plainly, Paths.Plain, Files, StepNames, Digest;
  }

  lemma StepsAreSound(w: World)
    requires Apt(w)
    ensures StepsSound(TheEnv(w), Steps(w)) && StepInventory(Steps(w), w.decision) && WellOrdered(Steps(w))
  {
    hide Steps, Apt, RolesOrdered, RolesDefinedOnce, UniqueIds, OracleConsumesNative, StepInventory, Feeds, StepRefsValid, TheEnv, StepNames, Distinct;
    AptSteps(w);
    RolesAreDefinedOnce(w);
    RolesAreOrdered(w);
    OracleSeesRaw(w);
    AllKinds(w);
    ReferencesAreValid(w);
  }

  lemma NativeIsAncestor(w: World)
    requires Apt(w)
    ensures w.native in AncestorsOf(Steps(w), w.decision)
  {
    var steps := Steps(w);
    assert |steps| == 4 && steps[1].id == w.native && steps[3].id == w.decision;
    hide *;
    StepsAreSound(w);
    OracleSeesRaw(w);
    ReachesOne(steps, 1, 2);
    ReachesOne(steps, 2, 3);
    ReachesTransitive(steps, 1, 2, 3);
    AncestorClosure(steps, 3, w.native);
  }

  lemma OnlyNativeCovers(w: World)
    ensures Native(w) in Steps(w) && Decision(w) in Steps(w)
    ensures forall s :: s in Steps(w) && s.kind.SemanticCommand? ==> s == Native(w)
  {
    hide Digest;
    assert Steps(w)[1] == Native(w) && Steps(w)[3] == Decision(w);
  }

  /** One row, covered by one native command that the result step depends on. */
  lemma OneRowCovered(manifest: Manifest, rows: map<string, RowSpec>, row: string, command: Step, result: Step)
    requires manifest.covers == [row] && command in manifest.steps && result in manifest.steps
    requires command.kind.SemanticCommand? && command.native && command.covers == [row]
    requires forall s :: s in manifest.steps && s.kind.SemanticCommand? ==> s == command
    requires result.id == manifest.resultStep && command.id in AncestorsOf(manifest.steps, manifest.resultStep)
    requires row in rows && RowExecutionClass(rows[row]).NativeEda?
    ensures PositivelyCovered(manifest, rows)
  {
    hide AncestorsOf, RowExecutionClass;
    assert Covers(command, row);
    assert forall rowId :: Exercised(manifest, rowId) <==> rowId == row;
  }

  lemma RowIsCovered(w: World)
    requires Apt(w)
    ensures PositivelyCovered(TheManifest(w), TheContext(w).rows)
  {
    NativeIsAncestor(w);
    OnlyNativeCovers(w);
    hide Apt, AncestorsOf, Steps, PositivelyCovered, Digest, ManifestAdmitted;
    OneRowCovered(TheManifest(w), TheContext(w).rows, w.native, Native(w), Decision(w));
  }

  lemma ReplaysAreCovered(w: World)
    ensures forall r :: r in TheManifest(w).negativeReplays ==> ReplayCoversDeclared(TheManifest(w), r)
    ensures forall r :: r in TheManifest(w).tamperReplays ==> ReplayCoversDeclared(TheManifest(w), r)
  {
    hide Steps, ManifestAdmitted;
  }

  lemma StructureIsSound(w: World)
    requires Apt(w)
    ensures StructureSound(TheEnv(w), TheContext(w), TheManifest(w))
  {
    hide *;
    RowIsCovered(w);
    StepsAreSound(w);
    ContractIsValid(w);
    ReplaysAreCovered(w);
    StructureIs(TheEnv(w), TheContext(w), TheManifest(w));
  }

  lemma StructureIs(env: Env, ctx: Context, manifest: Manifest)
    ensures StructureSound(env, ctx, manifest) <==>
            && (forall c :: c in manifest.contracts ==> RefValid(env, c))
            && StepInventory(manifest.steps, manifest.resultStep) && StepsSound(env, manifest.steps)
            && PositivelyCovered(manifest, ctx.rows)
            && (forall r :: r in manifest.negativeReplays ==> ReplayCoversDeclared(manifest, r))
            && (forall r :: r in manifest.tamperReplays ==> ReplayCoversDeclared(manifest, r))
  {
    hide RefValid, StepInventory, StepsSound, PositivelyCovered, ReplayCoversDeclared;
  }

  // The artifact and the agent document.

  lemma DecisionIsFound(w: World)
    ensures StepById(Steps(w), w.decision) == Some(Decision(w))
  {
    hide Digest;
    assert Steps(w)[3] == Decision(w);
  }

  lemma OriginIsValid(w: World)
    ensures OriginValid(TheManifest(w), TheArtifact(w))
  {
    DecisionIsFound(w);
    hide Letters, Digest, StepById, Steps, ManifestAdmitted;
  }

  lemma ContentIsValid(w: World)
    requires Apt(w)
    ensures ContentValid(TheEnv(w), TheArtifact(w))
  {
    AllStored(w);
    hide Stored, Apt, TheEnv, Letters, Paths.Plain;
    StoredRef(w, w.evidence, 3);
    StoredDigest(w, w.evidence, 3);
    ResolvesPlainly(w, w.evidence);
  }

  lemma OneArtifactSound(env: Env, run: Run, manifest: Manifest, a: Artifact)
    requires run.artifacts == [a] && run.checks == {AgentVisibleEvidence} && a.role == Trust(AgentVisibleEvidence)
    requires ContentValid(env, a) && OriginValid(manifest, a)
    requires |manifest.negativeReplays| == |manifest.tamperReplays| == 1 && manifest.designClass.Synthetic?
    ensures InventorySound(env, run, manifest)
  {
    hide ContentValid, OriginValid, ManifestAdmitted;
    assert HasRole(run.artifacts, 0, Trust(AgentVisibleEvidence));
  }

  lemma RunIs(w: World)
    ensures TheRun(w).artifacts == [TheArtifact(w)] && TheRun(w).checks == {AgentVisibleEvidence}
    ensures TheArtifact(w).role == Trust(AgentVisibleEvidence) && !IsReplayRole(TheArtifact(w).role) && TheArtifact(w).path == w.evidence
    ensures TheRun(w).chainId == w.chain && TheRun(w).manifestSha256 == Digest(1) && TheRun(w).subject == w.subject
  {
    hide Digest;
  }

  lemma InventoryIsSound(w: World)
    requires Apt(w)
    ensures InventorySound(TheEnv(w), TheRun(w), TheManifest(w))
  {
    hide *;
    ContentIsValid(w);
    OriginIsValid(w);
    RunIs(w);
    OneArtifactSound(TheEnv(w), TheRun(w), TheManifest(w), TheArtifact(w));
  }

  /** The evidence under its other spelling. */
  function EvidenceAgain(w: World): Artifact {
    ArtifactData(w.evidenceAlias, 3, Digest(3), Other("notes"), Some(w.decision), Some(w.decision), None)
  }

  function TheRunAgain(w: World): Run {
    TheRun(w).(artifacts := [TheArtifact(w), EvidenceAgain(w)])
  }

  lemma AgainIs(w: World)
    ensures Again(TheArtifact(w), w.evidenceAlias, "notes") == EvidenceAgain(w)
    ensures TheRunAgain(w) == TheRun(w).(artifacts := [TheArtifact(w), EvidenceAgain(w)])
  {
    hide Digest;
  }

  /** One run in which one file is listed under two spellings passes the inventory. */
  lemma EvidenceListedTwice(w: World)
    requires Apt(w)
    ensures InventorySound(TheEnv(w), TheRunAgain(w), TheManifest(w)) && TheRunAgain(w).artifacts == [TheArtifact(w), EvidenceAgain(w)]
    ensures EvidenceAgain(w).path != TheArtifact(w).path && FilePath(EvidenceAgain(w)) == FilePath(TheArtifact(w))
  {
    RunIs(w);
    hide *;
    AgainIs(w);
    InventoryIsSound(w);
    AliasOfEvidence(w);
    ResolvesPlainly(w, w.evidence);
    ResolvesPlainly(w, w.evidenceAlias);
    AgainOfOne(TheEnv(w), TheRun(w), TheManifest(w), TheArtifact(w), w.evidenceAlias);
  }

  lemma AgainOfOne(env: Env, run: Run, manifest: Manifest, a: Artifact, spelling: string)
    requires InventorySound(env, run, manifest) && run.artifacts == [a] && !IsReplayRole(a.role) && a.path != spelling
    requires env.resolve(spelling) == env.resolve(a.path) && Paths.Plain(spelling) == Paths.Plain(a.path)
    ensures var again := Again(a, spelling, "notes");
            && InventorySound(env, run.(artifacts := [a, again]), manifest)
            && again.path == spelling && FilePath(again) == FilePath(a)
  {
    hide InventorySound, Paths.Plain, ManifestAdmitted;
    OtherSpellingIsNotReuse(env, run, manifest, 0, spelling, "notes");
    assert run.artifacts + [Again(a, spelling, "notes")] == [a, Again(a, spelling, "notes")];
  }

  lemma AliasOfEvidence(w: World)
    requires Apt(w)
    ensures Paths.Plain(w.evidenceAlias) == Paths.Plain(w.evidence) && w.evidenceAlias != w.evidence
  {
    hide Paths.Plain, Distinct, Digest, StepNames;
    assert Files(w)[2] == w.evidence;
  }

  lemma OneToken()
    ensures JsonPointer.PointerTokens("/r") == ["r"]
  {
    assert "/r"[1..] == "r" && "r"[1..] == "";
    Segments.SplitOne("r");
    assert JsonPointer.Replace("r", '1', '/') == "r" && JsonPointer.Replace("r", '0', '~') == "r";
    assert ["r"][1..] == [] && JsonPointer.DecodeAll([]) == [];
  }

  lemma PointerIsPresent(w: World)
    ensures PointerPresent(TheEnv(w), EVIDENCE, "/r")
  {
    OneToken();
    hide TheEnv, JsonPointer.PointerTokens;
    var u := TheEnv(w).unicode;
    assert JsonPointer.Walk(u, Bool(true), []) == JsonPointer.Exists;
    assert "r" in EVIDENCE.fields && EVIDENCE.fields["r"] == Bool(true) && ["r"][1..] == [];
    assert JsonPointer.Walk(u, EVIDENCE, ["r"]) == JsonPointer.Exists;
    assert |"/r"| > 0;
  }

  lemma OneAgentSound(env: Env, manifest: Manifest, run: Run, a: Artifact, pointer: string, document: Json)
    requires run.artifacts == [a] && a.role == Trust(AgentVisibleEvidence) && manifest.requiredPointers == [pointer]
    requires env.resolve(a.path).To? && Document(env, env.resolve(a.path).path) == Some(document)
    requires PointerPresent(env, document, pointer)
    ensures AgentEvidenceSound(env, manifest, run)
  {
    hide Document, PointerPresent, ManifestAdmitted;
    assert OnlyAgentArtifact(run, 0) && AgentDocumentSound(env, manifest, run.artifacts[0]);
  }

  lemma EvidenceDoc(w: World)
    ensures Doc(w, 3) == Some(EVIDENCE) && EVIDENCE.Obj?
  {
  }

  lemma AgentIsSound(w: World)
    requires Apt(w)
    ensures AgentEvidenceSound(TheEnv(w), TheManifest(w), TheRun(w))
  {
    hide *;
    AllStored(w);
    EvidenceDoc(w);
    StoredRef(w, w.evidence, 3);
    StoredDocument(w, w.evidence, 3);
    RunIs(w);
    PointerIsPresent(w);
    OneAgentSound(TheEnv(w), TheManifest(w), TheRun(w), TheArtifact(w), "/r", EVIDENCE);
  }

  lemma ChecksAccept(w: World)
    requires w.verifier(Repo(w))
    ensures var env := TheEnv(w);
            && env.provenance(env.repo, TheManifest(w), TheRun(w)).Accepts?
            && env.releaseVerifier(env.repo, TheManifest(w), TheRun(w), true).Accepts?
  {
    hide Repo, TheManifest, TheRun, Doc, Letters;
  }

  lemma ChainIs(env: Env, ctx: Context, manifest: Manifest, run: Run)
    requires env.provenance(env.repo, manifest, run).Accepts? && env.releaseVerifier(env.repo, manifest, run, ctx.release).Accepts?
    requires AgentEvidenceSound(env, manifest, run) && StructureSound(env, ctx, manifest)
    requires forall row :: row in manifest.covers ==> row in ctx.rows
    ensures ChainSound(env, ctx, manifest, run)
  {
    hide AgentEvidenceSound, StructureSound;
  }

  lemma ContextIs(w: World)
    ensures TheContext(w).release && w.native in TheContext(w).rows && TheContext(w).subject == w.subject
    ensures "c" in TheContext(w).providerManifests && TheContext(w).providerManifests["c"] == w.driver
  {
  }

  lemma ChainIsSound(w: World)
    requires Apt(w) && w.verifier(Repo(w))
    ensures ChainSound(TheEnv(w), TheContext(w), TheManifest(w), TheRun(w))
  {
    hide *;
    AgentIsSound(w);
    StructureIsSound(w);
    ChecksAccept(w);
    ContextIs(w);
    ChainIs(TheEnv(w), TheContext(w), TheManifest(w), TheRun(w));
  }

  // The record.

  lemma RecordIsShaped(w: World)
    requires 0 < |w.chain| <= 256
    ensures ShapeSound(TheContext(w), TheRecord(w)) && HasKeys(TheRecord(w))
    ensures RefShape(TheRecord(w).fields["manifest"]) && RefShape(TheRecord(w).fields["run"])
    ensures IdOf(TheRecord(w)) == w.chain && ConformanceIds(TheRecord(w)) == ["c"]
    ensures TheRefs(w) == Refs(RefOf(TheRecord(w).fields["manifest"]), RefOf(TheRecord(w).fields["run"]))
  {
    hide Digest;
    assert TheRecord(w).fields.Keys == RECORD_KEYS;
    assert forall path, digest :: TheRef(path, digest).fields.Keys == REF_KEYS;
    assert Texts([Str("c")]) == ["c"];
  }

  lemma DocumentsAre(w: World)
    ensures Doc(w, 1) == Some(ManifestJson(w)) && Doc(w, 1).value.Obj? && Doc(w, 2) == Some(RunJson(w)) && Doc(w, 2).value.Obj?
    ensures TheEnv(w).manifest(ManifestJson(w)) == Some(TheManifest(w)) && TheEnv(w).run(RunJson(w)) == Some(TheRun(w))
  {
    hide TheManifest, TheRun, Digest, Letters, Repo;
  }

  lemma RefsAre(env: Env, refs: Refs, m: FileRef, r: FileRef, mj: Json, rj: Json)
    requires refs == Refs(Some(m), Some(r)) && RefValid(env, m) && RefValid(env, r)
    requires Document(env, env.resolve(m.path).path) == Some(mj) && Document(env, env.resolve(r.path).path) == Some(rj)
    ensures RefsValid(env, refs) && ManifestAt(env, refs) == env.manifest(mj) && RunAt(env, refs) == env.run(rj)
  {
    hide Document, Readable;
  }

  lemma TheRefsAre(w: World)
    ensures TheRefs(w) == Refs(Some(FileRef(w.manifest, Digest(1))), Some(FileRef(w.run, Digest(2))))
  {
    hide Digest;
  }

  lemma FilesAreRead(w: World)
    requires Apt(w)
    ensures var env := TheEnv(w);
            && RefsValid(env, TheRefs(w))
            && ManifestAt(env, TheRefs(w)) == Some(TheManifest(w)) && RunAt(env, TheRefs(w)) == Some(TheRun(w))
  {
    hide *;
    AllStored(w);
    DocumentsAre(w);
    StoredRef(w, w.manifest, 1);
    StoredRef(w, w.run, 2);
    StoredDocument(w, w.manifest, 1);
    StoredDocument(w, w.run, 2);
    TheRefsAre(w);
    RefsAre(TheEnv(w), TheRefs(w), FileRef(w.manifest, Digest(1)), FileRef(w.run, Digest(2)), ManifestJson(w), RunJson(w));
  }

  lemma RunIsBound(w: World)
    requires Apt(w) && RefsValid(TheEnv(w), TheRefs(w))
    ensures Bound(TheEnv(w), TheContext(w), TheRefs(w), TheManifest(w), TheRun(w))
  {
    hide Apt, TheEnv, Digest, Document, Readable, Stored, TheManifest, RefValid;
    AllStored(w);
    StoredRef(w, w.manifest, 1);
    StoredDigest(w, w.manifest, 1);
  }

  lemma AttestationIsSound(w: World)
    ensures AttestationSound(TheEnv(w), TheContext(w), TheRun(w).attestation, TheRun(w))
  {
    hide Repo, TheManifest, TheArtifact, Doc, Letters, Digest;
  }

  lemma NoCycle(w: World)
    requires Apt(w)
    ensures !InClaimCycle(TheContext(w), TheManifest(w), "c")
  {
    ContractIs(w);
    ContextIs(w);
    assert w.contract.path != w.driver by {
      hide Paths.Plain, Plainly, StepNames, Digest;
      assert Files(w)[4] == w.rules && Files(w)[3] == w.driver;
    }
    hide Apt, TheContext, Steps, ManifestAdmitted;
  }

  lemma PairIsLoaded(env: Env, ctx: Context, refs: Refs, manifest: Manifest, run: Run)
    requires RefsValid(env, refs) && ManifestAt(env, refs) == Some(manifest) && RunAt(env, refs) == Some(run)
    requires !InClaimCycle(ctx, manifest, "c") && Bound(env, ctx, refs, manifest, run)
    requires AttestationSound(env, ctx, run.attestation, run) && InventorySound(env, run, manifest)
    ensures FilesLoaded(env, ctx, ["c"], refs)
  {
    hide RefsValid, ManifestAt, RunAt, InClaimCycle, Bound, AttestationSound, InventorySound;
  }

  lemma FilesAreLoaded(w: World)
    requires Apt(w)
    ensures FilesLoaded(TheEnv(w), TheContext(w), ["c"], TheRefs(w))
  {
    hide *;
    FilesAreRead(w);
    RunIsBound(w);
    AttestationIsSound(w);
    InventoryIsSound(w);
    NoCycle(w);
    PairIsLoaded(TheEnv(w), TheContext(w), TheRefs(w), TheManifest(w), TheRun(w));
  }

  lemma LoadedWhole(env: Env, ctx: Context, record: Json, refs: Refs, c: Contribution)
    requires ShapeSound(ctx, record)
    requires refs == Refs(RefOf(record.fields["manifest"]), RefOf(record.fields["run"]))
    requires FilesLoaded(env, ctx, ConformanceIds(record), refs)
    requires ManifestAt(env, refs) == Some(c.manifest) && RunAt(env, refs) == Some(c.run)
    requires c == Contribution(IdOf(record), ConformanceIds(record), c.manifest, c.run, refs.run.value.sha256)
    ensures LoadedAs(env, ctx, record, refs, c)
  {
  }

  lemma ContributionIs(w: World)
    ensures TheContribution(w) == Contribution(w.chain, ["c"], TheManifest(w), TheRun(w), Digest(2))
  {
    hide Digest, TheManifest, TheRun;
  }

  lemma AptChain(w: World)
    requires Apt(w)
    ensures 0 < |w.chain| <= 256
  {
    hide Paths.Plain, Distinct, Plainly, Files, StepNames, Digest;
  }

  /** The record, whose manifest meets every minimum of its schema, is admitted. */
  lemma RecordIsAdmitted(w: World)
    requires Apt(w) && w.verifier(Repo(w))
    ensures Contributed(TheEnv(w), TheContext(w), TheRecord(w)) == Some(TheContribution(w))
  {
    hide *;
    AptChain(w);
    RecordIsShaped(w);
    FilesAreRead(w);
    FilesAreLoaded(w);
    ChainIsSound(w);
    TheRefsAre(w);
    ContributionIs(w);
    LoadedWhole(TheEnv(w), TheContext(w), TheRecord(w), TheRefs(w), TheContribution(w));
    Pack(TheEnv(w), TheContext(w), TheRecord(w), TheRefs(w), TheContribution(w));
  }

  // New bytes in the provider manifest.

  lemma DigestsAreInjective(w: World)
    ensures Injective(TheEnv(w).sha256)
  {
    forall a, b | Letters(a) == Letters(b)
      ensures a == b
    {
      LettersDiffer(a, b);
    }
  }

  lemma AptPaths(w: World)
    requires Apt(w)
    ensures w.driver !in {w.manifest, w.run, w.evidence, w.rules, w.request, w.oracleSource, w.decisionSource, w.catalog, w.index}
    ensures w.index !in {w.manifest, w.run} && w.manifest != w.run
    ensures forall path :: path in Files(w) ==> Paths.Plain(path) == path
  {
    FilesAre(w);
    AptFiles(w);
    hide Paths.Plain, StepNames, Digest, Plainly;
    assert forall k :: 0 <= k < 9 && k != 3 ==> Files(w)[k] != Files(w)[3];
    assert Files(w)[0] != Files(w)[1];
    assert Plainly(Files(w)) ==> forall path :: path in Files(w) ==> Paths.Plain(path) == path by {
      PlainlyIs(w);
    }
    assert forall k :: 0 <= k < 9 ==> Files(w)[k] != w.index by {
      assert forall k :: 0 <= k < 9 ==> Files(w)[k] in Files(w);
    }
  }

  lemma PlainlyIs(w: World)
    ensures Plainly(Files(w)) ==> forall path :: path in Files(w) ==> Paths.Plain(path) == path
  {
    hide Paths.Plain, Files;
  }

  lemma LeadsPlainly(w: World, path: string, target: string)
    requires Apt(w) && path in Files(w)
    ensures LeadsTo(TheEnv(w), path, target) <==> path == target
  {
    ResolvesPlainly(w, path);
    AptPaths(w);
    hide TheEnv, Apt, Paths.Plain, Files;
  }

  /** The record refers to the provider manifest nowhere, and hashes it exactly through a contract of another spelling. */
  lemma DriverUse(w: World)
    requires Apt(w)
    ensures !Refers(TheEnv(w), TheRecord(w), w.driver)
    ensures Hashes(TheEnv(w), TheManifest(w), TheRun(w), w.driver) <==> w.contract == AliasedDriver(w)
  {
    hide *;
    AptChain(w);
    RecordIsShaped(w);
    TheRefsAre(w);
    RunIs(w);
    RefsOfSteps(w);
    ContractIs(w);
    AptPaths(w);
    InFiles(w);
    AllStored(w);
    StoredRef(w, w.driver, 4);
    AliasIsValid(w);
    LeadsPlainly(w, w.manifest, w.driver);
    LeadsPlainly(w, w.run, w.driver);
    LeadsPlainly(w, w.evidence, w.driver);
    LeadsPlainly(w, w.rules, w.driver);
    LeadsPlainly(w, w.request, w.driver);
    LeadsPlainly(w, w.oracleSource, w.driver);
    LeadsPlainly(w, w.decisionSource, w.driver);
    NotReferred(TheEnv(w), TheRecord(w), TheRefs(w), w.driver);
    AliasLeads(w);
    forall s | s in Steps(w)
      ensures !HashesStep(TheEnv(w), s, w.driver)
    {
      StepLeads(TheEnv(w), s, w.driver);
    }
    HashedBy(TheEnv(w), TheManifest(w), TheRun(w), w.driver, w.contract);
  }

  lemma StepLeads(env: Env, step: Step, path: string)
    requires step.request.Some? ==> !LeadsTo(env, step.request.value.path, path)
    requires step.implementation.Some? ==> !LeadsTo(env, step.implementation.value.path, path)
    ensures !HashesStep(env, step, path)
  {
    hide LeadsTo;
  }

  lemma InFiles(w: World)
    ensures w.manifest in Files(w) && w.run in Files(w) && w.evidence in Files(w) && w.rules in Files(w)
    ensures w.request in Files(w) && w.oracleSource in Files(w) && w.decisionSource in Files(w) && w.driver in Files(w)
  {
  }

  lemma AliasLeads(w: World)
    requires Apt(w)
    ensures LeadsTo(TheEnv(w), AliasedDriver(w).path, w.driver) && Rules(w).path == w.rules && Rules(w) != AliasedDriver(w)
  {
    AptPaths(w);
    ResolvesPlainly(w, w.driverAlias);
    hide TheEnv, Files, StepNames, Distinct, Plainly, Digest, Paths.Plain;
    assert |Digest(4)| != |Digest(5)|;
  }

  lemma NotReferred(env: Env, record: Json, refs: Refs, path: string)
    requires HasKeys(record) && RefShape(record.fields["manifest"]) && RefShape(record.fields["run"])
    requires refs == Refs(RefOf(record.fields["manifest"]), RefOf(record.fields["run"])) && refs.manifest.Some? && refs.run.Some?
    requires !LeadsTo(env, refs.manifest.value.path, path) && !LeadsTo(env, refs.run.value.path, path)
    ensures !Refers(env, record, path)
  {
    hide LeadsTo, RefOf, RefShape;
  }

  /** Steps and artifacts lead elsewhere. */
  lemma HashedBy(env: Env, manifest: Manifest, run: Run, path: string, contract: FileRef)
    requires manifest.contracts == [contract]
    requires forall s :: s in manifest.steps ==> !HashesStep(env, s, path)
    requires forall a :: a in run.artifacts ==> !LeadsTo(env, a.path, path)
    ensures Hashes(env, manifest, run, path) <==> LeadsTo(env, contract.path, path)
  {
    hide LeadsTo, HashesStep, ManifestAdmitted;
    assert contract in manifest.contracts;
  }

  /** Any new bytes in the provider manifest decide by the contract and the release verifier alone. */
  lemma NewDriverBytes(w: World, repo: map<string, File>)
    requires Apt(w) && w.verifier(Repo(w))
    requires forall p :: p in Repo(w) && p != w.driver ==> p in repo && repo[p] == Repo(w)[p]
    requires w.driver in repo && repo[w.driver].bytes != Spaces(4)
    ensures StillAdmitted(TheEnv(w), TheContext(w), TheRecord(w), TheContribution(w), repo) <==>
            w.contract == Rules(w) && w.verifier(repo)
  {
    hide *;
    RecordIsAdmitted(w);
    DigestsAreInjective(w);
    EnvRepo(w);
    ContributionIs(w);
    ContextIs(w);
    AllStored(w);
    StoredRef(w, w.driver, 4);
    ContentsAre(4);
    DependenciesStay(TheEnv(w), TheContext(w), TheRecord(w), TheContribution(w), w.driver, repo);
    DriverUse(w);
    ContractIs(w);
    AliasLeads(w);
    StillAdmittedIs(TheEnv(w), TheContext(w), TheRecord(w), TheContribution(w), repo);
    VerdictIs(w, repo);
  }

  lemma ContentsAre(size: nat)
    ensures Contents(size).bytes == Spaces(size) && Contents(size).kind == Regular
  {
  }

  lemma VerdictIs(w: World, repo: map<string, File>)
    ensures VerifiersAccept(At(TheEnv(w), repo), true, TheManifest(w), TheRun(w)) <==> w.verifier(repo)
  {
    hide Repo, TheManifest, TheRun, Doc, Letters;
  }

  /**
   * A contract of another spelling escapes the cycle check: the record is admitted while it hashes the provider manifest
   * that holds its own claim, and anything new written there, a claim included, removes it even where the subject stays.
   */
  lemma AliasedContractEscapes(w: World, written: File)
    requires Apt(w) && w.verifier(Repo(w)) && w.contract == AliasedDriver(w) && written.bytes != Spaces(4)
    ensures var env, ctx, record := TheEnv(w), TheContext(w), TheRecord(w);
            && Contributed(env, ctx, record) == Some(TheContribution(w))
            && "c" in TheContribution(w).conformanceIds && ctx.providerManifests["c"] == w.driver
            && Hashes(env, TheManifest(w), TheRun(w), w.driver)
            && Contributed(Write(env, w.driver, written), ctx, record).None?
  {
    hide *;
    DriverUse(w);
    AliasLeads(w);
    Rewritten(w, written);
  }

  lemma Rewritten(w: World, written: File)
    requires Apt(w) && w.verifier(Repo(w)) && written.bytes != Spaces(4)
    requires w.contract != Rules(w) || !w.verifier(Repo(w)[w.driver := written])
    ensures var env, ctx, record := TheEnv(w), TheContext(w), TheRecord(w);
            && Contributed(env, ctx, record) == Some(TheContribution(w))
            && "c" in TheContribution(w).conformanceIds && "c" in ctx.providerManifests && ctx.providerManifests["c"] == w.driver
            && Contributed(Write(env, w.driver, written), ctx, record).None?
  {
    hide *;
    var repo := Repo(w)[w.driver := written];
    RecordIsAdmitted(w);
    DigestsAreInjective(w);
    ContextIs(w);
    ContributionIs(w);
    EnvRepo(w);
    NewDriverBytes(w, repo);
    RecordDependsOnFiles(TheEnv(w), TheContext(w), TheRecord(w), TheContribution(w), repo);
    WriteIs(TheEnv(w), w.driver, written);
  }

  /** A verifier that compares the provider manifest with a digest of its own. */
  function Pins(driver: string): map<string, File> -> bool {
    (repo: map<string, File>) => driver in repo && Letters(repo[driver].bytes) == Digest(4)
  }

  /** One that accepts every repository. */
  function Always(): map<string, File> -> bool {
    (repo: map<string, File>) => true
  }

  lemma PinsIs(w: World, repo: map<string, File>)
    requires w.driver in repo
    ensures Pins(w.driver)(repo) <==> repo[w.driver].bytes == Spaces(4)
  {
    if Letters(repo[w.driver].bytes) == Digest(4) {
      LettersDiffer(repo[w.driver].bytes, Spaces(4));
    }
  }

  /**
   * So does a release verifier that compares the provider manifest with a digest of its own, as the shipped inverter
   * verifier does: the record hashes the file nowhere, and a new claim still removes it.
   */
  lemma VerifierReadsProviderManifest(w: World, written: File)
    requires Apt(w) && w.verifier == Pins(w.driver) && w.contract == Rules(w) && written.bytes != Spaces(4)
    ensures var env, ctx, record := TheEnv(w), TheContext(w), TheRecord(w);
            && Contributed(env, ctx, record) == Some(TheContribution(w))
            && !Refers(env, record, w.driver) && !Hashes(env, TheManifest(w), TheRun(w), w.driver)
            && Contributed(Write(env, w.driver, written), ctx, record).None?
  {
    hide *;
    DriverUse(w);
    AliasLeads(w);
    EnvRepo(w);
    AllStored(w);
    StoredRef(w, w.driver, 4);
    ContentsAre(4);
    PinsIs(w, Repo(w));
    PinsIs(w, Repo(w)[w.driver := written]);
    Rewritten(w, written);
  }

  // Two records that end the gate without a report.

  lemma ShapeMeansRefs(ctx: Context, record: Json)
    requires ShapeSound(ctx, record)
    ensures HasRefs(record)
  {
  }

  /** What the index refers to may have a null byte, which no call of the file system takes. */
  function NullByteEnv(w: World): Env {
    TheEnv(w).(resolve := path => if '\0' in path then Unresolvable else To(Paths.Plain(path)))
  }

  lemma NullByteIsUnresolvable(w: World)
    ensures NullByteEnv(w).resolve("\0").Unresolvable?
  {
    hide TheEnv, Paths.Plain;
    assert "\0"[0] == '\0';
  }

  lemma RunPathIs(w: World)
    ensures TheRecord(w).fields["run"] == TheRef(w.run, Digest(2)) && TheRef(w.run, Digest(2)).fields["repository_path"] == Str(w.run)
  {
    hide Digest;
  }

  lemma UnresolvableRunRaises(env: Env, ctx: Context, record: Json, path: string)
    requires HasRefs(record) && record.fields["run"].fields["repository_path"] == Str(path) && env.resolve(path).Unresolvable?
    ensures RecordRaises(env, ctx, record)
  {
    hide FilesRaise;
  }

  lemma NullByteRaises(w: World)
    requires 0 < |w.chain| <= 256 && w.run == "\0"
    ensures RecordRaises(NullByteEnv(w), TheContext(w), TheRecord(w))
  {
    hide *;
    RecordIsShaped(w);
    ShapeMeansRefs(TheContext(w), TheRecord(w));
    RunPathIs(w);
    NullByteIsUnresolvable(w);
    UnresolvableRunRaises(NullByteEnv(w), TheContext(w), TheRecord(w), "\0");
  }

  /** The evidence is a directory: hashing it raises. */
  function DirectoryEnv(w: World): Env {
    At(TheEnv(w), Repo(w)[w.evidence := File(Spaces(3), 493, Directory)])
  }

  lemma StaysElsewhere(env: Env, path: string, file: File, other: string)
    requires other in env.repo && env.repo[other].kind.Regular? && env.resolve(other) == To(other) && other != path
    ensures KeptRef(env, env.repo[path := file], other)
  {
  }

  lemma DirectoryRepo(w: World)
    ensures DirectoryEnv(w).repo == TheEnv(w).repo[w.evidence := File(Spaces(3), 493, Directory)]
    ensures DirectoryEnv(w).resolve == TheEnv(w).resolve
  {
    hide Repo, Spaces;
  }

  lemma DirectoryIsThere(w: World)
    requires Apt(w)
    ensures var env := DirectoryEnv(w);
            && env.resolve(w.evidence) == To(w.evidence)
            && w.evidence in env.repo && env.repo[w.evidence].kind.Directory?
            && KeptRef(TheEnv(w), env.repo, w.manifest) && KeptRef(TheEnv(w), env.repo, w.run)
  {
    hide *;
    AllStored(w);
    StoredRef(w, w.evidence, 3);
    StoredRef(w, w.manifest, 1);
    StoredRef(w, w.run, 2);
    EvidenceIsOther(w);
    ContentsAre(1);
    ContentsAre(2);
    DirectoryRepo(w);
    StaysElsewhere(TheEnv(w), w.evidence, File(Spaces(3), 493, Directory), w.manifest);
    StaysElsewhere(TheEnv(w), w.evidence, File(Spaces(3), 493, Directory), w.run);
  }

  lemma EvidenceIsOther(w: World)
    requires Apt(w)
    ensures w.evidence != w.manifest && w.evidence != w.run
  {
    FilesAre(w);
    AptFiles(w);
    hide Files, Apt;
    assert Files(w)[0] != Files(w)[2] && Files(w)[1] != Files(w)[2];
  }

  lemma DirectoryEvidenceRaises(w: World)
    requires Apt(w)
    ensures RecordRaises(DirectoryEnv(w), TheContext(w), TheRecord(w))
  {
    DirectoryIs(w);
    hide *;
    var env, repo := TheEnv(w), DirectoryEnv(w).repo;
    AptChain(w);
    RecordIsShaped(w);
    ShapeMeansRefs(TheContext(w), TheRecord(w));
    DirectoryIsThere(w);
    FilesAreRead(w);
    RunIsBound(w);
    DigestsAreInjective(w);
    AllStored(w);
    StoredRef(w, w.manifest, 1);
    StoredRef(w, w.run, 2);
    TheRefsAre(w);
    RefKept(env, FileRef(w.manifest, Digest(1)), repo);
    RefKept(env, FileRef(w.run, Digest(2)), repo);
    BothValid(At(env, repo), TheRefs(w), FileRef(w.manifest, Digest(1)), FileRef(w.run, Digest(2)));
    PairElsewhere(env, TheContext(w), TheRefs(w), TheManifest(w), TheRun(w), repo);
    RunIs(w);
    ArtifactEndsLoading(At(env, repo), TheContext(w), TheRecord(w), TheRefs(w), TheManifest(w), TheRun(w), TheArtifact(w));
  }

  lemma DirectoryIs(w: World)
    ensures DirectoryEnv(w) == At(TheEnv(w), DirectoryEnv(w).repo)
  {
    hide TheEnv, Repo;
  }

  lemma BothValid(env: Env, refs: Refs, m: FileRef, r: FileRef)
    requires refs == Refs(Some(m), Some(r)) && RefValid(env, m) && RefValid(env, r)
    ensures RefsValid(env, refs)
  {
    hide RefValid;
  }

  lemma ArtifactEndsLoading(env: Env, ctx: Context, record: Json, refs: Refs, manifest: Manifest, run: Run, a: Artifact)
    requires HasRefs(record) && refs == Refs(RefOf(record.fields["manifest"]), RefOf(record.fields["run"]))
    requires RefsValid(env, refs) && ManifestAt(env, refs) == Some(manifest) && RunAt(env, refs) == Some(run)
    requires Bound(env, ctx, refs, manifest, run)
    requires run.artifacts == [a] && env.resolve(a.path).To? && env.resolve(a.path).path in env.repo
    requires env.repo[env.resolve(a.path).path].kind.Directory?
    ensures RecordRaises(env, ctx, record)
  {
    hide HasRefs, RefOf, RefsValid, ManifestAt, RunAt, Bound, InventorySound, ChainRaises;
    assert a in run.artifacts && ArtifactRaises(env, a);
  }

  // The world before the run is written, after the claim, and after the index.

  function Before(w: World): Env {
    At(TheEnv(w), Repo(w) - {w.run})
  }

  function Claimed(w: World): Env {
    At(TheEnv(w), Repo(w)[w.driver := Contents(11)])
  }

  function Done(w: World): Env {
    At(TheEnv(w), Repo(w)[w.driver := Contents(11)][w.index := Contents(10)])
  }

  function ThePublication(w: World): Publish.Publication {
    Publish.Publication(w.manifest, w.run, ["c"])
  }

  /** The provider manifest is one by its path, the only one, and run and index are no subject files. */
  predicate Placed(w: World) {
    && IsProviderManifest(w.driver)
    && (forall path :: path in Files(w) && IsProviderManifest(path) ==> path == w.driver)
    && !InSubject(w.run, Inside(w.catalog)) && !InSubject(w.index, Inside(w.catalog))
  }

  /** `canonical` and `sorted` are any canonical form without collisions and any order. */
  function TheCodec(canonical: Json -> string, sorted: set<string> -> seq<string>): Codec {
    Codec(Letters, bytes => Some(Letters(bytes)), text => ProviderDoc(|text|), canonical, sorted)
  }

  ghost predicate Canonical(canonical: Json -> string, sorted: set<string> -> seq<string>) {
    && (forall a, b :: canonical(a) == canonical(b) ==> a == b)
    && (forall s :: Elements(sorted(s)) == s)
  }

  lemma CodecIsSound(canonical: Json -> string, sorted: set<string> -> seq<string>)
    requires Canonical(canonical, sorted)
    ensures CollisionFree(TheCodec(canonical, sorted)) && SortsSets(TheCodec(canonical, sorted))
  {
    hide ProviderDoc;
    forall a, b | Letters(a) == Letters(b)
      ensures a == b
    {
      LettersDiffer(a, b);
    }
  }

  // The provider manifest and its claim.

  lemma ClaimIsFlat(digest: string)
    ensures HeightWithin(ClaimJson(digest), 3)
  {
    var evidence := Obj(map["sha256" := Str(digest)]);
    assert HeightWithin(evidence, 2);
    assert forall key :: key in ClaimJson(digest).fields ==>
        ClaimJson(digest).fields[key] == Str("c") || ClaimJson(digest).fields[key] == evidence;
  }

  lemma DriverIsFlat(digest: string)
    ensures HeightWithin(DriverJson(digest), MAX_JSON_DEPTH)
  {
    ClaimIsFlat(digest);
    HeightGrows(ClaimJson(digest), 3, 62);
    hide ClaimJson;
    assert HeightWithin(Arr([ClaimJson(digest)]), 63);
  }

  lemma {:induction false} HeightGrows(json: Json, low: int, high: int)
    requires HeightWithin(json, low) && low <= high
    ensures HeightWithin(json, high)
    decreases json
  {
    match json
    case Arr(items) =>
      forall k | 0 <= k < |items|
        ensures HeightWithin(items[k], high - 1)
      {
        HeightGrows(items[k], low - 1, high - 1);
      }
    case Obj(fields) =>
      forall key | key in fields
        ensures HeightWithin(fields[key], high - 1)
      {
        HeightGrows(fields[key], low - 1, high - 1);
      }
    case _ =>
  }

  const MARK: string := "@detached-semantic-chain-run-sha256@"

  lemma DriverHasClaim(digest: string)
    ensures HasRecords(DriverJson(digest)) && RecordsOf(DriverJson(digest)) == [ClaimJson(digest)] && HasClaim(ClaimJson(digest))
  {
  }

  lemma ClaimIsSet(digest: string, next: string)
    requires HasClaim(ClaimJson(digest))
    ensures SetClaim(ClaimJson(digest), Str(next)) == ClaimJson(next)
  {
    var evidence := map["sha256" := Str(digest)];
    assert evidence["sha256" := Str(next)] == map["sha256" := Str(next)];
    assert SetClaim(ClaimJson(digest), Str(next)).fields == ClaimJson(next).fields;
  }

  lemma DriverIsWritten(digest: string, next: string)
    requires HasRecords(DriverJson(digest)) && RecordsOf(DriverJson(digest)) == [ClaimJson(digest)] && HasClaim(ClaimJson(digest))
    ensures WriteClaim(DriverJson(digest), 0, next) == DriverJson(next)
    ensures Detach(DriverJson(digest)) == DriverJson(MARK)
  {
    ClaimIsSet(digest, next);
    ClaimIsSet(digest, MARK);
    hide ClaimJson;
    assert [ClaimJson(digest)][0 := ClaimJson(next)] == [ClaimJson(next)];
    assert DetachRecords([ClaimJson(digest)]) == [ClaimJson(MARK)];
  }

  lemma DriverIsParsed(codec: Codec, size: nat, canonical: Json -> string, sorted: set<string> -> seq<string>)
    requires codec == TheCodec(canonical, sorted) && ProviderDoc(size).Some? && ProviderDoc(size).value.Obj?
    ensures ProviderManifest(codec, Spaces(size)) == ProviderDoc(size)
  {
    DigestIsFlat(size);
    hide ProviderDoc, Spaces, Letters;
  }

  lemma DocsAre()
    ensures ProviderDoc(4) == Some(DriverJson("")) && DriverJson("").Obj?
    ensures ProviderDoc(11) == Some(DriverJson(Digest(2))) && DriverJson(Digest(2)).Obj?
  {
    hide Digest;
  }

  lemma ClaimIsWritten(codec: Codec, canonical: Json -> string, sorted: set<string> -> seq<string>)
    requires codec == TheCodec(canonical, sorted)
    ensures IsClaimWrite(codec, Contents(4), Contents(11), 0, Digest(2))
    ensures ClaimedDigest(codec, Contents(11), 0) == Digest(2)
    ensures ProviderSemanticSha256(codec, Spaces(4)).Some?
  {
    DocsAre();
    DriverIsParsed(codec, 4, canonical, sorted);
    DriverIsParsed(codec, 11, canonical, sorted);
    DriverHasClaim("");
    DriverIsWritten("", Digest(2));
    DriverIsFlat(MARK);
    hide ProviderManifest, TheCodec, DriverJson, ClaimJson, Detach, WriteClaim, HeightWithin, Digest, Spaces;
    ClaimedIsWritten(codec, Contents(4), Contents(11), 0, Digest(2));
  }

  // The subject.

  lemma SubjectIsThere(w: World, codec: Codec, canonical: Json -> string, sorted: set<string> -> seq<string>)
    requires Apt(w) && Placed(w) && Canonical(canonical, sorted) && codec == TheCodec(canonical, sorted)
    ensures SubjectOf(codec, Before(w).repo, Inside(w.catalog)).Some?
  {
    hide Apt, TheCodec, Canonical, Contents, Before, Repo, ProviderSemanticSha256, IsProviderManifest, Files, InSubject;
    CodecIsSound(canonical, sorted);
    ClaimIsWritten(codec, canonical, sorted);
    FilesAreThere(w);
    ContentsAre(4);
    var repo := Before(w).repo;
    forall path | path in SubjectPaths(repo, Inside(w.catalog)) && IsProviderManifest(path)
      ensures ProviderSemanticSha256(codec, repo[path].bytes).Some?
    {
      InRepo(w, path);
      assert path == w.driver;
    }
    hide *;
    SubjectExists(codec, repo, Inside(w.catalog));
  }

  lemma InRepo(w: World, path: string)
    ensures path in Repo(w) <==> path in Files(w)
  {
    HoldsOnly(Files(w), path);
  }

  // What the publisher sees.

  lemma WritesAre(env: Env, runPath: string, run: File, driver: string, claimed: File, indexPath: string, index: File)
    requires runPath in env.repo && env.repo[runPath] == run && runPath != driver
    ensures var before, told := At(env, env.repo - {runPath}), At(env, env.repo[driver := claimed]);
            && Write(before, runPath, run) == env
            && Told(before, runPath, run, driver, claimed) == told
            && Write(told, indexPath, index) == At(env, env.repo[driver := claimed][indexPath := index])
  {
    assert (env.repo - {runPath})[runPath := run] == env.repo;
  }

  lemma WorldIsWritten(w: World)
    requires Apt(w)
    ensures Write(Before(w), w.run, Contents(2)) == TheEnv(w)
    ensures Told(Before(w), w.run, Contents(2), w.driver, Contents(11)) == Claimed(w)
    ensures Write(Claimed(w), w.index, Contents(10)) == Done(w)
  {
    hide Apt, Stored, TheEnv, Repo, Contents, Told, Write, At;
    AllStored(w);
    StoredRef(w, w.run, 2);
    EnvRepo(w);
    AptPaths(w);
    WritesAre(TheEnv(w), w.run, Contents(2), w.driver, Contents(11), w.index, Contents(10));
  }

  lemma AtIs(env: Env, repo: map<string, File>)
    ensures At(env, repo).repo == repo && At(env, repo).sha256 == env.sha256
  {
  }

  lemma FilesAreThere(w: World)
    requires Apt(w)
    ensures var before, claimed, done := Before(w).repo, Claimed(w).repo, Done(w).repo;
            && before == Repo(w) - {w.run} && w.driver in before && before[w.driver] == Contents(4)
            && w.manifest in claimed && claimed[w.manifest] == Contents(1) && w.run in claimed && claimed[w.run] == Contents(2)
            && (forall p :: p in Repo(w) && p != w.driver ==> p in done && done[p] == Repo(w)[p])
            && w.driver in done && done[w.driver] == Contents(11) && w.index in done && done[w.index] == Contents(10)
  {
    hide Apt, Stored, TheEnv, Repo, Contents, Files;
    AllStored(w);
    StoredRef(w, w.manifest, 1);
    StoredRef(w, w.run, 2);
    StoredRef(w, w.driver, 4);
    EnvRepo(w);
    AptPaths(w);
    IndexIsNew(w);
  }

  lemma IndexIsNew(w: World)
    requires Apt(w)
    ensures w.index !in Repo(w)
  {
    HoldsOnly(Files(w), w.index);
    hide Paths.Plain, Distinct, Plainly, Digest;
  }

  /** A file of the world is read back from any state of it. */
  lemma Loads(w: World, repo: map<string, File>, path: string, size: nat)
    requires path in repo && repo[path] == Contents(size) && 1 <= size <= 16 && Doc(w, size).Some? && Doc(w, size).value.Obj?
    ensures Publish.Loadable(At(TheEnv(w), repo), path) == Doc(w, size)
    ensures At(TheEnv(w), repo).sha256(repo[path].bytes) == Digest(size)
  {
    hide TheEnv, Doc, Digest, Contents;
    ReadsBack(w, repo, path, size);
    DocumentIs(w, repo, path, size);
    LoadableIs(At(TheEnv(w), repo), path);
  }

  lemma LoadsBoth(w: World)
    requires Apt(w)
    ensures Publish.Loadable(Claimed(w), w.manifest) == Some(ManifestJson(w))
    ensures Publish.Loadable(Claimed(w), w.run) == Some(RunJson(w))
    ensures w.manifest in Claimed(w).repo && Claimed(w).sha256(Claimed(w).repo[w.manifest].bytes) == Digest(1)
    ensures w.run in Claimed(w).repo && Claimed(w).sha256(Claimed(w).repo[w.run].bytes) == Digest(2)
  {
    hide TheEnv, Repo, Apt, Contents, Digest, ManifestJson, RunJson, Done, Doc, Publish.Loadable;
    FilesAreThere(w);
    DocumentsAre(w);
    Loads(w, Claimed(w).repo, w.manifest, 1);
    Loads(w, Claimed(w).repo, w.run, 2);
  }

  lemma LoadableIs(env: Env, path: string)
    requires Readable(env, path)
    ensures Publish.Loadable(env, path) == Document(env, path)
  {
  }

  lemma AttestationIsRelease(w: World, env: Env)
    ensures Publish.ReleaseAttestation(env, RunJson(w), w.subject)
  {
    hide Digest;
    var source := AttestationJson(w);
    assert Publish.Field(RunJson(w), "source_attestation") == Some(source);
    assert Publish.ATTESTATION_KEYS[0] == "receipt_class" && Publish.ATTESTATION_KEYS[1] == "semantic_subject_sha256";
    assert Publish.ATTESTATION_KEYS[2] == "clean_before" && Publish.ATTESTATION_KEYS[3] == "clean_after";
    assert Publish.ATTESTATION_KEYS[4] == "state_unchanged" && |Publish.ATTESTATION_KEYS| == 5;
    assert Publish.Field(source, "receipt_class") == Some(Str("release"));
    assert Publish.Field(source, "semantic_subject_sha256") == Some(Str(w.subject));
    assert Publish.Field(source, "clean_before") == Some(Bool(true)) && Publish.Field(source, "clean_after") == Some(Bool(true));
    assert Publish.Field(source, "state_unchanged") == Some(Bool(true));
    hide AttestationJson, RunJson;
  }

  lemma RunNamesChain(w: World)
    requires 0 < |w.chain|
    ensures Publish.NamesChain(ManifestJson(w)) && Publish.ChainId(ManifestJson(w)) == w.chain
    ensures Publish.Field(RunJson(w), "chain_id") == Some(Str(w.chain))
    ensures Publish.Field(RunJson(w), "chain_manifest_sha256") == Some(Str(Digest(1)))
    ensures Publish.Field(RunJson(w), "semantic_subject_sha256") == Some(Str(w.subject))
    ensures Publish.Field(RunJson(w), "status") == Some(Str("pass"))
  {
    hide Digest, AttestationJson;
  }

  lemma PublishableIs(env: Env, subject: string, p: Publish.Publication, manifest: Json, run: Json)
    requires Publish.Loadable(env, p.manifest) == Some(manifest) && Publish.Loadable(env, p.run) == Some(run)
    requires Publish.NamesChain(manifest)
    requires Publish.Field(run, "chain_id") == Some(Str(Publish.ChainId(manifest)))
    requires p.manifest in env.repo
    requires Publish.Field(run, "chain_manifest_sha256") == Some(Str(env.sha256(env.repo[p.manifest].bytes)))
    requires Publish.Field(run, "semantic_subject_sha256") == Some(Str(subject)) && Publish.Field(run, "status") == Some(Str("pass"))
    requires Publish.ReleaseAttestation(env, run, subject)
    ensures Publish.Publishable(env, subject, p) && Publish.PublishedId(env, p) == Publish.ChainId(manifest)
  {
    hide Publish.Loadable, Publish.NamesChain, Publish.ChainId, Publish.Field, Publish.ReleaseAttestation;
  }

  lemma RunIsPublishable(w: World)
    requires Apt(w)
    ensures Publish.Publishable(Claimed(w), w.subject, ThePublication(w)) && Publish.PublishedId(Claimed(w), ThePublication(w)) == w.chain
  {
    ThePublicationIs(w);
    hide *;
    AptChain(w);
    LoadsBoth(w);
    RunNamesChain(w);
    AttestationIsRelease(w, Claimed(w));
    PublishableIs(Claimed(w), w.subject, ThePublication(w), ManifestJson(w), RunJson(w));
  }

  lemma ThePublicationIs(w: World)
    ensures ThePublication(w) == Publish.Publication(w.manifest, w.run, ["c"])
  {
  }

  lemma OneIsAll(env: Env, subject: string, p: Publish.Publication)
    requires Publish.Publishable(env, subject, p) && |p.conformanceIds| == 1
    ensures Publish.AllPublishable(env, subject, [p])
  {
    hide Publish.Publishable, Publish.PublishedId;
    assert [p][..0] == [] && Publish.Flatten([p]) == p.conformanceIds;
  }

  lemma RecordIsPublished(w: World)
    requires Apt(w)
    ensures Publish.RecordJson(Claimed(w), ThePublication(w)) == TheRecord(w)
    ensures Publish.RecordJsons(Claimed(w), [ThePublication(w)]) == [TheRecord(w)]
  {
    hide Apt, Claimed, Publish.PublishedId, Publish.Publishable, Publish.Loadable, Digest;
    RunIsPublishable(w);
    LoadsBoth(w);
    assert Publish.Texts(["c"]) == [Str("c")];
    assert Publish.RefJson(Claimed(w), w.manifest) == TheRef(w.manifest, Digest(1));
    assert Publish.RefJson(Claimed(w), w.run) == TheRef(w.run, Digest(2));
    hide TheRef, Publish.RefJson;
  }

  lemma IndexDoc(w: World)
    ensures Doc(w, 10) == Some(Publish.IndexJson([TheRecord(w)])) && Doc(w, 10).value.Obj?
  {
    hide TheRecord, Digest;
  }

  lemma IndexIsRead(w: World)
    requires Apt(w)
    ensures Document(Done(w), w.index) == Some(Publish.IndexJson(Publish.RecordJsons(Claimed(w), [ThePublication(w)])))
  {
    hide Apt, Claimed, TheEnv, Repo, Doc, TheRecord, Contents, Publish.IndexJson, Publish.RecordJsons, ThePublication, Document;
    FilesAreThere(w);
    RecordIsPublished(w);
    IndexDoc(w);
    DocumentIs(w, Done(w).repo, w.index, 10);
  }

  // The outcome.

  lemma DigestIsReal()
    ensures !IsPlaceholder(Digest(2))
  {
  }

  /**
   * Every requirement of the fixpoint theorem is met here. The claim row ends resolved exactly when the contract is a
   * file of its own and the release verifier accepts the repository after publication.
   */
  lemma PublicationEnds(w: World, canonical: Json -> string, sorted: set<string> -> seq<string>, derived: Context, spec: RowSpec)
    requires Apt(w) && Placed(w) && Canonical(canonical, sorted) && w.verifier(Repo(w))
    requires SubjectOf(TheCodec(canonical, sorted), Before(w).repo, Inside(w.catalog)) == Some(w.subject)
    requires AgreeOnRows(TheContext(w), derived)
    requires spec.claim.Some? && spec.claim.value.conformanceId == "c" && spec.claim.value.digest == Digest(2)
    ensures SubjectOf(TheCodec(canonical, sorted), Done(w).repo, Inside(w.catalog)) == Some(w.subject)
    ensures Outcome(IndexContributions(Done(w), derived.(subject := w.subject), w.index), spec).resolution ==
            Some(if w.contract == Rules(w) && w.verifier(Done(w).repo) then Resolved else Unresolved)
  {
    hide *;
    var codec := TheCodec(canonical, sorted);
    var publications := [ThePublication(w)];
    CodecIsSound(canonical, sorted);
    ClaimIsWritten(codec, canonical, sorted);
    DigestIsReal();
    ThePublicationIs(w);
    ContextIs(w);
    WorldIsWritten(w);
    FilesAreThere(w);
    RunIsPublishable(w);
    OneIsAll(Claimed(w), w.subject, ThePublication(w));
    RecordIsPublished(w);
    IndexIsRead(w);
    RecordIsAdmitted(w);
    DigestsAreInjective(w);
    AptPaths(w);
    PlacedIs(w);
    DigestIs(w);
    AtIs(TheEnv(w), Repo(w) - {w.run});
    BeforeIs(w);
    ContentsAre(11);
    LongerIsOther();
    PublicationFixpoint(
      Before(w), codec, TheContext(w), derived, Inside(w.catalog), publications, 0, TheContribution(w),
      Contents(2), w.driver, Contents(11), 0, w.index, Contents(10), spec);
    NewDriverBytes(w, Done(w).repo);
  }

  lemma BeforeIs(w: World)
    ensures Before(w) == At(TheEnv(w), Repo(w) - {w.run})
  {
  }

  lemma LongerIsOther()
    ensures Spaces(11) != Spaces(4)
  {
    assert |Spaces(11)| != |Spaces(4)|;
  }

  lemma DigestIs(w: World)
    ensures TheEnv(w).sha256(Contents(2).bytes) == Digest(2)
  {
    hide Spaces, Repo, TheManifest, TheRun, Doc;
  }

  lemma PlacedIs(w: World)
    requires Placed(w)
    ensures IsProviderManifest(w.driver) && !InSubject(w.run, Inside(w.catalog)) && !InSubject(w.index, Inside(w.catalog))
  {
  }

  // Names that will do.

  const DRIVER: string := "providers" + "/" + "driver-manifest.json"
  const DRIVER_ALIAS: string := "providers" + "/" + ("." + "/" + "driver-manifest.json")
  const EVIDENCE_PATH: string := "evidence" + "/" + "result.json"
  const EVIDENCE_ALIAS: string := "evidence" + "/" + ("." + "/" + "result.json")

  function Example(aliased: bool, verifier: map<string, File> -> bool, subject: string): World {
    World("manifest.json", "run.json", EVIDENCE_PATH, DRIVER, "rules.json", "request.json",
          "oracle.py", "decision.py", "catalog.json", "index.json", DRIVER_ALIAS, EVIDENCE_ALIAS,
          "openada.chain/example/v0", "source", "native", "oracle", "decision",
          if aliased then FileRef(DRIVER_ALIAS, Digest(4)) else FileRef("rules.json", Digest(5)), verifier, subject)
  }

  lemma NameIsPlain(name: string)
    requires Paths.IsSegment(name)
    ensures Paths.Plain(name) == name
  {
    Paths.PlainOfJoin([name]);
    assert Paths.Join([name]) == name;
  }

  lemma PairIsPlain(a: string, b: string)
    requires Paths.IsSegment(a) && Paths.IsSegment(b)
    ensures Paths.Plain(a + "/" + b) == a + "/" + b
    ensures Paths.Plain(a + "/" + ("." + "/" + b)) == a + "/" + b && a + "/" + ("." + "/" + b) != a + "/" + b
  {
    Paths.PlainOfJoin([a, b]);
    assert [a, b][1..] == [b] && Paths.Join([b]) == b && Paths.Join([a, b]) == a + "/" + b;
    hide Paths.Plain, Paths.Join;
    Paths.DotIsDropped(a, b);
  }

  lemma RecordNames()
    ensures Paths.IsSegment("manifest.json") && Paths.IsSegment("run.json") && Paths.IsSegment("index.json")
  {
  }

  lemma InputNames()
    ensures Paths.IsSegment("rules.json") && Paths.IsSegment("request.json") && Paths.IsSegment("catalog.json")
  {
  }

  lemma SourceNames()
    ensures Paths.IsSegment("oracle.py") && Paths.IsSegment("decision.py")
  {
  }

  lemma PairNames()
    ensures Paths.IsSegment("providers") && Paths.IsSegment("driver-manifest.json")
    ensures Paths.IsSegment("evidence") && Paths.IsSegment("result.json")
  {
  }

  lemma NamesArePlain(w: World, aliased: bool)
    requires w == Example(aliased, w.verifier, w.subject)
    ensures Plainly(Files(w)) && Paths.Plain(w.index) == w.index
    ensures Paths.Plain(w.driverAlias) == w.driver && w.driverAlias != w.driver
    ensures Paths.Plain(w.evidenceAlias) == w.evidence && w.evidenceAlias != w.evidence
  {
    hide Paths.Plain, Paths.IsSegment;
    RecordNames();
    InputNames();
    SourceNames();
    PairNames();
    NameIsPlain("manifest.json");
    NameIsPlain("run.json");
    NameIsPlain("rules.json");
    NameIsPlain("request.json");
    NameIsPlain("oracle.py");
    NameIsPlain("decision.py");
    NameIsPlain("catalog.json");
    NameIsPlain("index.json");
    PairIsPlain("providers", "driver-manifest.json");
    PairIsPlain("evidence", "result.json");
  }

  /** Told apart by length, and two pairs by their first letter. */
  lemma NamesDiffer(w: World, aliased: bool)
    requires w == Example(aliased, w.verifier, w.subject)
    ensures Distinct(Files(w)) && w.index !in Files(w) && Distinct(StepNames(w)) && 0 < |w.chain| <= 256
  {
    assert |w.manifest| == 13 && |w.run| == 8 && |w.evidence| == 20 && |w.driver| == 30 && |w.rules| == 10;
    assert |w.request| == 12 && |w.oracleSource| == 9 && |w.decisionSource| == 11 && |w.catalog| == 12 && |w.index| == 10;
    assert w.request[0] != w.catalog[0] && w.rules[0] != w.index[0];
    assert w.source[0] == 's' && w.native[0] == 'n' && w.oracle[0] == 'o' && w.decision[0] == 'd';
  }

  lemma ExampleIsApt(w: World, aliased: bool)
    requires w == Example(aliased, w.verifier, w.subject)
    ensures Apt(w) && w.contract == if aliased then AliasedDriver(w) else Rules(w)
  {
    NamesArePlain(w, aliased);
    NamesDiffer(w, aliased);
    hide Paths.Plain, Distinct, Plainly, Files, StepNames, Digest;
  }

  lemma OtherPrefix(path: string, prefix: string)
    requires |path| > 0 && |prefix| > 0 && path[0] != prefix[0]
    ensures !HasPrefix(path, prefix)
  {
    if |prefix| <= |path| {
      assert path[..|prefix|][0] == path[0];
    }
  }

  /** The subject files are told by their first letter. */
  lemma NotASubjectFile(path: string, catalog: Catalog)
    requires |path| > 0 && path[0] !in {'s', 'p', 'b', 't'} && catalog != Inside(path)
    ensures !InSubject(path, catalog)
  {
    OtherPrefix(path, "src/openada/");
    OtherPrefix(path, "profiles/");
    OtherPrefix(path, "schemas/");
    OtherPrefix(path, "providers/");
    OtherPrefix(path, "bin/");
    OtherPrefix(path, "bin/openada");
    OtherPrefix(path, "tools/");
    OtherPrefix(path, "tools/semantic_");
    hide HasPrefix, HasSuffix;
  }

  lemma FirstLetters(w: World, aliased: bool)
    requires w == Example(aliased, w.verifier, w.subject)
    ensures forall path :: path in Files(w) && path != w.driver ==> |path| > 0 && path[0] in {'m', 'r', 'e', 'o', 'd', 'c'}
    ensures |w.run| > 0 && w.run[0] == 'r' && w.run != w.catalog && |w.index| > 0 && w.index[0] == 'i' && w.index != w.catalog
  {
    assert w.evidence[0] == 'e';
    assert |w.run| == 8 && |w.index| == 10 && |w.catalog| == 12;
  }

  lemma DirectoryText()
    ensures "providers" + "/" == "providers/"
  {
  }

  lemma NameText()
    ensures "/" + "driver-manifest.json" == "/driver-manifest.json"
  {
  }

  lemma Joined(prefix: string, suffix: string)
    ensures HasPrefix(prefix + suffix, prefix) && HasSuffix(prefix + suffix, suffix)
  {
  }

  lemma DriverIsManifest()
    ensures IsProviderManifest(DRIVER)
  {
    hide HasPrefix, HasSuffix;
    DirectoryText();
    NameText();
    Joined("providers" + "/", "driver-manifest.json");
    Joined("providers", "/" + "driver-manifest.json");
    assert DRIVER == "providers" + ("/" + "driver-manifest.json");
  }

  lemma DriverIs(w: World, aliased: bool)
    requires w == Example(aliased, w.verifier, w.subject)
    ensures w.driver == DRIVER
  {
    hide Digest;
  }

  lemma ExampleIsPlaced(w: World, aliased: bool)
    requires w == Example(aliased, w.verifier, w.subject)
    ensures Placed(w) && w.driver == DRIVER
  {
    hide *;
    DriverIsManifest();
    DriverIs(w, aliased);
    FirstLetters(w, aliased);
    NotASubjectFile(w.run, Inside(w.catalog));
    NotASubjectFile(w.index, Inside(w.catalog));
    forall path | path in Files(w) && IsProviderManifest(path)
      ensures path == w.driver
    {
      if path != w.driver {
        OtherManifest(path);
      }
    }
    PlacedMeans(w);
  }

  lemma PlacedMeans(w: World)
    ensures Placed(w) <==>
            && IsProviderManifest(w.driver)
            && (forall path :: path in Files(w) && IsProviderManifest(path) ==> path == w.driver)
            && !InSubject(w.run, Inside(w.catalog)) && !InSubject(w.index, Inside(w.catalog))
  {
    hide Files, IsProviderManifest, InSubject;
  }

  lemma OtherManifest(path: string)
    requires |path| > 0 && path[0] != 'p'
    ensures !IsProviderManifest(path)
  {
    OtherPrefix(path, "providers/");
    hide HasPrefix, HasSuffix;
  }

  // The three publications.

  ghost function Published(aliased: bool, verifier: map<string, File> -> bool, canonical: Json -> string, sorted: set<string> -> seq<string>): World {
    var subject := SubjectOf(TheCodec(canonical, sorted), Before(Example(aliased, verifier, "")).repo, Inside("catalog.json"));
    Example(aliased, verifier, if subject.Some? then subject.value else "")
  }

  function ClaimRow(w: World): RowSpec {
    RowSpec("claim", Some(ProviderClaim("c", Digest(2), Some(w.driver))), None, None, None, OtherClassification, None)
  }

  ghost function Ends(w: World): Option<Report.Resolution> {
    Outcome(IndexContributions(Done(w), TheContext(w), w.index), ClaimRow(w)).resolution
  }

  lemma SameRepo(aliased: bool, verifier: map<string, File> -> bool, a: string, b: string)
    ensures Repo(Example(aliased, verifier, a)) == Repo(Example(aliased, verifier, b))
  {
    hide RepoOf;
  }

  lemma ItsSubject(w: World, aliased: bool, verifier: map<string, File> -> bool, canonical: Json -> string, sorted: set<string> -> seq<string>)
    requires Canonical(canonical, sorted) && w == Published(aliased, verifier, canonical, sorted)
    ensures w == Example(aliased, w.verifier, w.subject) && w.verifier == verifier
    ensures SubjectOf(TheCodec(canonical, sorted), Before(w).repo, Inside(w.catalog)) == Some(w.subject)
  {
    var first := Example(aliased, verifier, "");
    assert first.catalog == "catalog.json" && w.catalog == "catalog.json" && w.run == first.run;
    SameRepo(aliased, verifier, "", w.subject);
    assert w == Example(aliased, verifier, w.subject);
    hide Example, TheCodec, Canonical, SubjectOf, Repo;
    ExampleIsApt(first, aliased) by {
      FirstIs(aliased, verifier);
    }
    ExampleIsPlaced(first, aliased) by {
      FirstIs(aliased, verifier);
    }
    hide Apt, Placed;
    SubjectIsThere(first, TheCodec(canonical, sorted), canonical, sorted);
    assert Before(first).repo == Before(w).repo by {
      BeforeIs(first);
      BeforeIs(w);
    }
  }

  lemma FirstIs(aliased: bool, verifier: map<string, File> -> bool)
    ensures var w := Example(aliased, verifier, ""); w == Example(aliased, w.verifier, w.subject)
  {
  }

  lemma PublishedEnds(w: World, aliased: bool, verifier: map<string, File> -> bool, canonical: Json -> string, sorted: set<string> -> seq<string>)
    requires Canonical(canonical, sorted) && w == Published(aliased, verifier, canonical, sorted) && verifier(Repo(w))
    ensures Ends(w) == Some(if !aliased && verifier(Done(w).repo) then Resolved else Unresolved)
    ensures Apt(w) && w.driver == DRIVER && w.verifier == verifier
  {
    hide *;
    ItsSubject(w, aliased, verifier, canonical, sorted);
    ClaimRowIs(w);
    ExampleIsApt(w, aliased);
    ExampleIsPlaced(w, aliased);
    AliasLeads(w);
    SameContext(w);
    PublicationEnds(w, canonical, sorted, TheContext(w), ClaimRow(w));
    EndsIs(w);
  }

  lemma ClaimRowIs(w: World)
    ensures ClaimRow(w).claim.Some? && ClaimRow(w).claim.value.conformanceId == "c" && ClaimRow(w).claim.value.digest == Digest(2)
  {
    hide Digest;
  }

  lemma SameContext(w: World)
    ensures AgreeOnRows(TheContext(w), TheContext(w)) && TheContext(w).(subject := w.subject) == TheContext(w)
  {
  }

  lemma EndsIs(w: World)
    ensures Ends(w) == Outcome(IndexContributions(Done(w), TheContext(w), w.index), ClaimRow(w)).resolution
  {
  }

  /**
   * With a contract of its own and a verifier that accepts, publication ends resolved. It does not when the contract is
   * the provider manifest under another spelling, which the cycle check lets pass, nor when the release verifier pins the
   * provider manifest.
   */
  lemma ThreePublications(canonical: Json -> string, sorted: set<string> -> seq<string>)
    requires Canonical(canonical, sorted)
    ensures Ends(Published(false, Always(), canonical, sorted)) == Some(Resolved)
    ensures Ends(Published(true, Always(), canonical, sorted)) == Some(Unresolved)
    ensures Ends(Published(false, Pins(DRIVER), canonical, sorted)) == Some(Unresolved)
  {
    AlwaysAccepts();
    hide *;
    PublishedEnds(Published(false, Always(), canonical, sorted), false, Always(), canonical, sorted);
    PublishedEnds(Published(true, Always(), canonical, sorted), true, Always(), canonical, sorted);
    var pinned := Published(false, Pins(DRIVER), canonical, sorted);
    ItsSubject(pinned, false, Pins(DRIVER), canonical, sorted);
    ExampleIsApt(pinned, false);
    DriverIs(pinned, false);
    AllStored(pinned);
    StoredRef(pinned, DRIVER, 4);
    EnvRepo(pinned);
    FilesAreThere(pinned);
    ContentsAre(4);
    ContentsAre(11);
    LongerIsOther();
    PinsIs(pinned, Repo(pinned));
    PinsIs(pinned, Done(pinned).repo);
    PublishedEnds(pinned, false, Pins(DRIVER), canonical, sorted);
  }

  lemma AlwaysAccepts()
    ensures forall repo :: Always()(repo)
  {
  }
}
