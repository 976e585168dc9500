/** The report itself and the meaning of a passing one. */
module Gate {
  import opened Prelude
  import opened Json
  import opened Chain
  import opened Issues
  import opened Repository
  import opened StepDag
  import opened Ladder
  import opened Inventory
  import opened PositiveCoverage
  import opened Loader
  import opened Coverage
  import opened Report
  import opened NoBorrowing
  import opened RowMeaning
  import opened Subject

  // The context that the rows give the loader.

  function RowsById(specs: seq<RowSpec>): map<string, RowSpec> {
    if specs == [] then map[] else RowsById(specs[..|specs| - 1])[specs[|specs| - 1].rowId := specs[|specs| - 1]]
  }

  function ProviderManifests(specs: seq<RowSpec>): map<string, string> {
    if specs == [] then map[]
    else
      var before, last := ProviderManifests(specs[..|specs| - 1]), specs[|specs| - 1].claim;
      if last.Some? && last.value.manifestPath.Some?
      then before[last.value.conformanceId := last.value.manifestPath.value]
      else before
  }

  function ContextOf(specs: seq<RowSpec>, subject: string, release: bool): Context {
    var known := set s | s in specs && s.claim.Some? :: s.claim.value.conformanceId;
    Context(RowsById(specs), known, ProviderManifests(specs), subject, release)
  }

  function RowIds(specs: seq<RowSpec>): (ids: seq<string>)
    ensures |ids| == |specs| && forall k :: 0 <= k < |specs| ==> ids[k] == specs[k].rowId
  {
    seq(|specs|, k requires 0 <= k < |specs| => specs[k].rowId)
  }

  lemma {:induction false} RowsAreFound(specs: seq<RowSpec>, k: nat)
    requires k < |specs| && Distinct(RowIds(specs))
    ensures specs[k].rowId in RowsById(specs) && RowsById(specs)[specs[k].rowId] == specs[k]
    decreases |specs|
  {
    var n := |specs| - 1;
    if k < n {
      assert forall i :: 0 <= i < n ==> RowIds(specs[..n])[i] == RowIds(specs)[i];
      RowsAreFound(specs[..n], k);
      assert RowIds(specs)[k] != RowIds(specs)[n];
    }
  }

  // The verdict.

  /** NoReport: an uncaught exception ends the gate. */
  datatype Verdict = Invalid | Gaps | Pass | NoReport

  predicate Active(spec: RowSpec) {
    spec.required.Some?
  }

  ghost predicate ReportClean(env: Env, specs: seq<RowSpec>, inventory: seq<Issue>, path: string, subject: string, release: bool) {
    && inventory == []
    && Distinct(RowIds(specs))
    && IndexSound(env, ContextOf(specs, subject, release), path)
    && (release ==> exists spec :: spec in specs && Active(spec))
  }

  function GapIds(cs: Contributions, specs: seq<RowSpec>): seq<string> {
    if specs == [] then []
    else
      var last := specs[|specs| - 1];
      GapIds(cs, specs[..|specs| - 1]) + if Outcome(cs, last).gap then [last.rowId] else []
  }

  lemma {:induction false} NoGaps(cs: Contributions, specs: seq<RowSpec>)
    ensures GapIds(cs, specs) == [] <==> forall spec :: spec in specs ==> !Outcome(cs, spec).gap
  {
    if specs != [] {
      var n := |specs| - 1;
      NoGaps(cs, specs[..n]);
      assert specs == specs[..n] + [specs[n]];
    }
  }

  method FreshRows(specs: seq<RowSpec>) returns (rows: seq<Row>)
    ensures |rows| == |specs| && Distinct(rows)
    ensures forall k :: 0 <= k < |rows| ==> fresh(rows[k]) && rows[k].spec == specs[k] && rows[k].View() == FRESH
  {
    rows := [];
    for n := 0 to |specs|
      invariant |rows| == n && Distinct(rows)
      invariant forall k :: 0 <= k < n ==> fresh(rows[k]) && rows[k].spec == specs[k] && rows[k].View() == FRESH
    {
      var row := new Row(specs[n]);
      rows := rows + [row];
    }
  }

  method CoverRows(specs: seq<RowSpec>, evidence: map<string, seq<RowEvidence>>, registry: map<string, Registration>, ghost cs: Contributions)
    returns (rows: seq<Row>)
    requires forall rowId :: Found(evidence, rowId) == RowEvidences(cs, rowId)
    requires forall id :: Lookup(registry, id) == Registered(cs, id)
    ensures |rows| == |specs|
    ensures forall k :: 0 <= k < |rows| ==> fresh(rows[k]) && rows[k].spec == specs[k] && rows[k].View() == Outcome(cs, specs[k])
  {
    rows := FreshRows(specs);
    ApplyCoverage(rows, evidence);
    ResolveProviderConformanceClaims(rows, registry);
  }

  /** The rows as the report prints them. */
  method PrintRows(rows: seq<Row>) returns (printed: seq<RowState>)
    ensures |printed| == |rows| && forall k :: 0 <= k < |rows| ==> printed[k] == rows[k].View()
  {
    printed := [];
    for n := 0 to |rows|
      invariant |printed| == n && forall k :: 0 <= k < n ==> printed[k] == rows[k].View()
    {
      printed := printed + [rows[n].View()];
    }
  }

  method CollectGaps(rows: seq<Row>, specs: seq<RowSpec>, ghost cs: Contributions) returns (gaps: seq<string>)
    requires |rows| == |specs|
    requires forall k :: 0 <= k < |rows| ==> rows[k].spec == specs[k] && rows[k].View() == Outcome(cs, specs[k])
    ensures gaps == GapIds(cs, specs)
  {
    gaps := [];
    for n := 0 to |rows|
      invariant gaps == GapIds(cs, specs[..n])
    {
      assert specs[..n + 1][..n] == specs[..n];
      assert rows[n].View().gap == Outcome(cs, specs[n]).gap;
      if rows[n].gap {
        gaps := gaps + [rows[n].spec.rowId];
      }
    }
    assert specs[..|specs|] == specs;
  }

  ghost predicate RowsReported(cs: Contributions, specs: seq<RowSpec>, rows: seq<RowState>, gaps: seq<string>) {
    && |rows| == |specs|
    && (forall k :: 0 <= k < |rows| ==> rows[k] == Outcome(cs, specs[k]))
    && gaps == GapIds(cs, specs)
  }

  lemma RowsAreReported(cs: Contributions, specs: seq<RowSpec>, rows: seq<RowState>, gaps: seq<string>)
    requires |rows| == |specs| && gaps == GapIds(cs, specs)
    requires forall k :: 0 <= k < |rows| ==> rows[k] == Outcome(cs, specs[k])
    ensures RowsReported(cs, specs, rows, gaps)
  {
    hide Outcome, GapIds;
  }

  lemma ReportIs(env: Env, specs: seq<RowSpec>, inventory: seq<Issue>, path: string, subject: string, release: bool)
    ensures ReportClean(env, specs, inventory, path, subject, release) <==>
            && inventory == [] && Distinct(RowIds(specs)) && IndexSound(env, ContextOf(specs, subject, release), path)
            && (release ==> exists spec :: spec in specs && Active(spec))
    ensures Passes(env, specs, inventory, path, subject, release) <==>
            && ReportClean(env, specs, inventory, path, subject, release)
            && GapIds(IndexContributions(env, ContextOf(specs, subject, release), path), specs) == []
    ensures forall cs, rows, gaps :: RowsReported(cs, specs, rows, gaps) ==> gaps == GapIds(cs, specs)
  {
    hide IndexSound, IndexContributions, GapIds, Outcome, Distinct, RowIds, Active;
  }

  /** `inventory`: the issues found while the rows were derived; `subject`: the current semantic subject. */
  method ReportOn(env: Env, specs: seq<RowSpec>, inventory: seq<Issue>, path: string, subject: string, release: bool)
    returns (verdict: Verdict, rows: seq<RowState>, gaps: seq<string>, issues: seq<Issue>)
    ensures verdict.NoReport? <==> IndexRaises(env, ContextOf(specs, subject, release), path)
    ensures !verdict.NoReport? ==> (issues == [] <==> ReportClean(env, specs, inventory, path, subject, release))
    ensures !verdict.NoReport? ==> verdict == if issues != [] then Invalid else if gaps != [] then Gaps else Pass
    ensures !verdict.NoReport? ==> RowsReported(IndexContributions(env, ContextOf(specs, subject, release), path), specs, rows, gaps)
    ensures verdict.Pass? <==> Passes(env, specs, inventory, path, subject, release)
  {
    hide *;
    ReportIs(env, specs, inventory, path, subject, release);
    var ids := RowIds(specs);
    NoDuplicatesIffDistinct(ids);
    var repeated := Each(RowRepeated, Duplicates(ids));
    var ctx := ContextOf(specs, subject, release);
    if IndexSound(env, ctx, path) {
      SoundIndexDoesNotRaise(env, ctx, path);
    }
    var found, evidence, registry, raised := LoadCoverageRecords(env, ctx, path);
    if raised {
      return NoReport, [], [], [];
    }
    issues := inventory + repeated + found;
    ghost var cs := IndexContributions(env, ctx, path);
    var covered := CoverRows(specs, evidence, registry, cs);
    gaps := CollectGaps(covered, specs, cs);
    rows := PrintRows(covered);
    RowsAreReported(cs, specs, rows, gaps);
    if release && !(exists spec :: spec in specs && Active(spec)) {
      issues := issues + [Issue(NoObligations, path)];
    }
    verdict := if issues != [] then Invalid else if gaps != [] then Gaps else Pass;
  }

  /** What the catalog gives, unless deriving it raises: the rows, and the issues found on the way. */
  datatype Derived = Derived(specs: seq<RowSpec>, inventory: seq<Issue>)

  /**
   * An unreadable catalog makes the report invalid before any row exists. After that the gate ends without a report when
   * deriving the rows raises, when a provider manifest of the current subject cannot be hashed, or when the index raises.
   */
  method BuildReport(env: Env, codec: Codec, catalog: Catalog, derive: Json -> Option<Derived>, path: string, release: bool)
    returns (verdict: Verdict, rows: seq<RowState>, gaps: seq<string>, issues: seq<Issue>)
    ensures verdict.NoReport? <==> EndsWithoutReport(env, codec, catalog, derive, path, release)
    ensures Document(env, catalog.path).None? ==> verdict == Invalid && rows == [] && gaps == [] && issues != []
    ensures Document(env, catalog.path).Some? && !verdict.NoReport? ==>
              var d, subject := derive(Document(env, catalog.path).value).value, SubjectOf(codec, env.repo, catalog).value;
              && (issues == [] <==> ReportClean(env, d.specs, d.inventory, path, subject, release))
              && verdict == (if issues != [] then Invalid else if gaps != [] then Gaps else Pass)
              && RowsReported(IndexContributions(env, ContextOf(d.specs, subject, release), path), d.specs, rows, gaps)
              && (verdict.Pass? <==> Passes(env, d.specs, d.inventory, path, subject, release))
  {
    hide Document, SubjectOf, IndexRaises, ReportClean, RowsReported, Passes, IndexContributions, ContextOf;
    var json := LoadJson(env, catalog.path);
    if json.None? {
      return Invalid, [], [], [Issue(CatalogUnreadable, catalog.path)];
    }
    var derived := derive(json.value);
    if derived.None? {
      return NoReport, [], [], [];
    }
    var subject := SemanticSubject(codec, env.repo, catalog);
    if subject.None? {
      return NoReport, [], [], [];
    }
    verdict, rows, gaps, issues := ReportOn(env, derived.value.specs, derived.value.inventory, path, subject.value, release);
  }

  ghost predicate EndsWithoutReport(env: Env, codec: Codec, catalog: Catalog, derive: Json -> Option<Derived>, path: string, release: bool) {
    && Document(env, catalog.path).Some?
    && var derived, subject := derive(Document(env, catalog.path).value), SubjectOf(codec, env.repo, catalog);
       derived.None? || subject.None? || IndexRaises(env, ContextOf(derived.value.specs, subject.value, release), path)
  }

  // Soundness.

  ghost predicate Passes(env: Env, specs: seq<RowSpec>, inventory: seq<Issue>, path: string, subject: string, release: bool) {
    && ReportClean(env, specs, inventory, path, subject, release)
    && GapIds(IndexContributions(env, ContextOf(specs, subject, release), path), specs) == []
  }

  /** The run file whose digest a record registers is in the repository and holds the run. */
  ghost predicate RunOnFile(env: Env, c: Contribution) {
    exists path :: Readable(env, path) && env.sha256(env.repo[path].bytes) == c.runSha256 &&
      Document(env, path).Some? && env.run(Document(env, path).value) == Some(c.run)
  }

  ghost predicate ManifestOnFile(env: Env, c: Contribution) {
    exists path :: Readable(env, path) && env.sha256(env.repo[path].bytes) == c.run.manifestSha256 &&
      Document(env, path).Some? && env.manifest(Document(env, path).value) == Some(c.manifest)
  }

  /** One complete chain of evidence. */
  ghost predicate SoundChain(env: Env, ctx: Context, c: Contribution) {
    && RunOnFile(env, c) && ManifestOnFile(env, c)
    && c.run.subject == ctx.subject && AttestationSound(env, ctx, c.run.attestation, c.run)
    && InventorySound(env, c.run, c.manifest)
    && AgentEvidenceSound(env, c.manifest, c.run)
    && WellOrdered(c.manifest.steps) && OracleConsumesNative(c.manifest.steps)
    && StepInventory(c.manifest.steps, c.manifest.resultStep)
    && PositivelyCovered(c.manifest, ctx.rows)
    && (forall contract :: contract in c.manifest.contracts ==> RefValid(env, contract))
    && env.provenance(env.repo, c.manifest, c.run).Accepts? && env.releaseVerifier(env.repo, c.manifest, c.run, ctx.release).Accepts?
  }

  lemma AdmittedIsSound(env: Env, ctx: Context, record: Json)
    requires Contributed(env, ctx, record).Some?
    ensures SoundChain(env, ctx, Contributed(env, ctx, record).value)
  {
    var c := Contributed(env, ctx, record).value;
    var refs := Refs(RefOf(record.fields["manifest"]), RefOf(record.fields["run"]));
    assert FilesLoaded(env, ctx, ConformanceIds(record), refs) && ChainSound(env, ctx, c.manifest, c.run)
           && ManifestAt(env, refs) == Some(c.manifest) && RunAt(env, refs) == Some(c.run) && c.runSha256 == refs.run.value.sha256 by {
      hide FilesLoaded, ChainSound, ShapeSound, ManifestAt, RunAt;
    }
    hide *;
    FilesAreSound(env, ctx, ConformanceIds(record), refs, c);
    ChainIsSound(env, ctx, c);
    SoundChainIs(env, ctx, c);
  }

  lemma FilesAreSound(env: Env, ctx: Context, ids: seq<string>, refs: Refs, c: Contribution)
    requires FilesLoaded(env, ctx, ids, refs)
    requires ManifestAt(env, refs) == Some(c.manifest) && RunAt(env, refs) == Some(c.run) && c.runSha256 == refs.run.value.sha256
    ensures RunOnFile(env, c) && ManifestOnFile(env, c)
    ensures c.run.subject == ctx.subject && AttestationSound(env, ctx, c.run.attestation, c.run)
    ensures InventorySound(env, c.run, c.manifest)
  {
    hide InventorySound, AttestationSound, InClaimCycle, Document;
    assert Readable(env, env.resolve(refs.run.value.path).path);
    assert Readable(env, env.resolve(refs.manifest.value.path).path);
  }

  lemma ChainIsSound(env: Env, ctx: Context, c: Contribution)
    requires ChainSound(env, ctx, c.manifest, c.run)
    ensures AgentEvidenceSound(env, c.manifest, c.run)
    ensures WellOrdered(c.manifest.steps) && OracleConsumesNative(c.manifest.steps)
    ensures StepInventory(c.manifest.steps, c.manifest.resultStep) && PositivelyCovered(c.manifest, ctx.rows)
    ensures forall contract :: contract in c.manifest.contracts ==> RefValid(env, contract)
    ensures env.provenance(env.repo, c.manifest, c.run).Accepts? && env.releaseVerifier(env.repo, c.manifest, c.run, ctx.release).Accepts?
  {
    hide AgentEvidenceSound, PositivelyCovered, RefValid, RolesOrdered, RolesDefinedOnce, OracleConsumesNative, StepRefsValid, ReplayCoversDeclared;
    assert StructureSound(env, ctx, c.manifest);
    assert StepsSound(env, c.manifest.steps) && StepInventory(c.manifest.steps, c.manifest.resultStep);
  }

  lemma SoundChainIs(env: Env, ctx: Context, c: Contribution)
    ensures SoundChain(env, ctx, c) <==>
            && RunOnFile(env, c) && ManifestOnFile(env, c)
            && c.run.subject == ctx.subject && AttestationSound(env, ctx, c.run.attestation, c.run)
            && InventorySound(env, c.run, c.manifest)
            && AgentEvidenceSound(env, c.manifest, c.run)
            && WellOrdered(c.manifest.steps) && OracleConsumesNative(c.manifest.steps)
            && StepInventory(c.manifest.steps, c.manifest.resultStep)
            && PositivelyCovered(c.manifest, ctx.rows)
            && (forall contract :: contract in c.manifest.contracts ==> RefValid(env, contract))
            && env.provenance(env.repo, c.manifest, c.run).Accepts? && env.releaseVerifier(env.repo, c.manifest, c.run, ctx.release).Accepts?
  {
    hide RunOnFile, ManifestOnFile, AttestationSound, InventorySound, AgentEvidenceSound, WellOrdered, OracleConsumesNative,
      StepInventory, PositivelyCovered, RefValid;
  }

  lemma ContributionsAreSound(env: Env, ctx: Context, path: string, k: nat)
    requires k < |IndexContributions(env, ctx, path)| && IndexContributions(env, ctx, path)[k].Some?
    ensures SoundChain(env, ctx, IndexContributions(env, ctx, path)[k].value)
  {
    AdmittedIsSound(env, ctx, IndexRecords(env, path).value[k]);
  }

  /** Record k alone carries the row: it covers it, supports the level, and has the evidence path. */
  ghost predicate Carries(env: Env, ctx: Context, c: Contribution, spec: RowSpec, level: Level) {
    && SoundChain(env, ctx, c)
    && spec.rowId in c.manifest.covers
    && Supports(RecordEvidence(c.manifest, c.run, spec.rowId), level)
    && HasEvidencePath(c.manifest, spec, spec.rowId)
  }

  lemma OutcomeGapFree(cs: Contributions, spec: RowSpec, level: Level) returns (k: nat)
    requires spec.required == Some(level) && !level.Unverified? && !Outcome(cs, spec).gap
    ensures k < |cs| && cs[k].Some? && spec.rowId in cs[k].value.manifest.covers
    ensures Supports(RecordEvidence(cs[k].value.manifest, cs[k].value.run, spec.rowId), level)
  {
    var entries := RowEvidences(cs, spec.rowId);
    LoadedEntriesAreLevelled(cs, spec.rowId);
    assert !Applied(FRESH, spec.required, entries).gap;
    GapFreeMeansOneRecordSuffices(entries, level);
    var i :| 0 <= i < |entries| && Supports(entries[i].evidence, level);
    k := EvidenceHasRecord(cs, spec.rowId, entries[i]);
  }

  /** A passing report: every row with a required level rests on one complete, well-founded chain. */
  lemma PassingReportIsSound(env: Env, specs: seq<RowSpec>, inventory: seq<Issue>, path: string, subject: string, release: bool, spec: RowSpec, level: Level)
    returns (k: nat)
    requires Passes(env, specs, inventory, path, subject, release)
    requires spec in specs && spec.required == Some(level) && !level.Unverified?
    ensures var ctx := ContextOf(specs, subject, release);
            var cs := IndexContributions(env, ctx, path);
            k < |cs| && cs[k].Some? && Carries(env, ctx, cs[k].value, spec, level)
  {
    var ctx := ContextOf(specs, subject, release);
    var cs := IndexContributions(env, ctx, path);
    NoGaps(cs, specs);
    k := OutcomeGapFree(cs, spec, level);
    ContributionsAreSound(env, ctx, path, k);
    var at :| 0 <= at < |specs| && specs[at] == spec;
    RowsAreFound(specs, at);
    BoundRowHasEvidencePath(cs[k].value.manifest, ctx.rows, spec.rowId);
  }

  lemma GapFreeClaimIsResolved(cs: Contributions, spec: RowSpec)
    requires spec.required.Some? && spec.claim.Some? && !Outcome(cs, spec).gap
    ensures Outcome(cs, spec).resolution == Some(Resolved) && !IsPlaceholder(spec.claim.value.digest)
    ensures var registered := Registered(cs, spec.claim.value.conformanceId);
            registered.Some? && registered.value.sha256 == spec.claim.value.digest
  {
  }

  /** In a passing report every active provider claim names the digest of an admitted run on file. */
  lemma PassingClaimsAreResolved(env: Env, specs: seq<RowSpec>, inventory: seq<Issue>, path: string, subject: string, release: bool, spec: RowSpec)
    returns (k: nat)
    requires Passes(env, specs, inventory, path, subject, release)
    requires spec in specs && spec.required.Some? && spec.claim.Some?
    ensures var ctx := ContextOf(specs, subject, release);
            var cs := IndexContributions(env, ctx, path);
            && k < |cs| && cs[k].Some? && SoundChain(env, ctx, cs[k].value)
            && spec.claim.value.conformanceId in cs[k].value.conformanceIds
            && spec.claim.value.digest == cs[k].value.runSha256
            && !IsPlaceholder(spec.claim.value.digest)
            && Outcome(cs, spec).resolution == Some(Resolved)
  {
    var ctx := ContextOf(specs, subject, release);
    var cs := IndexContributions(env, ctx, path);
    NoGaps(cs, specs);
    GapFreeClaimIsResolved(cs, spec);
    k := RegistrationHasRecord(cs, spec.claim.value.conformanceId);
    ContributionsAreSound(env, ctx, path, k);
  }

  /** A claim never promotes a row: resolving claims leaves the level and the covering records alone. */
  lemma ClaimsNeverPromote(cs: Contributions, spec: RowSpec)
    ensures var applied := Applied(FRESH, spec.required, RowEvidences(cs, spec.rowId));
            Outcome(cs, spec).level == applied.level && Outcome(cs, spec).recordIds == applied.recordIds
            && (applied.gap ==> Outcome(cs, spec).gap)
  {
  }

  /** The verdict is `pass` exactly when no issue was found while the rows were derived, no two rows share an id, the index
      is sound, a release has an active row, and every required row is met. */
  lemma PassExactly(env: Env, specs: seq<RowSpec>, inventory: seq<Issue>, path: string, subject: string, release: bool)
    ensures Passes(env, specs, inventory, path, subject, release) <==>
            && inventory == []
            && (forall i, j :: 0 <= i < j < |specs| ==> specs[i].rowId != specs[j].rowId)
            && IndexSound(env, ContextOf(specs, subject, release), path)
            && (release ==> exists spec :: spec in specs && spec.required.Some?)
            && forall spec :: spec in specs ==> RowMet(IndexContributions(env, ContextOf(specs, subject, release), path), spec)
  {
    var cs := IndexContributions(env, ContextOf(specs, subject, release), path);
    ReportIs(env, specs, inventory, path, subject, release);
    hide ReportClean, Passes, Outcome, RowMet, IndexContributions, IndexSound, GapIds;
    NoGaps(cs, specs);
    forall spec | spec in specs
      ensures !Outcome(cs, spec).gap <==> RowMet(cs, spec)
    {
      RowGapExactly(cs, spec);
    }
  }

  // What the loader is told of the rows, and what the report lists.

  ghost predicate NamesManifest(specs: seq<RowSpec>, k: int, id: string) {
    0 <= k < |specs| && specs[k].claim.Some? && specs[k].claim.value.conformanceId == id && specs[k].claim.value.manifestPath.Some?
  }

  /** The loader knows the ids of the claim rows, and for each the provider manifest of the last such row that names one. */
  lemma {:induction false} ManifestsAreLast(specs: seq<RowSpec>, id: string)
    ensures id in ProviderManifests(specs) <==> exists k :: NamesManifest(specs, k, id)
    ensures forall k :: NamesManifest(specs, k, id) && (forall j :: k < j ==> !NamesManifest(specs, j, id)) ==>
              id in ProviderManifests(specs) && ProviderManifests(specs)[id] == specs[k].claim.value.manifestPath.value
  {
    if specs != [] {
      var front := specs[..|specs| - 1];
      ManifestsAreLast(front, id);
      assert forall k :: k < |front| ==> (NamesManifest(specs, k, id) <==> NamesManifest(front, k, id));
      assert forall k :: NamesManifest(front, k, id) ==> k < |front|;
      assert forall k :: NamesManifest(specs, k, id) ==> k <= |front|;
      ManifestsNext(specs, front, id);
      hide NamesManifest, ProviderManifests;
    }
  }

  lemma ManifestsNext(specs: seq<RowSpec>, front: seq<RowSpec>, id: string)
    requires specs != [] && front == specs[..|specs| - 1]
    ensures NamesManifest(specs, |front|, id) ==>
              id in ProviderManifests(specs) && ProviderManifests(specs)[id] == specs[|front|].claim.value.manifestPath.value
    ensures !NamesManifest(specs, |front|, id) ==>
              (id in ProviderManifests(specs) <==> id in ProviderManifests(front)) &&
              (id in ProviderManifests(specs) ==> ProviderManifests(specs)[id] == ProviderManifests(front)[id])
  {
  }

  lemma ContextMeans(specs: seq<RowSpec>, subject: string, release: bool)
    requires forall i, j :: 0 <= i < j < |specs| ==> specs[i].rowId != specs[j].rowId
    ensures var ctx := ContextOf(specs, subject, release);
            && ctx.subject == subject && ctx.release == release
            && (forall spec :: spec in specs ==> spec.rowId in ctx.rows && ctx.rows[spec.rowId] == spec)
            && (forall rowId :: rowId in ctx.rows ==> exists spec :: spec in specs && spec.rowId == rowId)
            && (forall id :: id in ctx.knownConformance <==> exists spec :: spec in specs && spec.claim.Some? && spec.claim.value.conformanceId == id)
            && (forall k, id :: NamesManifest(specs, k, id) && (forall j :: k < j ==> !NamesManifest(specs, j, id)) ==>
                  id in ctx.providerManifests && ctx.providerManifests[id] == specs[k].claim.value.manifestPath.value)
  {
    var ctx := ContextOf(specs, subject, release);
    forall spec | spec in specs
      ensures spec.rowId in ctx.rows && ctx.rows[spec.rowId] == spec
    {
      var k :| 0 <= k < |specs| && specs[k] == spec;
      RowsAreFound(specs, k);
    }
    OnlyRows(specs);
    forall id
      ensures forall k :: NamesManifest(specs, k, id) && (forall j :: k < j ==> !NamesManifest(specs, j, id)) ==>
                id in ctx.providerManifests && ctx.providerManifests[id] == specs[k].claim.value.manifestPath.value
    {
      ManifestsAreLast(specs, id);
    }
    hide NamesManifest, ProviderManifests, RowsById;
  }

  lemma {:induction false} OnlyRows(specs: seq<RowSpec>)
    ensures forall rowId :: rowId in RowsById(specs) ==> exists spec :: spec in specs && spec.rowId == rowId
  {
    if specs != [] {
      OnlyRows(specs[..|specs| - 1]);
      assert specs[|specs| - 1] in specs;
    }
  }

  ghost predicate InOrderOf(gaps: seq<string>, specs: seq<RowSpec>, at: seq<nat>) {
    && |at| == |gaps|
    && (forall n :: 0 <= n < |at| ==> at[n] < |specs| && specs[at[n]].rowId == gaps[n])
    && (forall m, n :: 0 <= m < n < |at| ==> at[m] < at[n])
  }

  /** The gaps are the ids of the rows with a gap, in the order of the rows. */
  lemma {:induction false} GapsAreRows(cs: Contributions, specs: seq<RowSpec>) returns (at: seq<nat>)
    ensures InOrderOf(GapIds(cs, specs), specs, at)
    ensures forall k :: 0 <= k < |specs| ==> (Outcome(cs, specs[k]).gap <==> k in at)
  {
    hide Outcome;
    at := [];
    if specs != [] {
      var n := |specs| - 1;
      at := GapsAreRows(cs, specs[..n]);
      if Outcome(cs, specs[n]).gap {
        at := at + [n];
      }
    }
  }

  /** The file that backs a check in a run. */
  ghost function FileOf(run: Run, e: Evidence): string {
    if Backed(run.artifacts, e) then FilePath(run.artifacts[Holder(run.artifacts, e)]) else ""
  }

  ghost function Holder(artifacts: seq<Artifact>, e: Evidence): (k: nat)
    requires Backed(artifacts, e)
    ensures HasRole(artifacts, k, Trust(e))
  {
    var k :| HasRole(artifacts, k, Trust(e));
    k
  }

  /** An agent-ready row of a passing report has all nine checks, each backed by its own file with its own bytes. */
  lemma AgentReadyRowHasNineFiles(env: Env, specs: seq<RowSpec>, inventory: seq<Issue>, path: string, subject: string, release: bool, spec: RowSpec)
    returns (k: nat)
    requires Passes(env, specs, inventory, path, subject, release)
    requires spec in specs && spec.required == Some(AgentReady)
    ensures var ctx := ContextOf(specs, subject, release);
            var cs := IndexContributions(env, ctx, path);
            k < |cs| && cs[k].Some? && Carries(env, ctx, cs[k].value, spec, AgentReady)
            && var run := cs[k].value.run;
               && (forall e: Evidence :: FileOf(run, e) in env.repo)
               && (forall e: Evidence, f: Evidence :: e != f ==>
                     FileOf(run, e) != FileOf(run, f) &&
                     env.repo[FileOf(run, e)].bytes != env.repo[FileOf(run, f)].bytes)
  {
    k := PassingReportIsSound(env, specs, inventory, path, subject, release, spec, AgentReady);
    var c := IndexContributions(env, ContextOf(specs, subject, release), path)[k].value;
    forall e: Evidence
      ensures FileOf(c.run, e) in env.repo && Backed(c.run.artifacts, e)
    {
      CheckHasFile(env, c.run, c.manifest, spec.rowId, e);
    }
    forall e: Evidence, f: Evidence | e != f
      ensures FileOf(c.run, e) != FileOf(c.run, f)
      ensures env.repo[FileOf(c.run, e)].bytes != env.repo[FileOf(c.run, f)].bytes
    {
      ChecksDoNotShareFiles(env, c.run, c.manifest, e, f, Holder(c.run.artifacts, e), Holder(c.run.artifacts, f));
    }
  }

  lemma CheckHasFile(env: Env, run: Run, manifest: Manifest, rowId: string, e: Evidence)
    requires InventorySound(env, run, manifest) && Supports(RecordEvidence(manifest, run, rowId), AgentReady)
    ensures Backed(run.artifacts, e) && FileOf(run, e) in env.repo
  {
    AgentReadyNeedsAll(RecordEvidence(manifest, run, rowId), e);
    assert e in run.checks && Backed(run.artifacts, e);
    assert ContentValid(env, run.artifacts[Holder(run.artifacts, e)]);
  }
}
