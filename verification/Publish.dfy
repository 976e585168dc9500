/** Building the release index, and why publishing a claim does not stale the run it claims. */
module Publish {
  import opened Prelude
  import opened Json
  import opened Chain
  import opened Repository
  import opened Loader
  import opened Coverage
  import DepthScan

  datatype Publication = Publication(manifest: string, run: string, conformanceIds: seq<string>)

  datatype Refusal =
    | Unreadable(path: string)
    | NoChainId(path: string)
    | ChainRepeated(id: string)
    | OtherChain(path: string)
    | OtherManifestBytes(path: string)
    | StaleSubject(path: string)
    | NotPassing(path: string)
    | NoAttestation(path: string)
    | AttestationField(path: string, key: string)
    | ClaimTwice(id: string)

  function Field(json: Json, key: string): Option<Json> {
    if HasField(json, key) then Some(json.fields[key]) else None
  }

  /** The publisher's own loader: any nonempty regular file. */
  function Loadable(env: Env, path: string): Option<Json> {
    if path !in env.repo || !env.repo[path].kind.Regular? || env.repo[path].bytes == [] then None
    else
      var text := env.utf8(env.repo[path].bytes);
      if text.None? || !DepthScan.Within(DepthScan.START, text.value, MAX_JSON_DEPTH) then None
      else
        var json := env.parse(text.value);
        if json.Some? && json.value.Obj? then json else None
  }

  // What may be published.

  predicate NamesChain(manifest: Json) {
    var id := Field(manifest, "id");
    id.Some? && id.value.Str? && id.value.text != ""
  }

  function ChainId(manifest: Json): string
    requires NamesChain(manifest)
  {
    Field(manifest, "id").value.text
  }

  const ATTESTATION_KEYS: seq<string> :=
    ["receipt_class", "semantic_subject_sha256", "clean_before", "clean_after", "state_unchanged"]

  /** Python's ==, against a text or True: the number one equals True. */
  predicate Equals(env: Env, actual: Option<Json>, expected: Json) {
    actual == Some(expected) || (expected == Bool(true) && actual.Some? && actual.value.Num? && env.isOne(actual.value.spelling))
  }

  function ExpectedAttestation(k: nat, subject: string): Json {
    if k == 0 then Str("release") else if k == 1 then Str(subject) else Bool(true)
  }

  predicate ReleaseAttestation(env: Env, run: Json, subject: string) {
    var source := Field(run, "source_attestation");
    source.Some? && source.value.Obj? &&
    forall k :: 0 <= k < |ATTESTATION_KEYS| ==> Equals(env, Field(source.value, ATTESTATION_KEYS[k]), ExpectedAttestation(k, subject))
  }

  /** One publication, apart from clashes with earlier ones. */
  predicate Publishable(env: Env, subject: string, p: Publication) {
    var manifest, run := Loadable(env, p.manifest), Loadable(env, p.run);
    && manifest.Some? && run.Some?
    && NamesChain(manifest.value)
    && Field(run.value, "chain_id") == Some(Str(ChainId(manifest.value)))
    && Field(run.value, "chain_manifest_sha256") == Some(Str(env.sha256(env.repo[p.manifest].bytes)))
    && Field(run.value, "semantic_subject_sha256") == Some(Str(subject))
    && Field(run.value, "status") == Some(Str("pass"))
    && ReleaseAttestation(env, run.value, subject)
  }

  function PublishedId(env: Env, p: Publication): string {
    var manifest := Loadable(env, p.manifest);
    if manifest.Some? && NamesChain(manifest.value) then ChainId(manifest.value) else ""
  }

  function Flatten(publications: seq<Publication>): seq<string> {
    if publications == [] then []
    else Flatten(publications[..|publications| - 1]) + publications[|publications| - 1].conformanceIds
  }

  ghost predicate AllPublishable(env: Env, subject: string, publications: seq<Publication>) {
    && (forall k :: 0 <= k < |publications| ==> Publishable(env, subject, publications[k]))
    && Distinct(PublishedIds(env, publications))
    && Distinct(Flatten(publications))
  }

  function PublishedIds(env: Env, publications: seq<Publication>): (ids: seq<string>)
    ensures |ids| == |publications| && forall k :: 0 <= k < |ids| ==> ids[k] == PublishedId(env, publications[k])
  {
    seq(|publications|, k requires 0 <= k < |publications| => PublishedId(env, publications[k]))
  }

  function Texts(ids: seq<string>): (items: seq<Json>)
    ensures |items| == |ids| && forall k :: 0 <= k < |items| ==> items[k] == Str(ids[k])
  {
    seq(|ids|, k requires 0 <= k < |ids| => Str(ids[k]))
  }

  function RefJson(env: Env, path: string): Json {
    Obj(map["repository_path" := Str(path),
            "sha256" := Str(if path in env.repo then env.sha256(env.repo[path].bytes) else ""),
            "extensions" := Obj(map[])])
  }

  function RecordJson(env: Env, p: Publication): Json {
    Obj(map["id" := Str(PublishedId(env, p)),
            "conformance_record_ids" := Arr(Texts(p.conformanceIds)),
            "manifest" := RefJson(env, p.manifest),
            "run" := RefJson(env, p.run),
            "extensions" := Obj(map[])])
  }

  function RecordJsons(env: Env, publications: seq<Publication>): (records: seq<Json>)
    ensures |records| == |publications| && forall k :: 0 <= k < |records| ==> records[k] == RecordJson(env, publications[k])
  {
    seq(|publications|, k requires 0 <= k < |publications| => RecordJson(env, publications[k]))
  }

  function IndexJson(records: seq<Json>): Json {
    Obj(map["schema" := Str(INDEX_SCHEMA), "records" := Arr(records), "extensions" := Obj(map[])])
  }

  method CheckPublication(env: Env, subject: string, p: Publication, chainIds: set<string>) returns (id: Result<string, Refusal>)
    ensures id.Ok? <==> Publishable(env, subject, p) && PublishedId(env, p) !in chainIds
    ensures id.Ok? ==> id.value == PublishedId(env, p)
  {
    var manifest, run := Loadable(env, p.manifest), Loadable(env, p.run);
    if manifest.None? {
      return Err(Unreadable(p.manifest));
    }
    if run.None? {
      return Err(Unreadable(p.run));
    }
    if !NamesChain(manifest.value) {
      return Err(NoChainId(p.manifest));
    }
    if ChainId(manifest.value) in chainIds {
      return Err(ChainRepeated(ChainId(manifest.value)));
    }
    if Field(run.value, "chain_id") != Some(Str(ChainId(manifest.value))) {
      return Err(OtherChain(p.run));
    }
    if Field(run.value, "chain_manifest_sha256") != Some(Str(env.sha256(env.repo[p.manifest].bytes))) {
      return Err(OtherManifestBytes(p.run));
    }
    if Field(run.value, "semantic_subject_sha256") != Some(Str(subject)) {
      return Err(StaleSubject(p.run));
    }
    if Field(run.value, "status") != Some(Str("pass")) {
      return Err(NotPassing(p.run));
    }
    var source := Field(run.value, "source_attestation");
    if source.None? || !source.value.Obj? {
      return Err(NoAttestation(p.run));
    }
    var keys := ATTESTATION_KEYS;
    for k := 0 to |keys|
      invariant forall i :: 0 <= i < k ==> Equals(env, Field(source.value, keys[i]), ExpectedAttestation(i, subject))
    {
      if !Equals(env, Field(source.value, keys[k]), ExpectedAttestation(k, subject)) {
        return Err(AttestationField(p.run, keys[k]));
      }
    }
    id := Ok(ChainId(manifest.value));
  }

  /** Appending one publication to a sound list. */
  lemma PublishableNext(env: Env, subject: string, publications: seq<Publication>, n: nat)
    requires n < |publications|
    ensures AllPublishable(env, subject, publications[..n + 1]) <==>
            && AllPublishable(env, subject, publications[..n])
            && Publishable(env, subject, publications[n])
            && PublishedId(env, publications[n]) !in Elements(PublishedIds(env, publications[..n]))
            && Distinct(publications[n].conformanceIds)
            && forall id :: id in publications[n].conformanceIds ==> id !in Elements(Flatten(publications[..n]))
    ensures PublishedIds(env, publications[..n + 1]) == PublishedIds(env, publications[..n]) + [PublishedId(env, publications[n])]
    ensures Flatten(publications[..n + 1]) == Flatten(publications[..n]) + publications[n].conformanceIds
  {
    hide Publishable, PublishedId;
    var before, next := publications[..n], publications[..n + 1];
    assert next[..n] == before && next == before + [publications[n]];
    DistinctAppend(Flatten(before), publications[n].conformanceIds);
    DistinctAppend(PublishedIds(env, before), [PublishedId(env, publications[n])]);
    assert PublishedIds(env, next) == PublishedIds(env, before) + [PublishedId(env, publications[n])];
  }

  lemma {:induction false} PublishablePrefix(env: Env, subject: string, publications: seq<Publication>, n: nat)
    requires n <= |publications| && AllPublishable(env, subject, publications)
    ensures AllPublishable(env, subject, publications[..n])
    decreases |publications| - n
  {
    hide Publishable, PublishedId, Flatten, Distinct;
    if n < |publications| {
      PublishablePrefix(env, subject, publications, n + 1);
      PublishableNext(env, subject, publications, n);
    } else {
      assert publications[..n] == publications;
    }
  }

  /** Registers the claims of one publication; false on the first that is already registered. */
  method AddConformanceIds(seen: set<string>, ids: seq<string>) returns (next: set<string>, clash: Option<string>)
    ensures clash.None? <==> Distinct(ids) && forall id :: id in ids ==> id !in seen
    ensures clash.None? ==> next == seen + Elements(ids)
  {
    next := seen;
    for k := 0 to |ids|
      invariant next == seen + Elements(ids[..k])
      invariant Distinct(ids[..k]) && forall i :: 0 <= i < k ==> ids[i] !in seen
    {
      if ids[k] in next {
        assert ids[k] in seen || ids[k] in ids[..k];
        clash := Some(ids[k]);
        return;
      }
      TakeNext(ids, k);
      next := next + {ids[k]};
    }
    assert ids[..|ids|] == ids;
    clash := None;
  }

  ghost predicate Extends(env: Env, subject: string, publications: seq<Publication>, n: nat, chainIds: set<string>, conformanceIds: set<string>)
    requires n < |publications|
  {
    var p := publications[n];
    && Publishable(env, subject, p) && PublishedId(env, p) !in chainIds
    && Distinct(p.conformanceIds) && forall id :: id in p.conformanceIds ==> id !in conformanceIds
  }

  /** What has been listed after n publications. */
  ghost predicate Listed(env: Env, subject: string, publications: seq<Publication>, n: nat, records: seq<Json>, chainIds: set<string>, conformanceIds: set<string>)
    requires n <= |publications|
  {
    && AllPublishable(env, subject, publications[..n])
    && records == RecordJsons(env, publications[..n])
    && chainIds == Elements(PublishedIds(env, publications[..n]))
    && conformanceIds == Elements(Flatten(publications[..n]))
  }

  lemma ListedNext(env: Env, subject: string, publications: seq<Publication>, n: nat, records: seq<Json>, chainIds: set<string>, conformanceIds: set<string>)
    requires n < |publications| && Listed(env, subject, publications, n, records, chainIds, conformanceIds)
    ensures var p := publications[n];
            if Extends(env, subject, publications, n, chainIds, conformanceIds)
            then Listed(env, subject, publications, n + 1, records + [RecordJson(env, p)],
                        chainIds + {PublishedId(env, p)}, conformanceIds + Elements(p.conformanceIds))
            else !AllPublishable(env, subject, publications)
  {
    hide Publishable, RecordJson, PublishedId, Distinct, Flatten;
    PublishableNext(env, subject, publications, n);
    if Extends(env, subject, publications, n, chainIds, conformanceIds) {
      assert RecordJsons(env, publications[..n + 1]) == records + [RecordJson(env, publications[n])];
    } else if AllPublishable(env, subject, publications) {
      PublishablePrefix(env, subject, publications, n + 1);
    }
  }

  /** Raises on the first violation, otherwise lists every publication in order. */
  method BuildIndex(env: Env, subject: string, publications: seq<Publication>) returns (index: Result<Json, Refusal>)
    ensures index.Ok? <==> AllPublishable(env, subject, publications)
    ensures index.Ok? ==> index.value == IndexJson(RecordJsons(env, publications))
  {
    var records: seq<Json>, chainIds: set<string>, conformanceIds: set<string> := [], {}, {};
    for n := 0 to |publications|
      invariant Listed(env, subject, publications, n, records, chainIds, conformanceIds)
    {
      var p := publications[n];
      ListedNext(env, subject, publications, n, records, chainIds, conformanceIds);
      var checked := CheckPublication(env, subject, p, chainIds);
      if checked.Err? {
        return Err(checked.error);
      }
      var next, clash := AddConformanceIds(conformanceIds, p.conformanceIds);
      if clash.Some? {
        return Err(ClaimTwice(clash.value));
      }
      chainIds, conformanceIds := chainIds + {checked.value}, next;
      records := records + [RecordJson(env, p)];
    }
    assert publications[..|publications|] == publications;
    index := Ok(IndexJson(records));
  }

  // The loader accepts what the publisher lists, up to the checks that only the loader makes.

  /** The typed run is read from the fields of its JSON object. */
  predicate ReadsRun(json: Json, run: Run) {
    var source := Field(json, "source_attestation");
    && Field(json, "chain_id") == Some(Str(run.chainId))
    && Field(json, "chain_manifest_sha256") == Some(Str(run.manifestSha256))
    && Field(json, "semantic_subject_sha256") == Some(Str(run.subject))
    && source.Some?
    && (Field(source.value, "receipt_class") == Some(Str("release")) <==> run.attestation.release)
    && Field(source.value, "semantic_subject_sha256") == Some(Str(run.attestation.subject))
    && Field(source.value, "clean_before") == Some(Bool(run.attestation.cleanBefore))
    && Field(source.value, "clean_after") == Some(Bool(run.attestation.cleanAfter))
    && Field(source.value, "state_unchanged") == Some(Bool(run.attestation.stateUnchanged))
  }

  ghost predicate SchemasRead(env: Env) {
    && (forall json :: env.manifest(json).Some? ==> Field(json, "id") == Some(Str(env.manifest(json).value.id)))
    && (forall json :: env.run(json).Some? ==> ReadsRun(json, env.run(json).value))
  }

  function RecordRefs(env: Env, p: Publication): Refs
    requires p.manifest in env.repo && p.run in env.repo
  {
    Refs(Some(FileRef(p.manifest, env.sha256(env.repo[p.manifest].bytes))),
         Some(FileRef(p.run, env.sha256(env.repo[p.run].bytes))))
  }

  lemma RecordHasShape(env: Env, p: Publication)
    requires p.manifest in env.repo && p.run in env.repo
    ensures var record := RecordJson(env, p);
            && HasKeys(record) && record.fields["id"] == Str(PublishedId(env, p))
            && record.fields["conformance_record_ids"] == Arr(Texts(p.conformanceIds)) && record.fields["extensions"].Obj?
            && RefShape(record.fields["manifest"]) && RefShape(record.fields["run"])
            && Refs(RefOf(record.fields["manifest"]), RefOf(record.fields["run"])) == RecordRefs(env, p)
  {
    assert RecordJson(env, p).fields.Keys == RECORD_KEYS;
    assert RefJson(env, p.manifest).fields.Keys == REF_KEYS && RefJson(env, p.run).fields.Keys == REF_KEYS;
  }

  lemma AttestationRead(env: Env, run: Json, subject: string)
    requires ReleaseAttestation(env, run, subject)
    ensures var source := Field(run, "source_attestation").value;
            && Field(source, "receipt_class") == Some(Str("release"))
            && Field(source, "semantic_subject_sha256") == Some(Str(subject))
            && Equals(env, Field(source, "clean_before"), Bool(true))
            && Equals(env, Field(source, "clean_after"), Bool(true))
            && Equals(env, Field(source, "state_unchanged"), Bool(true))
  {
    assert ATTESTATION_KEYS[0] == "receipt_class" && ATTESTATION_KEYS[1] == "semantic_subject_sha256";
    assert ATTESTATION_KEYS[2] == "clean_before" && ATTESTATION_KEYS[3] == "clean_after";
    assert ATTESTATION_KEYS[4] == "state_unchanged";
  }

  // The publishing rules, written out.

  /** A regular file with bytes in it that decodes, nests at most 64 deep and parses to this object. */
  predicate PublisherReads(env: Env, path: string, json: Json) {
    && path in env.repo && env.repo[path].kind.Regular? && |env.repo[path].bytes| > 0
    && env.utf8(env.repo[path].bytes).Some?
    && DepthScan.Within(DepthScan.START, env.utf8(env.repo[path].bytes).value, 64)
    && env.parse(env.utf8(env.repo[path].bytes).value) == Some(json)
    && json.Obj?
  }

  predicate HasText(json: Json, key: string, text: string) {
    json.Obj? && key in json.fields && json.fields[key] == Str(text)
  }

  /** True, or a number that equals it. */
  predicate HasTrue(env: Env, json: Json, key: string) {
    json.Obj? && key in json.fields &&
    (json.fields[key] == Bool(true) || (json.fields[key].Num? && env.isOne(json.fields[key].spelling)))
  }

  predicate PassesAs(env: Env, subject: string, p: Publication, chainId: string, run: Json)
    requires p.manifest in env.repo && run.Obj?
  {
    && HasText(run, "chain_id", chainId)
    && HasText(run, "chain_manifest_sha256", env.sha256(env.repo[p.manifest].bytes))
    && HasText(run, "semantic_subject_sha256", subject)
    && HasText(run, "status", "pass")
    && "source_attestation" in run.fields
    && var source := run.fields["source_attestation"];
       && HasText(source, "receipt_class", "release") && HasText(source, "semantic_subject_sha256", subject)
       && HasTrue(env, source, "clean_before") && HasTrue(env, source, "clean_after") && HasTrue(env, source, "state_unchanged")
  }

  lemma LoadableExactly(env: Env, path: string, json: Json)
    ensures Loadable(env, path) == Some(json) <==> PublisherReads(env, path, json)
  {
    hide DepthScan.Within;
  }

  lemma AttestationExactly(env: Env, run: Json, subject: string)
    requires run.Obj?
    ensures ReleaseAttestation(env, run, subject) <==>
            && "source_attestation" in run.fields
            && var source := run.fields["source_attestation"];
               && HasText(source, "receipt_class", "release") && HasText(source, "semantic_subject_sha256", subject)
               && HasTrue(env, source, "clean_before") && HasTrue(env, source, "clean_after") && HasTrue(env, source, "state_unchanged")
  {
    if ReleaseAttestation(env, run, subject) {
      AttestationRead(env, run, subject);
    }
  }

  /** A publication is accepted alone exactly when its manifest names a chain and its run passed on that manifest, for the
      current subject, from a clean release. */
  lemma PublishableExactly(env: Env, subject: string, p: Publication, chainId: string)
    ensures Publishable(env, subject, p) && PublishedId(env, p) == chainId <==>
            exists manifest, run ::
              && PublisherReads(env, p.manifest, manifest) && PublisherReads(env, p.run, run)
              && HasText(manifest, "id", chainId) && chainId != ""
              && PassesAs(env, subject, p, chainId, run)
  {
    hide ReleaseAttestation, Loadable, PublisherReads, HasTrue;
    forall path, json
      ensures Loadable(env, path) == Some(json) <==> PublisherReads(env, path, json)
    {
      LoadableExactly(env, path, json);
    }
    forall run: Json | run.Obj?
      ensures ReleaseAttestation(env, run, subject) <==>
              && "source_attestation" in run.fields
              && var source := run.fields["source_attestation"];
                 && HasText(source, "receipt_class", "release") && HasText(source, "semantic_subject_sha256", subject)
                 && HasTrue(env, source, "clean_before") && HasTrue(env, source, "clean_after") && HasTrue(env, source, "state_unchanged")
    {
      AttestationExactly(env, run, subject);
    }
  }

  /** The publisher's path constants resolve to themselves, and the files fit the loader's size limit. */
  ghost predicate Addressed(env: Env, p: Publication) {
    && env.resolve(p.manifest) == To(p.manifest) && env.resolve(p.run) == To(p.run)
    && (p.manifest in env.repo ==> |env.repo[p.manifest].bytes| <= MAX_JSON_BYTES)
    && (p.run in env.repo ==> |env.repo[p.run].bytes| <= MAX_JSON_BYTES)
  }

  /** A published record names real files, its run is bound and fresh, and its attestation is a clean release. */
  lemma PublishedRecordIsFresh(env: Env, ctx: Context, p: Publication)
    requires Publishable(env, ctx.subject, p) && SchemasRead(env) && Addressed(env, p)
    ensures RefsValid(env, RecordRefs(env, p))
    ensures ManifestAt(env, RecordRefs(env, p)).Some? && RunAt(env, RecordRefs(env, p)).Some? ==>
              var manifest, run := ManifestAt(env, RecordRefs(env, p)).value, RunAt(env, RecordRefs(env, p)).value;
              && Bound(env, ctx, RecordRefs(env, p), manifest, run)
              && manifest.id == PublishedId(env, p)
              && (AttestationSound(env, ctx, run.attestation, run) <==>
                  (ctx.release ==> env.committed(run.attestation.revision) == Some((ctx.subject, run.attestation.tree))))
  {
    var refs := RecordRefs(env, p);
    assert Document(env, p.manifest) == Loadable(env, p.manifest) && Document(env, p.run) == Loadable(env, p.run);
    var manifest, run := Loadable(env, p.manifest).value, Loadable(env, p.run).value;
    AttestationRead(env, run, ctx.subject);
    if ManifestAt(env, refs).Some? && RunAt(env, refs).Some? {
      assert ReadsRun(run, env.run(run).value);
      assert Field(manifest, "id") == Some(Str(env.manifest(manifest).value.id));
    }
  }

  lemma {:induction false} ContributedIds(cs: Contributions, ids: seq<string>, claims: seq<seq<string>>)
    requires |cs| == |ids| == |claims| && AllAdmitted(cs)
    requires forall k :: 0 <= k < |cs| ==> cs[k].value.recordId == ids[k] && cs[k].value.conformanceIds == claims[k]
    ensures RecordIds(cs) == ids && ClaimedIds(cs) == Concat(claims)
  {
    if cs != [] {
      hide *;
      var n := |cs| - 1;
      AdmittedFront(cs);
      ContributedIds(cs[..n], ids[..n], claims[..n]);
      assert RecordIds(cs) == ids by {
        TakeNext(ids, n);
        assert ids[..n + 1] == ids;
      }
      ConcatLast(claims);
    }
  }

  function Claims(publications: seq<Publication>): (claims: seq<seq<string>>)
    ensures |claims| == |publications| && forall k :: 0 <= k < |claims| ==> claims[k] == publications[k].conformanceIds
  {
    seq(|publications|, k requires 0 <= k < |publications| => publications[k].conformanceIds)
  }

  lemma ConcatLast(claims: seq<seq<string>>)
    requires claims != []
    ensures Concat(claims) == Concat(claims[..|claims| - 1]) + claims[|claims| - 1]
  {
  }

  lemma AdmittedFront(cs: Contributions)
    requires cs != [] && AllAdmitted(cs)
    ensures cs[|cs| - 1].Some? && AllAdmitted(cs[..|cs| - 1])
    ensures RecordIds(cs) == RecordIds(cs[..|cs| - 1]) + [cs[|cs| - 1].value.recordId]
    ensures ClaimedIds(cs) == ClaimedIds(cs[..|cs| - 1]) + cs[|cs| - 1].value.conformanceIds
  {
  }

  lemma {:induction false} ConcatIsFlatten(publications: seq<Publication>)
    ensures Concat(Claims(publications)) == Flatten(publications)
  {
    if publications != [] {
      var n := |publications| - 1;
      ConcatIsFlatten(publications[..n]);
      assert Claims(publications)[..n] == Claims(publications[..n]);
    }
  }

  lemma RecordContribution(env: Env, ctx: Context, p: Publication)
    requires Publishable(env, ctx.subject, p) && Admissible(env, ctx, RecordJson(env, p))
    ensures var c := Loader.Contributed(env, ctx, RecordJson(env, p));
            c.Some? && c.value.recordId == PublishedId(env, p) && c.value.conformanceIds == p.conformanceIds
            && c.value.runSha256 == env.sha256(env.repo[p.run].bytes)
  {
    RecordHasShape(env, p);
    assert ConformanceIds(RecordJson(env, p)) == p.conformanceIds;
  }

  lemma BuiltRecords(env: Env, path: string, records: seq<Json>)
    requires |records| <= 512 && Document(env, path) == Some(IndexJson(records))
    ensures IndexRecords(env, path) == Some(records)
    ensures Document(env, path).value.fields["schema"] == Str(INDEX_SCHEMA)
  {
    assert IndexJson(records).fields.Keys == INDEX_KEYS;
  }

  lemma BuiltContributionsUnrepeated(env: Env, ctx: Context, publications: seq<Publication>)
    requires AllPublishable(env, ctx.subject, publications)
    ensures var cs := ContributedBy(env, ctx, RecordJsons(env, publications));
            AllAdmitted(cs) ==> Distinct(RecordIds(cs)) && Distinct(ClaimedIds(cs))
  {
    var cs := ContributedBy(env, ctx, RecordJsons(env, publications));
    if AllAdmitted(cs) {
      forall k | 0 <= k < |cs|
        ensures cs[k].value.recordId == PublishedIds(env, publications)[k]
        ensures cs[k].value.conformanceIds == Claims(publications)[k]
      {
        assert cs[k].Some?;
        RecordContribution(env, ctx, publications[k]);
      }
      ContributedIds(cs, PublishedIds(env, publications), Claims(publications));
      ConcatIsFlatten(publications);
    }
  }

  lemma AdmittedByRecord(env: Env, ctx: Context, publications: seq<Publication>)
    ensures AllAdmitted(ContributedBy(env, ctx, RecordJsons(env, publications))) <==>
            forall k :: 0 <= k < |publications| ==> Admissible(env, ctx, RecordJson(env, publications[k]))
  {
    var cs := ContributedBy(env, ctx, RecordJsons(env, publications));
    forall k | 0 <= k < |publications|
      ensures cs[k].Some? <==> Admissible(env, ctx, RecordJson(env, publications[k]))
    {
      assert cs[k] == Loader.Contributed(env, ctx, RecordJson(env, publications[k]));
    }
  }

  /** The index file that the publisher writes is sound for the loader exactly when each record is admissible alone:
      the publisher has already ruled out repeated records and repeated claims. */
  lemma BuiltIndexIsSound(env: Env, ctx: Context, path: string, publications: seq<Publication>)
    requires AllPublishable(env, ctx.subject, publications) && |publications| <= 512
    requires Document(env, path) == Some(IndexJson(RecordJsons(env, publications)))
    ensures IndexSound(env, ctx, path) <==>
            forall k :: 0 <= k < |publications| ==> Admissible(env, ctx, RecordJson(env, publications[k]))
  {
    BuiltRecords(env, path, RecordJsons(env, publications));
    BuiltContributionsUnrepeated(env, ctx, publications);
    AdmittedByRecord(env, ctx, publications);
  }
}
