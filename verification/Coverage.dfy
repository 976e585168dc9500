/** From index records to the evidence of each coverage row and the registry of provider claims. */
module Coverage {
  import opened Prelude
  import opened Json
  import opened Chain
  import opened Issues
  import opened Repository
  import opened Ladder
  import opened Loader

  datatype RowEvidence = RowEvidence(recordId: string, level: Level, evidence: set<Evidence>)

  datatype Registration = Registration(recordId: string, chainId: string, sha256: string)

  /** What each index record contributed, in index order. */
  type Contributions = seq<Option<Contribution>>

  function EvidenceFrom(c: Contribution, rowId: string): RowEvidence {
    var evidence := RecordEvidence(c.manifest, c.run, rowId);
    RowEvidence(c.recordId, LevelOf(evidence), evidence)
  }

  function RowShare(c: Option<Contribution>, rowId: string): seq<RowEvidence> {
    if c.Some? && rowId in c.value.manifest.covers then [EvidenceFrom(c.value, rowId)] else []
  }

  function ClaimShare(c: Option<Contribution>, id: string): Option<Registration> {
    if c.Some? && id in c.value.conformanceIds
    then Some(Registration(c.value.recordId, c.value.manifest.id, c.value.runSha256))
    else None
  }

  /** The entries of evidence_by_row for one row. */
  function RowEvidences(cs: Contributions, rowId: string): seq<RowEvidence> {
    if cs == [] then []
    else RowEvidences(cs[..|cs| - 1], rowId) + RowShare(cs[|cs| - 1], rowId)
  }

  /** The registry entry of one conformance record: the last registration wins. */
  function Registered(cs: Contributions, id: string): Option<Registration> {
    if cs == [] then None
    else if ClaimShare(cs[|cs| - 1], id).Some? then ClaimShare(cs[|cs| - 1], id)
    else Registered(cs[..|cs| - 1], id)
  }

  function RecordIds(cs: Contributions): seq<string> {
    if cs == [] then []
    else RecordIds(cs[..|cs| - 1]) + match cs[|cs| - 1] case Some(c) => [c.recordId] case None => []
  }

  function ClaimedIds(cs: Contributions): seq<string> {
    if cs == [] then []
    else ClaimedIds(cs[..|cs| - 1]) + match cs[|cs| - 1] case Some(c) => c.conformanceIds case None => []
  }

  predicate AllAdmitted(cs: Contributions) {
    forall k :: 0 <= k < |cs| ==> cs[k].Some?
  }

  // The index file.

  const INDEX_KEYS: set<string> := {"schema", "records", "extensions"}
  const INDEX_SCHEMA: string := "openada.semantic-chain-index/v0alpha1"

  function IndexRecords(env: Env, path: string): Option<seq<Json>> {
    var index := Document(env, path);
    if index.Some? && index.value.fields.Keys == INDEX_KEYS
       && index.value.fields["records"].Arr? && |index.value.fields["records"].items| <= 512
    then Some(index.value.fields["records"].items)
    else None
  }

  /** Nothing is contributed by an index that cannot be read as a list of records. */
  ghost function IndexContributions(env: Env, ctx: Context, path: string): (cs: Contributions)
    ensures IndexRecords(env, path).Some? ==> |cs| == |IndexRecords(env, path).value|
  {
    if IndexRecords(env, path).None? then [] else ContributedBy(env, ctx, IndexRecords(env, path).value)
  }

  ghost function ContributedBy(env: Env, ctx: Context, records: seq<Json>): (cs: Contributions)
    ensures |cs| == |records|
    ensures forall k :: 0 <= k < |records| ==> cs[k] == Contributed(env, ctx, records[k])
  {
    seq(|records|, k requires 0 <= k < |records| => Contributed(env, ctx, records[k]))
  }

  ghost predicate IndexSound(env: Env, ctx: Context, path: string) {
    && IndexRecords(env, path).Some?
    && Document(env, path).value.fields["schema"] == Str(INDEX_SCHEMA)
    && Unrepeated(IndexContributions(env, ctx, path))
  }

  predicate Unrepeated(cs: Contributions) {
    AllAdmitted(cs) && Distinct(RecordIds(cs)) && Distinct(ClaimedIds(cs))
  }

  // The loader's accumulating loops.

  function Found<T>(m: map<string, seq<T>>, key: string): seq<T> {
    if key in m then m[key] else []
  }

  function Lookup<T>(m: map<string, T>, key: string): Option<T> {
    if key in m then Some(m[key]) else None
  }

  /** What the first n rows that a record covers add to one row. */
  function ShareOf(c: Contribution, n: nat, rowId: string): seq<RowEvidence>
    requires n <= |c.manifest.covers|
  {
    if rowId in c.manifest.covers[..n] then [EvidenceFrom(c, rowId)] else []
  }

  ghost predicate RowsAdded(next: map<string, seq<RowEvidence>>, evidence: map<string, seq<RowEvidence>>, c: Contribution, n: nat)
    requires n <= |c.manifest.covers|
  {
    forall rowId :: Found(next, rowId) == Found(evidence, rowId) + ShareOf(c, n, rowId)
  }

  lemma ShareNext(c: Contribution, n: nat, rowId: string)
    requires n < |c.manifest.covers| && Distinct(c.manifest.covers)
    ensures ShareOf(c, n + 1, rowId) == if rowId == c.manifest.covers[n] then [EvidenceFrom(c, rowId)] else ShareOf(c, n, rowId)
    ensures ShareOf(c, n, c.manifest.covers[n]) == []
  {
    hide EvidenceFrom;
    var covers := c.manifest.covers;
    TakeNext(covers, n);
    assert covers[n] !in covers[..n];
  }

  lemma RowsNext(next: map<string, seq<RowEvidence>>, evidence: map<string, seq<RowEvidence>>, c: Contribution, n: nat)
    requires n < |c.manifest.covers| && RowsAdded(next, evidence, c, n) && Distinct(c.manifest.covers)
    ensures var covered := c.manifest.covers[n];
            RowsAdded(next[covered := Found(next, covered) + [EvidenceFrom(c, covered)]], evidence, c, n + 1)
  {
    hide EvidenceFrom, ShareOf, Distinct;
    var covered := c.manifest.covers[n];
    var added := next[covered := Found(next, covered) + [EvidenceFrom(c, covered)]];
    forall rowId
      ensures Found(added, rowId) == Found(evidence, rowId) + ShareOf(c, n + 1, rowId)
    {
      ShareNext(c, n, rowId);
      assert Found(next, rowId) == Found(evidence, rowId) + ShareOf(c, n, rowId);
      if rowId == covered {
        assert Found(next, covered) == Found(evidence, covered);
      }
    }
  }

  lemma RowsStart(evidence: map<string, seq<RowEvidence>>, c: Contribution)
    ensures RowsAdded(evidence, evidence, c, 0)
  {
    hide EvidenceFrom;
  }

  lemma RowsEnd(next: map<string, seq<RowEvidence>>, evidence: map<string, seq<RowEvidence>>, c: Contribution)
    requires RowsAdded(next, evidence, c, |c.manifest.covers|)
    ensures forall rowId :: Found(next, rowId) == Found(evidence, rowId) + RowShare(Some(c), rowId)
  {
    hide EvidenceFrom, Found;
    assert c.manifest.covers[..|c.manifest.covers|] == c.manifest.covers;
  }

  lemma EntryIs(c: Contribution, rowId: string)
    ensures EvidenceFrom(c, rowId) ==
            RowEvidence(c.recordId, LevelOf(RecordEvidence(c.manifest, c.run, rowId)), RecordEvidence(c.manifest, c.run, rowId))
  {
    hide RecordEvidence, LevelOf;
  }

  method AddRows(evidence: map<string, seq<RowEvidence>>, c: Contribution) returns (next: map<string, seq<RowEvidence>>)
    ensures forall rowId :: Found(next, rowId) == Found(evidence, rowId) + RowShare(Some(c), rowId)
  {
    var covers := c.manifest.covers;
    assert Distinct(covers);
    hide *;
    next := evidence;
    RowsStart(evidence, c);
    for k := 0 to |covers|
      invariant RowsAdded(next, evidence, c, k)
    {
      var found := RecordEvidence(c.manifest, c.run, covers[k]);
      var level := LevelForEvidence(found);
      EntryIs(c, covers[k]);
      RowsNext(next, evidence, c, k);
      next := next[covers[k] := Found(next, covers[k]) + [RowEvidence(c.recordId, level, found)]];
    }
    RowsEnd(next, evidence, c);
  }

  method AddClaims(registry: map<string, Registration>, c: Contribution) returns (next: map<string, Registration>)
    ensures forall id :: Lookup(next, id) ==
                         if ClaimShare(Some(c), id).Some? then ClaimShare(Some(c), id) else Lookup(registry, id)
  {
    next := registry;
    var ids := c.conformanceIds;
    for k := 0 to |ids|
      invariant forall id :: id in ids[..k] ==> Lookup(next, id) == ClaimShare(Some(c), id)
      invariant forall id :: id !in ids[..k] ==> Lookup(next, id) == Lookup(registry, id)
    {
      TakeNext(ids, k);
      next := next[ids[k] := Registration(c.recordId, c.manifest.id, c.runSha256)];
    }
    assert ids[..|ids|] == ids;
  }

  /** cs is what the first n records contributed. */
  ghost predicate ContributedUpTo(cs: Contributions, env: Env, ctx: Context, records: seq<Json>, n: nat)
    requires n <= |records|
  {
    |cs| == n && forall k :: 0 <= k < n ==> cs[k] == Contributed(env, ctx, records[k])
  }

  lemma ContributedNext(cs: Contributions, env: Env, ctx: Context, records: seq<Json>, n: nat)
    requires n < |records| && ContributedUpTo(cs, env, ctx, records, n)
    ensures ContributedUpTo(cs + [Contributed(env, ctx, records[n])], env, ctx, records, n + 1)
  {
    hide Contributed;
  }

  lemma ContributedByAll(cs: Contributions, env: Env, ctx: Context, records: seq<Json>)
    requires ContributedUpTo(cs, env, ctx, records, |records|)
    ensures cs == ContributedBy(env, ctx, records)
  {
    hide Contributed;
  }

  lemma Appended(cs: Contributions, c: Option<Contribution>)
    ensures forall key :: RowEvidences(cs + [c], key) == RowEvidences(cs, key) + RowShare(c, key)
    ensures forall key :: Registered(cs + [c], key) ==
                          if ClaimShare(c, key).Some? then ClaimShare(c, key) else Registered(cs, key)
    ensures AllAdmitted(cs + [c]) <==> AllAdmitted(cs) && c.Some?
    ensures c.Some? ==> RecordIds(cs + [c]) == RecordIds(cs) + [c.value.recordId]
    ensures c.Some? ==> ClaimedIds(cs + [c]) == ClaimedIds(cs) + c.value.conformanceIds
  {
    var next := cs + [c];
    assert next[..|next| - 1] == cs && next[|next| - 1] == c;
    assert forall k :: 0 <= k < |cs| ==> next[k] == cs[k];
  }

  /** What the dictionaries hold after these contributions. */
  ghost predicate Holds(evidence: map<string, seq<RowEvidence>>, registry: map<string, Registration>, cs: Contributions) {
    && (forall rowId :: Found(evidence, rowId) == RowEvidences(cs, rowId))
    && (forall id :: Lookup(registry, id) == Registered(cs, id))
  }

  /** Adds what one record contributed, if anything. */
  method Add(evidence: map<string, seq<RowEvidence>>, registry: map<string, Registration>, c: Option<Contribution>, ghost cs: Contributions)
    returns (evidence': map<string, seq<RowEvidence>>, registry': map<string, Registration>)
    requires Holds(evidence, registry, cs)
    ensures Holds(evidence', registry', cs + [c])
  {
    evidence', registry' := evidence, registry;
    if c.Some? {
      evidence' := AddRows(evidence, c.value);
      registry' := AddClaims(registry, c.value);
    }
    Appended(cs, c);
  }

  ghost predicate SomeRecordRaises(env: Env, ctx: Context, records: seq<Json>) {
    exists k :: 0 <= k < |records| && RecordRaises(env, ctx, records[k])
  }

  ghost predicate RaisesBefore(env: Env, ctx: Context, records: seq<Json>, n: nat) {
    exists k :: 0 <= k < n && k < |records| && RecordRaises(env, ctx, records[k])
  }

  lemma RaisesNext(env: Env, ctx: Context, records: seq<Json>, n: nat)
    requires n < |records|
    ensures !RaisesBefore(env, ctx, records, 0)
    ensures RaisesBefore(env, ctx, records, n + 1) <==> RaisesBefore(env, ctx, records, n) || RecordRaises(env, ctx, records[n])
    ensures RecordRaises(env, ctx, records[n]) ==> SomeRecordRaises(env, ctx, records)
  {
    hide RecordRaises;
  }

  /** What the loop has accumulated from these contributions. */
  ghost predicate Tallied(issues: seq<Issue>, recordIds: seq<string>, registered: seq<string>, cs: Contributions) {
    && (issues == [] <==> AllAdmitted(cs))
    && (issues == [] ==> recordIds == RecordIds(cs) && registered == ClaimedIds(cs))
  }

  lemma TalliedNext(issues: seq<Issue>, recordIds: seq<string>, registered: seq<string>, cs: Contributions,
                    found: seq<Issue>, id: Option<string>, claims: seq<string>, c: Option<Contribution>)
    requires Tallied(issues, recordIds, registered, cs) && (found == [] <==> c.Some?)
    requires c.Some? ==> id == Some(c.value.recordId) && claims == c.value.conformanceIds
    ensures Tallied(issues + found, recordIds + (if id.Some? then [id.value] else []), registered + claims, cs + [c])
  {
    Appended(cs, c);
    hide AllAdmitted, RecordIds, ClaimedIds, RowEvidences, Registered;
  }

  lemma LoopStarts(env: Env, ctx: Context, records: seq<Json>)
    ensures ContributedUpTo([], env, ctx, records, 0) && Holds(map[], map[], []) && Tallied([], [], [], [])
    ensures !RaisesBefore(env, ctx, records, 0)
    ensures SomeRecordRaises(env, ctx, records) <==> RaisesBefore(env, ctx, records, |records|)
  {
    hide RecordRaises;
  }

  lemma LoopEnds(evidence: map<string, seq<RowEvidence>>, registry: map<string, Registration>,
                 issues: seq<Issue>, recordIds: seq<string>, registered: seq<string>, cs: Contributions)
    requires Holds(evidence, registry, cs) && Tallied(issues, recordIds, registered, cs)
    ensures forall rowId :: Found(evidence, rowId) == RowEvidences(cs, rowId)
    ensures forall id :: Lookup(registry, id) == Registered(cs, id)
    ensures issues == [] && Duplicates(recordIds) == {} && Duplicates(registered) == {} <==> Unrepeated(cs)
  {
    NoDuplicatesIffDistinct(recordIds);
    NoDuplicatesIffDistinct(registered);
    hide Found, Lookup, RowEvidences, Registered, AllAdmitted, Distinct, Duplicates;
  }

  /** Either some record raises, or all records are loaded. */
  method LoadAll(env: Env, ctx: Context, records: seq<Json>)
    returns (issues: seq<Issue>, evidence: map<string, seq<RowEvidence>>, registry: map<string, Registration>, raised: bool)
    ensures raised <==> SomeRecordRaises(env, ctx, records)
    ensures !raised ==> forall rowId :: Found(evidence, rowId) == RowEvidences(ContributedBy(env, ctx, records), rowId)
    ensures !raised ==> forall id :: Lookup(registry, id) == Registered(ContributedBy(env, ctx, records), id)
    ensures !raised ==> (issues == [] <==> Unrepeated(ContributedBy(env, ctx, records)))
  {
    hide *;
    raised := false;
    issues, evidence, registry := [], map[], map[];
    var recordIds: seq<string>, registered: seq<string> := [], [];
    ghost var cs: Contributions := [];
    LoopStarts(env, ctx, records);
    for k := 0 to |records|
      invariant !raised && !RaisesBefore(env, ctx, records, k)
      invariant ContributedUpTo(cs, env, ctx, records, k)
      invariant Holds(evidence, registry, cs)
      invariant Tallied(issues, recordIds, registered, cs)
    {
      RaisesNext(env, ctx, records, k);
      var found, id, claims, contribution, stopped := LoadRecord(env, ctx, records[k]);
      if stopped {
        return issues, evidence, registry, true;
      }
      TalliedNext(issues, recordIds, registered, cs, found, id, claims, contribution);
      issues := issues + found;
      recordIds := recordIds + if id.Some? then [id.value] else [];
      registered := registered + claims;
      evidence, registry := Add(evidence, registry, contribution, cs);
      ContributedNext(cs, env, ctx, records, k);
      cs := cs + [contribution];
    }
    ContributedByAll(cs, env, ctx, records);
    LoopEnds(evidence, registry, issues, recordIds, registered, cs);
    var repeatedIds := Each(RecordIdRepeated, Duplicates(recordIds));
    var repeatedClaims := Each(ClaimRepeated, Duplicates(registered));
    issues := issues + repeatedIds + repeatedClaims;
  }

  lemma {:induction false} RecordIdsAt(cs: Contributions)
    requires AllAdmitted(cs)
    ensures |RecordIds(cs)| == |cs| && forall k :: 0 <= k < |cs| ==> RecordIds(cs)[k] == cs[k].value.recordId
  {
    if cs != [] {
      RecordIdsAt(cs[..|cs| - 1]);
    }
  }

  function ClaimLists(cs: Contributions): (lists: seq<seq<string>>)
    requires AllAdmitted(cs)
    ensures |lists| == |cs| && forall k :: 0 <= k < |cs| ==> lists[k] == cs[k].value.conformanceIds
  {
    seq(|cs|, k requires 0 <= k < |cs| => cs[k].value.conformanceIds)
  }

  lemma {:induction false} ClaimedIdsAre(cs: Contributions)
    requires AllAdmitted(cs)
    ensures ClaimedIds(cs) == Concat(ClaimLists(cs))
  {
    if cs != [] {
      var front := cs[..|cs| - 1];
      ClaimedIdsAre(front);
      assert ClaimLists(cs)[..|front|] == ClaimLists(front);
    }
  }

  /** An index is sound exactly when it is a readable list of at most 512 records under the schema, each of them is
      admitted, no two have one id, and no conformance record is registered twice. */
  lemma IndexSoundExactly(env: Env, ctx: Context, path: string)
    ensures IndexSound(env, ctx, path) <==>
            && Document(env, path).Some?
            && var fields := Document(env, path).value.fields;
               && fields.Keys == {"schema", "records", "extensions"}
               && fields["schema"] == Str("openada.semantic-chain-index/v0alpha1")
               && fields["records"].Arr? && |fields["records"].items| <= 512
               && AllAdmittedApart(env, ctx, fields["records"].items)
  {
    hide Document, Contributed, RecordIds, ClaimedIds;
    if IndexRecords(env, path).Some? {
      var records := IndexRecords(env, path).value;
      var cs := ContributedBy(env, ctx, records);
      assert cs == IndexContributions(env, ctx, path);
      UnrepeatedMeans(env, ctx, records);
      hide Unrepeated, AllAdmittedApart;
    }
  }

  ghost predicate AllAdmittedApart(env: Env, ctx: Context, records: seq<Json>) {
    && (forall k :: 0 <= k < |records| ==> Contributed(env, ctx, records[k]).Some?)
    && (forall i, j :: 0 <= i < j < |records| ==>
          Contributed(env, ctx, records[i]).value.recordId != Contributed(env, ctx, records[j]).value.recordId)
    && Apart(ClaimsOf(env, ctx, records))
  }

  /** What each record registers. */
  ghost function ClaimsOf(env: Env, ctx: Context, records: seq<Json>): (lists: seq<seq<string>>)
    requires forall k :: 0 <= k < |records| ==> Contributed(env, ctx, records[k]).Some?
    ensures |lists| == |records| && forall k :: 0 <= k < |records| ==> lists[k] == Contributed(env, ctx, records[k]).value.conformanceIds
  {
    seq(|records|, k requires 0 <= k < |records| => Contributed(env, ctx, records[k]).value.conformanceIds)
  }

  lemma UnrepeatedMeans(env: Env, ctx: Context, records: seq<Json>)
    ensures Unrepeated(ContributedBy(env, ctx, records)) <==> AllAdmittedApart(env, ctx, records)
  {
    hide Contributed, ClaimedIds, RecordIds, Concat, Apart, Distinct;
    var cs := ContributedBy(env, ctx, records);
    assert AllAdmitted(cs) <==> forall k :: 0 <= k < |records| ==> Contributed(env, ctx, records[k]).Some?;
    if AllAdmitted(cs) {
      ClaimedIdsAre(cs);
      ConcatDistinct(ClaimLists(cs));
      assert ClaimLists(cs) == ClaimsOf(env, ctx, records);
      DistinctRecords(cs);
    }
  }

  lemma DistinctRecords(cs: Contributions)
    requires AllAdmitted(cs)
    ensures Distinct(RecordIds(cs)) <==> forall i, j :: 0 <= i < j < |cs| ==> cs[i].value.recordId != cs[j].value.recordId
  {
    RecordIdsAt(cs);
  }

  ghost predicate IndexRaises(env: Env, ctx: Context, path: string) {
    IndexRecords(env, path).Some? && SomeRecordRaises(env, ctx, IndexRecords(env, path).value)
  }

  /** The records of an index are looked at when it is a readable list of at most 512, whatever its schema; else none are. */
  lemma IndexRecordsExactly(env: Env, ctx: Context, path: string, records: seq<Json>)
    ensures IndexRecords(env, path) == Some(records) <==>
            && Document(env, path).Some?
            && Document(env, path).value.fields.Keys == {"schema", "records", "extensions"}
            && Document(env, path).value.fields["records"] == Arr(records) && |records| <= 512
    ensures IndexRecords(env, path) == Some(records) ==>
              && |IndexContributions(env, ctx, path)| == |records|
              && (forall k :: 0 <= k < |records| ==> IndexContributions(env, ctx, path)[k] == Contributed(env, ctx, records[k]))
              && (IndexRaises(env, ctx, path) <==> exists k :: 0 <= k < |records| && RecordRaises(env, ctx, records[k]))
    ensures IndexRecords(env, path).None? ==> IndexContributions(env, ctx, path) == [] && !IndexRaises(env, ctx, path)
  {
    hide Document, Contributed, RecordRaises;
  }

  /** A sound index raises nothing. */
  lemma SoundIndexDoesNotRaise(env: Env, ctx: Context, path: string)
    requires IndexSound(env, ctx, path)
    ensures !IndexRaises(env, ctx, path)
  {
    var records := IndexRecords(env, path).value;
    var cs := IndexContributions(env, ctx, path);
    forall k | 0 <= k < |records|
      ensures !RecordRaises(env, ctx, records[k])
    {
      assert cs[k].Some? && cs[k] == Contributed(env, ctx, records[k]);
      AdmittedDoesNotRaise(env, ctx, records[k]);
    }
    hide RecordRaises, Contributed;
  }

  method LoadCoverageRecords(env: Env, ctx: Context, path: string)
    returns (issues: seq<Issue>, evidence: map<string, seq<RowEvidence>>, registry: map<string, Registration>, raised: bool)
    ensures raised <==> IndexRaises(env, ctx, path)
    ensures !raised ==> forall rowId :: Found(evidence, rowId) == RowEvidences(IndexContributions(env, ctx, path), rowId)
    ensures !raised ==> forall id :: Lookup(registry, id) == Registered(IndexContributions(env, ctx, path), id)
    ensures !raised ==> (issues == [] <==> IndexSound(env, ctx, path))
  {
    hide SomeRecordRaises;
    raised := false;
    evidence, registry := map[], map[];
    var index := LoadJson(env, path);
    if index.None? {
      issues := [Issue(IndexUnreadable, path)];
      return;
    }
    if index.value.fields.Keys != INDEX_KEYS {
      issues := [Issue(IndexKeys, path)];
      return;
    }
    issues := When(index.value.fields["schema"] != Str(INDEX_SCHEMA), IndexSchema, path);
    var records := index.value.fields["records"];
    if !records.Arr? || |records.items| > 512 {
      issues := issues + [Issue(IndexRecordsShape, path)];
      return;
    }
    var found;
    found, evidence, registry, raised := LoadAll(env, ctx, records.items);
    issues := issues + found;
  }

  // All or nothing.

  lemma OneMore(cs: Contributions, c: Option<Contribution>, rowId: string)
    ensures RowEvidences([], rowId) == []
    ensures RowEvidences(cs + [c], rowId) == RowEvidences(cs, rowId) + RowShare(c, rowId)
  {
    hide RowShare;
    var next := cs + [c];
    assert next[..|next| - 1] == cs && next[|next| - 1] == c;
  }

  lemma {:induction false} EvidencesConcat(a: Contributions, b: Contributions, rowId: string)
    ensures RowEvidences(a + b, rowId) == RowEvidences(a, rowId) + RowEvidences(b, rowId)
    decreases |b|
  {
    hide *;
    if b == [] {
      OneMore(b, None, rowId);
      assert a + b == a;
    } else {
      var front, c := b[..|b| - 1], b[|b| - 1];
      assert b == front + [c] && a + b == (a + front) + [c];
      EvidencesConcat(a, front, rowId);
      OneMore(a + front, c, rowId);
      OneMore(front, c, rowId);
    }
  }

  lemma {:induction false} RegisteredConcat(a: Contributions, b: Contributions, id: string)
    ensures Registered(a + b, id) == if Registered(b, id).Some? then Registered(b, id) else Registered(a, id)
    decreases |b|
  {
    if b == [] {
      assert a + b == a;
    } else {
      var n := |b| - 1;
      assert (a + b)[..|a| + n] == a + b[..n];
      RegisteredConcat(a, b[..n], id);
    }
  }

  lemma EvidencesOfOne(c: Option<Contribution>, key: string)
    ensures RowEvidences([c], key) == RowShare(c, key)
    ensures Registered([c], key) == ClaimShare(c, key)
  {
    assert [c][..0] == [];
  }

  lemma EvidencesBetween(a: Contributions, m: Contributions, b: Contributions, key: string)
    ensures RowEvidences(a + m + b, key) == RowEvidences(a, key) + RowEvidences(m, key) + RowEvidences(b, key)
  {
    EvidencesConcat(a, m, key);
    EvidencesConcat(a + m, b, key);
  }

  lemma RegisteredBetween(a: Contributions, m: Contributions, b: Contributions, key: string)
    ensures Registered(m, key).None? ==> Registered(a + m + b, key) == Registered(a + b, key)
    ensures Registered(m, key).Some? ==> Registered(a + m + b, key).Some?
  {
    RegisteredConcat(a, m, key);
    RegisteredConcat(a + m, b, key);
    RegisteredConcat(a, b, key);
  }

  /** A refused record leaves no trace in row evidence or in the claim registry. */
  lemma RefusedRecordContributesNothing(a: Contributions, b: Contributions, key: string)
    ensures RowEvidences(a + [None] + b, key) == RowEvidences(a + b, key)
    ensures Registered(a + [None] + b, key) == Registered(a + b, key)
  {
    EvidencesOfOne(None, key);
    EvidencesBetween(a, [None], b, key);
    assert RowEvidences(a, key) + RowEvidences([None], key) == RowEvidences(a, key);
    EvidencesConcat(a, b, key);
    RegisteredBetween(a, [None], b, key);
  }

  /** An admitted record contributes once to every row it covers and to no other, and registers all its claims. */
  lemma AdmittedRecordContributesAll(a: Contributions, c: Contribution, b: Contributions, key: string)
    ensures RowEvidences(a + [Some(c)] + b, key) ==
            RowEvidences(a, key) + (if key in c.manifest.covers then [EvidenceFrom(c, key)] else []) + RowEvidences(b, key)
    ensures key in c.conformanceIds ==> Registered(a + [Some(c)] + b, key).Some?
  {
    EvidencesOfOne(Some(c), key);
    EvidencesBetween(a, [Some(c)], b, key);
    RegisteredBetween(a, [Some(c)], b, key);
  }

  /** Every entry of a row comes from one admitted record that covers it. */
  lemma {:induction false} EvidenceHasRecord(cs: Contributions, rowId: string, e: RowEvidence) returns (k: nat)
    requires e in RowEvidences(cs, rowId)
    ensures k < |cs| && cs[k].Some? && rowId in cs[k].value.manifest.covers && e == EvidenceFrom(cs[k].value, rowId)
  {
    var n := |cs| - 1;
    if e in RowEvidences(cs[..n], rowId) {
      k := EvidenceHasRecord(cs[..n], rowId, e);
    } else {
      k := n;
    }
  }

  lemma {:induction false} RegistrationHasRecord(cs: Contributions, id: string) returns (k: nat)
    requires Registered(cs, id).Some?
    ensures k < |cs| && cs[k].Some? && id in cs[k].value.conformanceIds
    ensures Registered(cs, id).value.sha256 == cs[k].value.runSha256
  {
    var n := |cs| - 1;
    if ClaimShare(cs[n], id).Some? {
      k := n;
    } else {
      k := RegistrationHasRecord(cs[..n], id);
    }
  }
}
