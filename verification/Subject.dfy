/** The semantic subject: a digest of every subject file, blind only to claimed run digests. */
module Subject {
  import opened Prelude
  import opened Chain
  import opened Json
  import opened Repository
  import DepthScan
  import Decimals

  /** The receipt side of hashing: strings for digests, JSON values for canonical ones. */
  datatype Codec = Codec(
    sha256: Bytes -> string,
    utf8: Bytes -> Option<string>,
    loads: string -> Option<Json>,
    canonical: Json -> string,
    sorted: set<string> -> seq<string>)

  ghost predicate CollisionFree(codec: Codec) {
    && (forall a, b :: codec.sha256(a) == codec.sha256(b) ==> a == b)
    && (forall a, b :: codec.canonical(a) == codec.canonical(b) ==> a == b)
  }

  ghost predicate SortsSets(codec: Codec) {
    forall s :: Elements(codec.sorted(s)) == s
  }

  // The canonical digest and its depth guard.

  predicate HeightWithin(json: Json, limit: int)
    decreases json
  {
    limit >= 1 &&
    match json
    case Arr(items) => forall k :: 0 <= k < |items| ==> HeightWithin(items[k], limit - 1)
    case Obj(fields) => forall key :: key in fields ==> HeightWithin(fields[key], limit - 1)
    case _ => true
  }

  function CanonicalSha256(codec: Codec, json: Json): Option<string> {
    if HeightWithin(json, MAX_JSON_DEPTH) then Some(codec.canonical(json)) else None
  }

  // Detaching claimed run digests.

  const DETACHED: Json := Str("@detached-semantic-chain-run-sha256@")

  predicate HasClaim(record: Json) {
    HasField(record, "evidence") && HasField(record.fields["evidence"], "sha256")
  }

  function SetClaim(record: Json, digest: Json): (r: Json)
    requires HasClaim(record)
    ensures HasClaim(r) && r.fields["evidence"].fields["sha256"] == digest
  {
    Obj(record.fields["evidence" := Obj(record.fields["evidence"].fields["sha256" := digest])])
  }

  function DetachRecord(record: Json): Json {
    if HasClaim(record) then SetClaim(record, DETACHED) else record
  }

  function DetachRecords(records: seq<Json>): (rs: seq<Json>)
    ensures |rs| == |records| && forall k :: 0 <= k < |rs| ==> rs[k] == DetachRecord(records[k])
  {
    seq(|records|, k requires 0 <= k < |records| => DetachRecord(records[k]))
  }

  predicate HasRecords(manifest: Json) {
    HasField(manifest, "conformance_records") && manifest.fields["conformance_records"].Arr?
  }

  function RecordsOf(manifest: Json): seq<Json>
    requires HasRecords(manifest)
  {
    manifest.fields["conformance_records"].items
  }

  function WithRecords(manifest: Json, records: seq<Json>): Json
    requires manifest.Obj?
  {
    Obj(manifest.fields["conformance_records" := Arr(records)])
  }

  function Detach(manifest: Json): Json {
    if HasRecords(manifest) then WithRecords(manifest, DetachRecords(RecordsOf(manifest))) else manifest
  }

  /** The loop that overwrites each claimed digest in place. */
  method DetachClaims(manifest: Json) returns (detached: Json)
    ensures detached == Detach(manifest)
  {
    detached := manifest;
    if HasRecords(manifest) {
      var records := RecordsOf(manifest);
      for k := 0 to |records|
        invariant |records| == |RecordsOf(manifest)|
        invariant forall i :: 0 <= i < k ==> records[i] == DetachRecord(RecordsOf(manifest)[i])
        invariant forall i :: k <= i < |records| ==> records[i] == RecordsOf(manifest)[i]
      {
        if HasClaim(records[k]) {
          records := records[k := SetClaim(records[k], DETACHED)];
        }
      }
      assert records == DetachRecords(RecordsOf(manifest));
      detached := WithRecords(manifest, records);
    }
  }

  /** Equal except for the values of claimed digests that both hold. */
  ghost predicate SameButClaim(r: Json, s: Json) {
    r == s ||
    (HasClaim(r) && HasClaim(s)
     && r.fields - {"evidence"} == s.fields - {"evidence"}
     && r.fields["evidence"].fields - {"sha256"} == s.fields["evidence"].fields - {"sha256"})
  }

  ghost predicate SameButClaims(m: Json, n: Json) {
    m == n ||
    (HasRecords(m) && HasRecords(n)
     && m.fields - {"conformance_records"} == n.fields - {"conformance_records"}
     && |RecordsOf(m)| == |RecordsOf(n)|
     && forall k :: 0 <= k < |RecordsOf(m)| ==> SameButClaim(RecordsOf(m)[k], RecordsOf(n)[k]))
  }

  lemma UpdateEqual<K, V>(a: map<K, V>, b: map<K, V>, key: K, v: V, w: V)
    requires key in a && key in b
    ensures a[key := v] == b[key := w] <==> a - {key} == b - {key} && v == w
  {
    assert a[key := v] - {key} == a - {key} && b[key := w] - {key} == b - {key};
    assert (a - {key})[key := v] == a[key := v] && (b - {key})[key := w] == b[key := w];
    assert a[key := v][key] == v && b[key := w][key] == w;
  }

  lemma DetachRecordBlind(r: Json, s: Json)
    ensures DetachRecord(r) == DetachRecord(s) <==> SameButClaim(r, s)
  {
    if HasClaim(r) && HasClaim(s) {
      var re, se := r.fields["evidence"].fields, s.fields["evidence"].fields;
      UpdateEqual(re, se, "sha256", DETACHED, DETACHED);
      UpdateEqual(r.fields, s.fields, "evidence", Obj(re["sha256" := DETACHED]), Obj(se["sha256" := DETACHED]));
    } else if HasClaim(r) {
      assert DetachRecord(r) == DetachRecord(s) ==> HasClaim(s);
    } else if HasClaim(s) {
      assert DetachRecord(r) == DetachRecord(s) ==> HasClaim(r);
    }
  }

  /** Detaching forgets exactly the existing claimed digests and nothing else. */
  lemma DetachBlindToClaims(m: Json, n: Json)
    ensures Detach(m) == Detach(n) <==> SameButClaims(m, n)
  {
    if HasRecords(m) && HasRecords(n) {
      var ms, ns := RecordsOf(m), RecordsOf(n);
      UpdateEqual(m.fields, n.fields, "conformance_records", Arr(DetachRecords(ms)), Arr(DetachRecords(ns)));
      forall k | 0 <= k < |ms| && k < |ns|
        ensures DetachRecords(ms)[k] == DetachRecords(ns)[k] <==> SameButClaim(ms[k], ns[k])
      {
        DetachRecordBlind(ms[k], ns[k]);
      }
      assert DetachRecords(ms) == DetachRecords(ns) <==>
             |ms| == |ns| && forall k :: 0 <= k < |ms| ==> DetachRecords(ms)[k] == DetachRecords(ns)[k];
    } else if HasRecords(m) {
      assert Detach(m) == Detach(n) ==> HasRecords(n);
    } else if HasRecords(n) {
      assert Detach(m) == Detach(n) ==> HasRecords(m);
    }
  }

  function ProviderManifest(codec: Codec, bytes: Bytes): Option<Json> {
    var text := codec.utf8(bytes);
    if text.None? || !DepthScan.Within(DepthScan.START, text.value, MAX_JSON_DEPTH) then None
    else
      var json := codec.loads(text.value);
      if json.Some? && json.value.Obj? then json else None
  }

  function ProviderSemanticSha256(codec: Codec, bytes: Bytes): Option<string> {
    var manifest := ProviderManifest(codec, bytes);
    if manifest.None? then None else CanonicalSha256(codec, Detach(manifest.value))
  }

  method ProviderManifestSemanticSha256(codec: Codec, bytes: Bytes) returns (digest: Option<string>)
    ensures digest == ProviderSemanticSha256(codec, bytes)
  {
    var text := codec.utf8(bytes);
    if text.None? {
      return None;
    }
    var within := DepthScan.MaxJsonDepthWithin(text.value, MAX_JSON_DEPTH);
    if !within {
      return None;
    }
    var json := codec.loads(text.value);
    if json.None? || !json.value.Obj? {
      return None;
    }
    var detached := DetachClaims(json.value);
    digest := CanonicalSha256(codec, detached);
  }

  // The files of the subject.

  predicate HasPrefix(s: string, prefix: string) {
    |prefix| <= |s| && s[..|prefix|] == prefix
  }

  predicate HasSuffix(s: string, suffix: string) {
    |suffix| <= |s| && s[|s| - |suffix|..] == suffix
  }

  /** directory/<name without slash> */
  predicate DirectlyIn(path: string, directory: string) {
    HasPrefix(path, directory) && '/' !in path[|directory|..]
  }

  /** The catalog is a repository file, or a file elsewhere that is listed by its own path. */
  datatype Catalog = Inside(path: string) | Outside(path: string, bytes: Bytes)

  predicate InSubject(path: string, catalog: Catalog) {
    || (HasPrefix(path, "src/openada/") && HasSuffix(path, ".py"))
    || (DirectlyIn(path, "profiles/") && HasSuffix(path, ".json"))
    || (DirectlyIn(path, "schemas/") && HasSuffix(path, ".json"))
    || (HasPrefix(path, "providers/") && HasSuffix(path, ".json"))
    || IsLauncher(path)
    || (DirectlyIn(path, "tools/") && HasPrefix(path, "tools/semantic_") && HasSuffix(path, ".py"))
    || path == "tools/verify_semantic_coverage.py"
    || path == "pyproject.toml"
    || catalog == Inside(path)
  }

  predicate IsLauncher(path: string) {
    DirectlyIn(path, "bin/") && HasPrefix(path, "bin/openada")
  }

  predicate IsProviderManifest(path: string) {
    HasPrefix(path, "providers/") && HasSuffix(path, "/driver-manifest.json")
  }

  function SubjectPaths(repo: map<string, File>, catalog: Catalog): set<string> {
    set path | path in repo && InSubject(path, catalog) && !repo[path].kind.Directory?
  }

  /** Digest, executable mode (launchers only); the policy field tells which digest it is. */
  datatype Entry = Entry(path: string, sha256: string, provider: bool, mode: Option<nat>)

  function FileEntry(codec: Codec, path: string, file: File): Option<Entry> {
    var mode := if IsLauncher(path) then Some(file.mode) else None;
    if IsProviderManifest(path) then
      var digest := ProviderSemanticSha256(codec, file.bytes);
      if digest.Some? then Some(Entry(path, digest.value, true, mode)) else None
    else Some(Entry(path, codec.sha256(file.bytes), false, mode))
  }

  function EntryJson(entry: Entry): Json {
    var fields := map["path" := Str(entry.path), "sha256" := Str(entry.sha256), "digest_policy" := Policy(entry.provider)];
    Obj(if entry.mode.Some? then fields["executable_mode" := Num(Decimals.Numeral(entry.mode.value))] else fields)
  }

  function Policy(provider: bool): Json {
    Str(if provider then "provider-semantics-detached-run-digest" else "exact-bytes")
  }

  lemma EntryJsonInjective(a: Entry, b: Entry)
    requires EntryJson(a) == EntryJson(b)
    ensures a == b
  {
    var f, g := EntryJson(a).fields, EntryJson(b).fields;
    assert f["path"] == Str(a.path) && g["path"] == Str(b.path);
    assert f["sha256"] == Str(a.sha256) && g["sha256"] == Str(b.sha256);
    assert f["digest_policy"] == Policy(a.provider) && g["digest_policy"] == Policy(b.provider);
    assert |Policy(true).text| != |Policy(false).text|;
    assert a.mode.Some? <==> "executable_mode" in f;
    assert b.mode.Some? <==> "executable_mode" in g;
    if a.mode.Some? {
      assert f["executable_mode"] == Num(Decimals.Numeral(a.mode.value));
      assert g["executable_mode"] == Num(Decimals.Numeral(b.mode.value));
      Decimals.NumeralInjective(a.mode.value, b.mode.value);
    }
  }

  function EntriesOf(codec: Codec, repo: map<string, File>, paths: seq<string>): Option<seq<Json>> {
    if paths == [] then Some([])
    else
      var n := |paths| - 1;
      var before := EntriesOf(codec, repo, paths[..n]);
      if before.None? || paths[n] !in repo then None
      else
        var entry := FileEntry(codec, paths[n], repo[paths[n]]);
        if entry.Some? then Some(before.value + [EntryJson(entry.value)]) else None
  }

  function OutsideEntry(codec: Codec, catalog: Catalog): seq<Json> {
    match catalog
    case Inside(_) => []
    case Outside(path, bytes) => [EntryJson(Entry(path, codec.sha256(bytes), false, None))]
  }

  /** No subject when a provider manifest cannot be hashed. */
  function SubjectOf(codec: Codec, repo: map<string, File>, catalog: Catalog): Option<string> {
    var entries := EntriesOf(codec, repo, codec.sorted(SubjectPaths(repo, catalog)));
    if entries.None? then None else CanonicalSha256(codec, Arr(entries.value + OutsideEntry(codec, catalog)))
  }

  /** The entry of one file; none when it is a provider manifest that cannot be hashed. */
  method EntryOf(codec: Codec, path: string, file: File) returns (entry: Option<Entry>)
    ensures entry == FileEntry(codec, path, file)
  {
    var mode := if IsLauncher(path) then Some(file.mode) else None;
    if IsProviderManifest(path) {
      var semantic := ProviderManifestSemanticSha256(codec, file.bytes);
      if semantic.None? {
        return None;
      }
      entry := Some(Entry(path, semantic.value, true, mode));
    } else {
      entry := Some(Entry(path, codec.sha256(file.bytes), false, mode));
    }
  }

  lemma EntriesNext(codec: Codec, repo: map<string, File>, paths: seq<string>, k: nat)
    requires k < |paths|
    ensures var before := EntriesOf(codec, repo, paths[..k]);
            before.Some? ==>
              EntriesOf(codec, repo, paths[..k + 1]) ==
              if paths[k] in repo && FileEntry(codec, paths[k], repo[paths[k]]).Some?
              then Some(before.value + [EntryJson(FileEntry(codec, paths[k], repo[paths[k]]).value)]) else None
  {
    hide FileEntry, EntryJson;
    assert paths[..k + 1][..k] == paths[..k];
  }

  lemma SubjectIs(codec: Codec, repo: map<string, File>, catalog: Catalog)
    ensures var entries := EntriesOf(codec, repo, codec.sorted(SubjectPaths(repo, catalog)));
            SubjectOf(codec, repo, catalog) ==
            if entries.None? then None else CanonicalSha256(codec, Arr(entries.value + OutsideEntry(codec, catalog)))
  {
    hide EntriesOf, SubjectPaths, CanonicalSha256, OutsideEntry;
  }

  /** No subject when a provider manifest cannot be hashed. */
  method SemanticSubject(codec: Codec, repo: map<string, File>, catalog: Catalog) returns (digest: Option<string>)
    ensures digest == SubjectOf(codec, repo, catalog)
  {
    hide *;
    SubjectIs(codec, repo, catalog);
    var paths := codec.sorted(SubjectPaths(repo, catalog));
    var entries := [];
    NothingYet(codec, repo);
    for k := 0 to |paths|
      invariant EntriesOf(codec, repo, paths[..k]) == Some(entries)
    {
      EntriesNext(codec, repo, paths, k);
      NoEntries(codec, repo, paths, k + 1);
      if paths[k] !in repo {
        return None;
      }
      var entry := EntryOf(codec, paths[k], repo[paths[k]]);
      if entry.None? {
        return None;
      }
      entries := entries + [EntryJson(entry.value)];
    }
    assert paths[..|paths|] == paths;
    digest := CanonicalSha256(codec, Arr(entries + OutsideEntry(codec, catalog)));
  }

  lemma NothingYet(codec: Codec, repo: map<string, File>)
    ensures EntriesOf(codec, repo, []) == Some([])
  {
  }

  lemma {:induction false} NoEntries(codec: Codec, repo: map<string, File>, paths: seq<string>, k: nat)
    requires k <= |paths|
    ensures EntriesOf(codec, repo, paths[..k]).None? ==> EntriesOf(codec, repo, paths).None?
    decreases |paths| - k
  {
    if k < |paths| {
      assert paths[..k + 1][..k] == paths[..k];
      NoEntries(codec, repo, paths, k + 1);
    } else {
      assert paths[..k] == paths;
    }
  }

  // What the subject binds.

  ghost predicate SameFile(codec: Codec, path: string, f: File, g: File) {
    && (IsLauncher(path) ==> f.mode == g.mode)
    && if IsProviderManifest(path)
       then ProviderManifest(codec, f.bytes).Some? && ProviderManifest(codec, g.bytes).Some?
            && SameButClaims(ProviderManifest(codec, f.bytes).value, ProviderManifest(codec, g.bytes).value)
       else f.bytes == g.bytes
  }

  ghost predicate SameSubjectFiles(codec: Codec, r: map<string, File>, s: map<string, File>, catalog: Catalog) {
    && SubjectPaths(r, catalog) == SubjectPaths(s, catalog)
    && forall path :: path in SubjectPaths(r, catalog) ==> SameFile(codec, path, r[path], s[path])
  }

  lemma EntryBinds(codec: Codec, path: string, f: File, g: File)
    requires CollisionFree(codec) && FileEntry(codec, path, f).Some?
    ensures FileEntry(codec, path, g) == FileEntry(codec, path, f) <==> SameFile(codec, path, f, g)
  {
    if IsProviderManifest(path) && ProviderManifest(codec, g.bytes).Some? {
      var m, n := ProviderManifest(codec, f.bytes).value, ProviderManifest(codec, g.bytes).value;
      DetachBlindToClaims(m, n);
      assert codec.canonical(Detach(m)) == codec.canonical(Detach(n)) ==> Detach(m) == Detach(n);
    }
  }

  lemma {:induction false} EntriesKnown(codec: Codec, repo: map<string, File>, paths: seq<string>, k: nat)
    requires k < |paths| && EntriesOf(codec, repo, paths).Some?
    ensures |EntriesOf(codec, repo, paths).value| == |paths|
    ensures paths[k] in repo && FileEntry(codec, paths[k], repo[paths[k]]).Some?
    ensures EntriesOf(codec, repo, paths).value[k] == EntryJson(FileEntry(codec, paths[k], repo[paths[k]]).value)
    decreases |paths|
  {
    hide FileEntry;
    var n := |paths| - 1;
    if k < n {
      EntriesKnown(codec, repo, paths[..n], k);
    } else if n > 0 {
      EntriesKnown(codec, repo, paths[..n], 0);
    }
  }

  lemma {:induction false} EntriesEqual(codec: Codec, r: map<string, File>, s: map<string, File>, paths: seq<string>)
    requires forall k :: 0 <= k < |paths| ==>
               paths[k] in r && paths[k] in s && FileEntry(codec, paths[k], r[paths[k]]) == FileEntry(codec, paths[k], s[paths[k]])
    ensures EntriesOf(codec, r, paths) == EntriesOf(codec, s, paths)
    decreases |paths|
  {
    if paths != [] {
      EntriesEqual(codec, r, s, paths[..|paths| - 1]);
    }
  }

  /** Files outside the subject, and claimed digests inside it, do not move the subject. */
  lemma SameFilesSameSubject(codec: Codec, r: map<string, File>, s: map<string, File>, catalog: Catalog)
    requires CollisionFree(codec) && SortsSets(codec) && SubjectOf(codec, r, catalog).Some?
    requires SameSubjectFiles(codec, r, s, catalog)
    ensures SubjectOf(codec, s, catalog) == SubjectOf(codec, r, catalog)
  {
    var paths := codec.sorted(SubjectPaths(r, catalog));
    assert Elements(paths) == SubjectPaths(r, catalog);
    forall k | 0 <= k < |paths|
      ensures paths[k] in r && paths[k] in s && FileEntry(codec, paths[k], r[paths[k]]) == FileEntry(codec, paths[k], s[paths[k]])
    {
      assert paths[k] in Elements(paths);
      assert paths[k] in SubjectPaths(s, catalog);
      EntriesKnown(codec, r, paths, k);
      EntryBinds(codec, paths[k], r[paths[k]], s[paths[k]]);
    }
    EntriesEqual(codec, r, s, paths);
  }

  lemma EntryJsonShallow(codec: Codec, repo: map<string, File>, paths: seq<string>, catalog: Catalog)
    requires EntriesOf(codec, repo, paths).Some?
    ensures HeightWithin(Arr(EntriesOf(codec, repo, paths).value + OutsideEntry(codec, catalog)), MAX_JSON_DEPTH)
  {
    var entries := EntriesOf(codec, repo, paths).value + OutsideEntry(codec, catalog);
    forall k | 0 <= k < |entries|
      ensures HeightWithin(entries[k], MAX_JSON_DEPTH - 1)
    {
      if k < |EntriesOf(codec, repo, paths).value| {
        EntriesLength(codec, repo, paths);
        EntriesKnown(codec, repo, paths, k);
        EntryHeight(FileEntry(codec, paths[k], repo[paths[k]]).value);
      } else {
        assert catalog.Outside?;
        EntryHeight(Entry(catalog.path, codec.sha256(catalog.bytes), false, None));
      }
    }
  }

  lemma {:induction false} EntriesLength(codec: Codec, repo: map<string, File>, paths: seq<string>)
    requires EntriesOf(codec, repo, paths).Some?
    ensures |EntriesOf(codec, repo, paths).value| == |paths|
    decreases |paths|
  {
    if paths != [] {
      EntriesLength(codec, repo, paths[..|paths| - 1]);
    }
  }

  lemma EntryHeight(entry: Entry)
    ensures HeightWithin(EntryJson(entry), MAX_JSON_DEPTH - 1)
  {
    var fields := EntryJson(entry).fields;
    assert forall key :: key in fields ==> fields[key].Str? || fields[key].Num?;
  }

  lemma SameSubjectSameEntries(codec: Codec, r: map<string, File>, s: map<string, File>, catalog: Catalog)
    requires CollisionFree(codec) && SubjectOf(codec, r, catalog).Some?
    requires SubjectOf(codec, s, catalog) == SubjectOf(codec, r, catalog)
    ensures EntriesOf(codec, r, codec.sorted(SubjectPaths(r, catalog))).Some?
    ensures EntriesOf(codec, s, codec.sorted(SubjectPaths(s, catalog))) ==
            EntriesOf(codec, r, codec.sorted(SubjectPaths(r, catalog)))
  {
    var re := EntriesOf(codec, r, codec.sorted(SubjectPaths(r, catalog))).value;
    var se := EntriesOf(codec, s, codec.sorted(SubjectPaths(s, catalog))).value;
    var outside := OutsideEntry(codec, catalog);
    assert Arr(re + outside).items == Arr(se + outside).items;
    assert |re + outside| == |se + outside|;
    forall k | 0 <= k < |re|
      ensures re[k] == se[k]
    {
      assert (re + outside)[k] == re[k] && (se + outside)[k] == se[k];
    }
    assert re == se;
  }

  lemma SameEntrySameFile(codec: Codec, r: map<string, File>, s: map<string, File>, rp: seq<string>, sp: seq<string>, k: nat)
    requires CollisionFree(codec) && EntriesOf(codec, r, rp).Some? && EntriesOf(codec, s, sp) == EntriesOf(codec, r, rp)
    requires k < |rp|
    ensures k < |sp| && rp[k] == sp[k] && rp[k] in r && rp[k] in s && SameFile(codec, rp[k], r[rp[k]], s[rp[k]])
  {
    EntriesLength(codec, r, rp);
    EntriesLength(codec, s, sp);
    EntriesKnown(codec, r, rp, k);
    EntriesKnown(codec, s, sp, k);
    EntryJsonInjective(FileEntry(codec, rp[k], r[rp[k]]).value, FileEntry(codec, sp[k], s[sp[k]]).value);
    EntryBinds(codec, rp[k], r[rp[k]], s[rp[k]]);
  }

  /** Equal subjects mean equal subject files, up to claimed digests. */
  lemma SameSubjectSameFiles(codec: Codec, r: map<string, File>, s: map<string, File>, catalog: Catalog)
    requires CollisionFree(codec) && SortsSets(codec) && SubjectOf(codec, r, catalog).Some?
    requires SubjectOf(codec, s, catalog) == SubjectOf(codec, r, catalog)
    ensures SameSubjectFiles(codec, r, s, catalog)
  {
    var rp, sp := codec.sorted(SubjectPaths(r, catalog)), codec.sorted(SubjectPaths(s, catalog));
    SameSubjectSameEntries(codec, r, s, catalog);
    EntriesLength(codec, r, rp);
    EntriesLength(codec, s, sp);
    forall k | 0 <= k < |rp|
      ensures rp[k] == sp[k] && rp[k] in r && rp[k] in s && SameFile(codec, rp[k], r[rp[k]], s[rp[k]])
    {
      SameEntrySameFile(codec, r, s, rp, sp, k);
    }
    assert rp == sp;
    assert SubjectPaths(r, catalog) == Elements(rp) == Elements(sp) == SubjectPaths(s, catalog);
    forall path | path in SubjectPaths(r, catalog)
      ensures SameFile(codec, path, r[path], s[path])
    {
      assert path in Elements(rp);
      var k :| 0 <= k < |rp| && rp[k] == path;
    }
  }

  /** The subject is exactly the subject files, up to claimed digests. */
  lemma SubjectBindsExactly(codec: Codec, r: map<string, File>, s: map<string, File>, catalog: Catalog)
    requires CollisionFree(codec) && SortsSets(codec) && SubjectOf(codec, r, catalog).Some?
    ensures SubjectOf(codec, s, catalog) == SubjectOf(codec, r, catalog) <==> SameSubjectFiles(codec, r, s, catalog)
  {
    if SameSubjectFiles(codec, r, s, catalog) {
      SameFilesSameSubject(codec, r, s, catalog);
    } else if SubjectOf(codec, s, catalog) == SubjectOf(codec, r, catalog) {
      SameSubjectSameFiles(codec, r, s, catalog);
    }
  }

  /** The only way to have no subject is a provider manifest that cannot be hashed. */
  lemma SubjectExists(codec: Codec, repo: map<string, File>, catalog: Catalog)
    requires SortsSets(codec)
    ensures SubjectOf(codec, repo, catalog).Some? <==>
            forall path :: path in SubjectPaths(repo, catalog) && IsProviderManifest(path) ==>
              ProviderSemanticSha256(codec, repo[path].bytes).Some?
  {
    var paths := codec.sorted(SubjectPaths(repo, catalog));
    assert Elements(paths) == SubjectPaths(repo, catalog);
    if EntriesOf(codec, repo, paths).Some? {
      EntryJsonShallow(codec, repo, paths, catalog);
      forall path | path in SubjectPaths(repo, catalog) && IsProviderManifest(path)
        ensures ProviderSemanticSha256(codec, repo[path].bytes).Some?
      {
        assert path in Elements(paths);
        var k :| 0 <= k < |paths| && paths[k] == path;
        EntriesKnown(codec, repo, paths, k);
      }
    } else {
      var k := EntryMissing(codec, repo, paths);
      assert paths[k] in Elements(paths);
    }
  }

  lemma {:induction false} EntryMissing(codec: Codec, repo: map<string, File>, paths: seq<string>) returns (k: nat)
    requires EntriesOf(codec, repo, paths).None?
    ensures k < |paths| && (paths[k] !in repo || FileEntry(codec, paths[k], repo[paths[k]]).None?)
    decreases |paths|
  {
    var n := |paths| - 1;
    if EntriesOf(codec, repo, paths[..n]).None? {
      k := EntryMissing(codec, repo, paths[..n]);
    } else {
      k := n;
    }
  }
}
