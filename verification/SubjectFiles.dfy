/** Which files the subject holds, by the patterns of their names. */
module SubjectFiles {
  import opened Prelude
  import opened Chain
  import opened Json
  import opened Repository
  import opened Subject
  import Decimals
  import DepthScan

  // The names.

  ghost predicate IsPython(path: string) {
    exists rest :: path == "src/openada/" + rest + ".py"
  }

  ghost predicate IsProfile(path: string) {
    exists name :: '/' !in name && path == "profiles/" + name + ".json"
  }

  ghost predicate IsSchema(path: string) {
    exists name :: '/' !in name && path == "schemas/" + name + ".json"
  }

  ghost predicate IsProviderJson(path: string) {
    exists rest :: path == "providers/" + rest + ".json"
  }

  /** A file driver-manifest.json somewhere below providers. */
  ghost predicate IsDriverManifest(path: string) {
    exists rest :: (rest == "" || rest[0] == '/') && path == "providers" + rest + "/driver-manifest.json"
  }

  ghost predicate IsOpenada(path: string) {
    exists rest :: '/' !in rest && path == "bin/openada" + rest
  }

  ghost predicate IsSemanticTool(path: string) {
    exists name :: '/' !in name && path == "tools/semantic_" + name + ".py"
  }

  ghost predicate Named(path: string, catalog: Catalog) {
    || IsPython(path) || IsProfile(path) || IsSchema(path) || IsProviderJson(path) || IsOpenada(path) || IsSemanticTool(path)
    || path == "tools/verify_semantic_coverage.py" || path == "pyproject.toml"
    || catalog == Inside(path)
  }

  lemma Joined(prefix: string, rest: string, suffix: string)
    ensures HasPrefix(prefix + rest + suffix, prefix) && HasSuffix(prefix + rest + suffix, suffix)
    ensures (prefix + rest + suffix)[|prefix|..] == rest + suffix
  {
    var path := prefix + rest + suffix;
    assert path[..|prefix|] == prefix && path[|path| - |suffix|..] == suffix;
  }

  lemma NoOverlap(path: string, prefix: string, suffix: string)
    requires HasPrefix(path, prefix) && HasSuffix(path, suffix) && suffix != "" && suffix[0] !in prefix
    ensures |prefix| + |suffix| <= |path|
  {
    var at := |path| - |suffix|;
    assert path[at..][0] == path[at];
    forall k | 0 <= k < |prefix|
      ensures path[k] != suffix[0]
    {
      assert path[..|prefix|][k] == path[k];
      assert prefix[k] in prefix;
    }
  }

  lemma Parted(path: string, prefix: string, suffix: string) returns (rest: string)
    requires HasPrefix(path, prefix) && HasSuffix(path, suffix) && suffix != "" && suffix[0] !in prefix
    ensures path == prefix + rest + suffix && rest + suffix == path[|prefix|..]
  {
    NoOverlap(path, prefix, suffix);
    rest := path[|prefix|..|path| - |suffix|];
  }

  lemma BetweenExactly(path: string, prefix: string, suffix: string)
    requires suffix != "" && suffix[0] !in prefix
    ensures HasPrefix(path, prefix) && HasSuffix(path, suffix) <==> exists rest :: path == prefix + rest + suffix
  {
    if HasPrefix(path, prefix) && HasSuffix(path, suffix) {
      var rest := Parted(path, prefix, suffix);
    }
    if rest :| path == prefix + rest + suffix {
      Joined(prefix, rest, suffix);
    }
  }

  lemma DirectlyExactly(path: string, prefix: string, suffix: string)
    requires suffix != "" && suffix[0] !in prefix && '/' !in suffix
    ensures DirectlyIn(path, prefix) && HasSuffix(path, suffix) <==> exists name :: '/' !in name && path == prefix + name + suffix
  {
    if DirectlyIn(path, prefix) && HasSuffix(path, suffix) {
      var name := Parted(path, prefix, suffix);
      assert forall c :: c in name ==> c in name + suffix;
    }
    if name :| '/' !in name && path == prefix + name + suffix {
      Joined(prefix, name, suffix);
    }
  }

  lemma InTools(name: string, path: string)
    requires path == "tools/semantic_" + name
    ensures DirectlyIn(path, "tools/") <==> '/' !in name
  {
    assert path[..6] == "tools/" && path[6..] == "semantic_" + name;
  }

  lemma ToolExactly(path: string)
    ensures DirectlyIn(path, "tools/") && HasPrefix(path, "tools/semantic_") && HasSuffix(path, ".py") <==> IsSemanticTool(path)
  {
    hide DirectlyIn, HasPrefix, HasSuffix;
    if HasPrefix(path, "tools/semantic_") && HasSuffix(path, ".py") {
      var name := Parted(path, "tools/semantic_", ".py");
      assert path == "tools/semantic_" + (name + ".py");
      InTools(name + ".py", path);
      assert '/' !in name + ".py" <==> '/' !in name;
      if IsSemanticTool(path) {
        var other :| '/' !in other && path == "tools/semantic_" + other + ".py";
        assert path == "tools/semantic_" + (other + ".py");
        InTools(other + ".py", path);
      }
    }
    if name :| '/' !in name && path == "tools/semantic_" + name + ".py" {
      Joined("tools/semantic_", name, ".py");
    }
  }

  lemma LauncherExactly(path: string)
    ensures IsLauncher(path) <==> IsOpenada(path)
  {
    if IsLauncher(path) {
      var rest := path[11..];
      assert path == "bin/openada" + rest;
      assert path[4..] == "openada" + rest;
      assert forall c :: c in rest ==> c in path[4..];
    }
    if rest :| '/' !in rest && path == "bin/openada" + rest {
      assert path[4..] == "openada" + rest && path[..4] == "bin/" && path[..11] == "bin/openada";
    }
  }

  lemma DriverExactly(path: string)
    ensures IsProviderManifest(path) <==> IsDriverManifest(path)
  {
    var suffix := "/driver-manifest.json";
    if IsProviderManifest(path) {
      assert path[..10][..9] == path[..9] == "providers" && path[..10][9] == path[9];
      var rest := Parted(path, "providers", suffix);
      assert rest == "" || rest[0] == path[9];
    }
    if rest :| (rest == "" || rest[0] == '/') && path == "providers" + rest + suffix {
      Joined("providers", rest, suffix);
      assert path[..10] == path[..9] + [path[9]] == "providers/";
    }
  }

  lemma NamesAreThese(path: string, catalog: Catalog)
    ensures InSubject(path, catalog) <==> Named(path, catalog)
  {
    BetweenExactly(path, "src/openada/", ".py");
    DirectlyExactly(path, "profiles/", ".json");
    DirectlyExactly(path, "schemas/", ".json");
    BetweenExactly(path, "providers/", ".json");
    ToolExactly(path);
    LauncherExactly(path);
    hide HasPrefix, HasSuffix, DirectlyIn, IsLauncher, IsOpenada, IsSemanticTool;
  }

  // What the subject sees of a file.

  /** The bytes decode, nest at most 64 deep and parse to this object. */
  ghost predicate Reads(codec: Codec, bytes: Bytes, json: Json) {
    && json.Obj?
    && codec.utf8(bytes).Some? && codec.loads(codec.utf8(bytes).value) == Some(json)
    && DepthScan.Within(DepthScan.START, codec.utf8(bytes).value, 64)
  }

  predicate Claims(record: Json) {
    && record.Obj? && "evidence" in record.fields
    && record.fields["evidence"].Obj? && "sha256" in record.fields["evidence"].fields
  }

  /** The two objects have the same keys, and the same values except at one key. */
  ghost predicate AgreeBut(a: map<string, Json>, b: map<string, Json>, key: string) {
    a.Keys == b.Keys && forall other :: other in a && other != key ==> a[other] == b[other]
  }

  ghost predicate AlikeButDigest(r: Json, s: Json) {
    r == s ||
    (Claims(r) && Claims(s) && AgreeBut(r.fields, s.fields, "evidence")
     && AgreeBut(r.fields["evidence"].fields, s.fields["evidence"].fields, "sha256"))
  }

  predicate ListsRecords(manifest: Json) {
    manifest.Obj? && "conformance_records" in manifest.fields && manifest.fields["conformance_records"].Arr?
  }

  /** The two manifests differ at most in the digests that their conformance records claim. */
  ghost predicate AlikeButDigests(m: Json, n: Json) {
    m == n ||
    (ListsRecords(m) && ListsRecords(n) && AgreeBut(m.fields, n.fields, "conformance_records")
     && var a, b := m.fields["conformance_records"].items, n.fields["conformance_records"].items;
        |a| == |b| && forall k :: 0 <= k < |a| ==> AlikeButDigest(a[k], b[k]))
  }

  ghost predicate AlikeManifests(codec: Codec, a: Bytes, b: Bytes) {
    exists m, n :: Reads(codec, a, m) && Reads(codec, b, n) && AlikeButDigests(m, n)
  }

  ghost predicate Alike(codec: Codec, path: string, f: File, g: File) {
    && (IsOpenada(path) ==> f.mode == g.mode)
    && if IsDriverManifest(path) then AlikeManifests(codec, f.bytes, g.bytes) else f.bytes == g.bytes
  }

  predicate Present(repo: map<string, File>, path: string) {
    path in repo && !repo[path].kind.Directory?
  }

  lemma AgreeIsRemoval(a: map<string, Json>, b: map<string, Json>, key: string)
    requires key in a && key in b
    ensures AgreeBut(a, b, key) <==> a - {key} == b - {key}
  {
    if a - {key} == b - {key} {
      assert a.Keys == (a - {key}).Keys + {key} && b.Keys == (b - {key}).Keys + {key};
      assert forall other :: other in a && other != key ==> a[other] == (a - {key})[other] && b[other] == (b - {key})[other];
    }
  }

  lemma AlikeRecords(r: Json, s: Json)
    ensures SameButClaim(r, s) <==> AlikeButDigest(r, s)
  {
    if Claims(r) && Claims(s) {
      AgreeIsRemoval(r.fields, s.fields, "evidence");
      AgreeIsRemoval(r.fields["evidence"].fields, s.fields["evidence"].fields, "sha256");
    }
    hide AgreeBut;
  }

  lemma AlikeIs(m: Json, n: Json)
    ensures SameButClaims(m, n) <==> AlikeButDigests(m, n)
  {
    hide AgreeBut, SameButClaim, AlikeButDigest;
    if HasRecords(m) && HasRecords(n) {
      AgreeIsRemoval(m.fields, n.fields, "conformance_records");
      forall k | 0 <= k < |RecordsOf(m)| && k < |RecordsOf(n)|
        ensures SameButClaim(RecordsOf(m)[k], RecordsOf(n)[k]) <==> AlikeButDigest(RecordsOf(m)[k], RecordsOf(n)[k])
      {
        AlikeRecords(RecordsOf(m)[k], RecordsOf(n)[k]);
      }
    }
  }

  lemma ReadsIs(codec: Codec, bytes: Bytes)
    ensures ProviderManifest(codec, bytes).Some? ==> Reads(codec, bytes, ProviderManifest(codec, bytes).value)
    ensures forall json :: Reads(codec, bytes, json) ==> ProviderManifest(codec, bytes) == Some(json)
  {
    hide DepthScan.Within;
  }

  lemma SameIsAlike(codec: Codec, path: string, f: File, g: File)
    ensures SameFile(codec, path, f, g) <==> Alike(codec, path, f, g)
  {
    LauncherExactly(path);
    DriverExactly(path);
    ReadsIs(codec, f.bytes);
    ReadsIs(codec, g.bytes);
    if ProviderManifest(codec, f.bytes).Some? && ProviderManifest(codec, g.bytes).Some? {
      AlikeIs(ProviderManifest(codec, f.bytes).value, ProviderManifest(codec, g.bytes).value);
    }
    hide IsLauncher, IsOpenada, IsProviderManifest, IsDriverManifest, Reads, ProviderManifest, SameButClaims, AlikeButDigests;
  }

  /** The subject holds the files of these names and no others. */
  ghost predicate AlikeAt(codec: Codec, r: map<string, File>, s: map<string, File>, path: string) {
    (Present(r, path) <==> Present(s, path)) && (Present(r, path) && Present(s, path) ==> Alike(codec, path, r[path], s[path]))
  }

  lemma SubjectHoldsNamedFiles(codec: Codec, r: map<string, File>, s: map<string, File>, catalog: Catalog)
    requires CollisionFree(codec) && SortsSets(codec) && SubjectOf(codec, r, catalog).Some?
    ensures SubjectOf(codec, s, catalog) == SubjectOf(codec, r, catalog) <==>
            forall path :: Named(path, catalog) ==> AlikeAt(codec, r, s, path)
  {
    SubjectBindsExactly(codec, r, s, catalog);
    hide SubjectOf, InSubject, Named, SameFile, Alike, CollisionFree, SortsSets;
    forall path
      ensures path in SubjectPaths(r, catalog) <==> Present(r, path) && Named(path, catalog)
      ensures path in SubjectPaths(s, catalog) <==> Present(s, path) && Named(path, catalog)
      ensures Present(r, path) && Present(s, path) ==> (SameFile(codec, path, r[path], s[path]) <==> Alike(codec, path, r[path], s[path]))
    {
      NamesAreThese(path, catalog);
      if Present(r, path) && Present(s, path) {
        SameIsAlike(codec, path, r[path], s[path]);
      }
    }
    hide SubjectPaths;
  }

  lemma SelfAlike(codec: Codec, r: map<string, File>, catalog: Catalog, path: string)
    requires CollisionFree(codec) && SortsSets(codec) && SubjectOf(codec, r, catalog).Some?
    requires Named(path, catalog)
    ensures AlikeAt(codec, r, r, path)
  {
    SubjectHoldsNamedFiles(codec, r, r, catalog);
  }

  /** One write moves the subject unless its name is none of these, or the subject sees the same of the file before and after. */
  lemma WriteMovesSubject(codec: Codec, repo: map<string, File>, catalog: Catalog, path: string, file: File)
    requires CollisionFree(codec) && SortsSets(codec) && SubjectOf(codec, repo, catalog).Some?
    ensures SubjectOf(codec, repo[path := file], catalog) == SubjectOf(codec, repo, catalog) <==>
            (Named(path, catalog) ==> AlikeAt(codec, repo, repo[path := file], path))
  {
    var later := repo[path := file];
    SubjectHoldsNamedFiles(codec, repo, later, catalog);
    forall p | Named(p, catalog) && p != path
      ensures AlikeAt(codec, repo, later, p)
    {
      SelfAlike(codec, repo, catalog, p);
    }
    hide SubjectOf, Named, CollisionFree, SortsSets, Alike;
  }

  /** New bytes move the subject at each of these names, and so does a new file. */
  lemma NewBytesMoveSubject(codec: Codec, repo: map<string, File>, catalog: Catalog, path: string, file: File)
    requires CollisionFree(codec) && SortsSets(codec) && SubjectOf(codec, repo, catalog).Some?
    requires !file.kind.Directory? && (path in repo && !repo[path].kind.Directory? ==> file.bytes != repo[path].bytes)
    requires || (exists rest :: path == "src/openada/" + rest + ".py")
             || (exists name :: '/' !in name && path == "profiles/" + name + ".json")
             || (exists name :: '/' !in name && path == "schemas/" + name + ".json")
             || (exists rest :: path == "providers/" + rest + ".json" && forall dirs :: path != dirs + "/driver-manifest.json")
             || (exists rest :: '/' !in rest && path == "bin/openada" + rest)
             || (exists name :: '/' !in name && path == "tools/semantic_" + name + ".py")
             || path == "tools/verify_semantic_coverage.py" || path == "pyproject.toml"
             || (catalog == Inside(path) && forall dirs :: path != dirs + "/driver-manifest.json")
    ensures SubjectOf(codec, repo[path := file], catalog) != SubjectOf(codec, repo, catalog)
  {
    WriteMovesSubject(codec, repo, catalog, path, file);
    if IsDriverManifest(path) {
      DriversAreApart(path);
    }
    hide SubjectOf, CollisionFree, SortsSets, IsDriverManifest, AlikeManifests;
  }

  lemma DriverBegins(path: string)
    requires IsDriverManifest(path)
    ensures |path| > 3 && path[0] == 'p' && path[3] == 'v'
    ensures IsProviderJson(path) && exists dirs :: path == dirs + "/driver-manifest.json"
  {
    var rest :| (rest == "" || rest[0] == '/') && path == "providers" + rest + "/driver-manifest.json";
    assert path == ("providers" + rest) + "/driver-manifest.json";
    if rest == "" {
      assert path == "providers/" + "driver-manifest" + ".json";
    } else {
      assert path == "providers/" + (rest[1..] + "/driver-manifest") + ".json";
    }
  }

  lemma DriversAreApart(path: string)
    requires IsDriverManifest(path)
    ensures !IsPython(path) && !IsProfile(path) && !IsSchema(path) && !IsOpenada(path) && !IsSemanticTool(path)
    ensures path != "tools/verify_semantic_coverage.py" && path != "pyproject.toml"
    ensures IsProviderJson(path) && exists dirs :: path == dirs + "/driver-manifest.json"
  {
    DriverBegins(path);
    hide IsDriverManifest, IsProviderJson;
    forall rest
      ensures path != "src/openada/" + rest + ".py" && path != "profiles/" + rest + ".json" && path != "schemas/" + rest + ".json"
      ensures path != "bin/openada" + rest && path != "tools/semantic_" + rest + ".py"
    {
      assert ("src/openada/" + rest + ".py")[0] == 's' && ("profiles/" + rest + ".json")[3] == 'f' && ("schemas/" + rest + ".json")[0] == 's';
      assert ("bin/openada" + rest)[0] == 'b' && ("tools/semantic_" + rest + ".py")[0] == 't';
    }
  }

  /** A new mode moves the subject at a launcher. */
  lemma LauncherModeMovesSubject(codec: Codec, repo: map<string, File>, catalog: Catalog, rest: string, file: File)
    requires CollisionFree(codec) && SortsSets(codec) && SubjectOf(codec, repo, catalog).Some?
    requires '/' !in rest && !file.kind.Directory?
    requires var path := "bin/openada" + rest;
             path in repo && !repo[path].kind.Directory? && file.mode != repo[path].mode
    ensures SubjectOf(codec, repo["bin/openada" + rest := file], catalog) != SubjectOf(codec, repo, catalog)
  {
    WriteMovesSubject(codec, repo, catalog, "bin/openada" + rest, file);
    hide SubjectOf, CollisionFree, SortsSets, AlikeManifests;
  }

  /** A provider's driver manifest moves the subject except by digests that its records claim. */
  lemma DriverMovesSubject(codec: Codec, repo: map<string, File>, catalog: Catalog, rest: string, file: File)
    requires CollisionFree(codec) && SortsSets(codec) && SubjectOf(codec, repo, catalog).Some?
    requires (rest == "" || rest[0] == '/') && !file.kind.Directory?
    requires var path := "providers" + rest + "/driver-manifest.json";
             path in repo && !repo[path].kind.Directory?
    ensures var path := "providers" + rest + "/driver-manifest.json";
            SubjectOf(codec, repo[path := file], catalog) == SubjectOf(codec, repo, catalog) <==>
            AlikeManifests(codec, repo[path].bytes, file.bytes)
  {
    var path := "providers" + rest + "/driver-manifest.json";
    WriteMovesSubject(codec, repo, catalog, path, file);
    assert IsDriverManifest(path);
    DriversAreApart(path);
    hide SubjectOf, CollisionFree, SortsSets, AlikeManifests, IsOpenada, IsDriverManifest, IsProviderJson;
  }

  /** Nothing that is written, removed or changed in mode under another name moves the subject, and no mode but a launcher's. */
  lemma OtherNamesNeverMoveSubject(codec: Codec, r: map<string, File>, s: map<string, File>, catalog: Catalog)
    requires CollisionFree(codec) && SortsSets(codec) && SubjectOf(codec, r, catalog).Some?
    requires forall path ::
               || (path in r && path in s && r[path].bytes == s[path].bytes && r[path].kind == s[path].kind
                   && (r[path].mode == s[path].mode || !IsOpenada(path)))
               || (path !in r && path !in s)
               || (&& (forall rest :: path != "src/openada/" + rest + ".py")
                   && (forall name :: path == "profiles/" + name + ".json" ==> '/' in name)
                   && (forall name :: path == "schemas/" + name + ".json" ==> '/' in name)
                   && (forall rest :: path != "providers/" + rest + ".json")
                   && (forall rest :: path == "bin/openada" + rest ==> '/' in rest)
                   && (forall name :: path == "tools/semantic_" + name + ".py" ==> '/' in name)
                   && path != "tools/verify_semantic_coverage.py" && path != "pyproject.toml" && catalog != Inside(path))
    ensures SubjectOf(codec, s, catalog) == SubjectOf(codec, r, catalog)
  {
    forall path | Named(path, catalog)
      ensures AlikeAt(codec, r, s, path)
    {
      SelfAlike(codec, r, catalog, path);
      hide SubjectOf, CollisionFree, SortsSets, AlikeManifests, IsDriverManifest;
    }
    hide Named, AlikeAt, IsOpenada;
    SubjectHoldsNamedFiles(codec, r, s, catalog);
  }

  // What is digested.

  /** The manifest with every claimed digest overwritten. */
  ghost predicate Overwritten(m: Json, d: Json) {
    && AlikeButDigests(m, d)
    && (ListsRecords(m) ==>
          forall record :: record in d.fields["conformance_records"].items && Claims(record) ==>
            record.fields["evidence"].fields["sha256"] == Str("@detached-semantic-chain-run-sha256@"))
  }

  ghost predicate DigestsManifest(codec: Codec, bytes: Bytes, digest: string) {
    exists m, d :: Reads(codec, bytes, m) && Overwritten(m, d) && digest == codec.canonical(d)
  }

  ghost predicate IsEntry(codec: Codec, entry: Json, path: string, file: File) {
    && entry.Obj?
    && entry.fields.Keys == {"path", "sha256", "digest_policy"} + (if IsOpenada(path) then {"executable_mode"} else {})
    && entry.fields["path"] == Str(path)
    && (IsOpenada(path) ==> entry.fields["executable_mode"] == Num(Decimals.Numeral(file.mode)))
    && entry.fields["sha256"].Str?
    && if IsDriverManifest(path)
       then DigestsManifest(codec, file.bytes, entry.fields["sha256"].text)
            && entry.fields["digest_policy"] == Str("provider-semantics-detached-run-digest")
       else entry.fields["sha256"].text == codec.sha256(file.bytes) && entry.fields["digest_policy"] == Str("exact-bytes")
  }

  lemma DetachOverwrites(m: Json)
    ensures Overwritten(m, Detach(m))
  {
    var d := Detach(m);
    DetachBlindToClaims(m, d);
    AlikeIs(m, d);
    if HasRecords(m) {
      DetachTwice(m);
      forall record | record in d.fields["conformance_records"].items && Claims(record)
        ensures record.fields["evidence"].fields["sha256"] == Str("@detached-semantic-chain-run-sha256@")
      {
        var k :| 0 <= k < |RecordsOf(d)| && RecordsOf(d)[k] == record;
      }
    }
    hide AlikeButDigests, SameButClaims;
  }

  lemma DetachRecordTwice(record: Json)
    ensures DetachRecord(DetachRecord(record)) == DetachRecord(record)
  {
    if HasClaim(record) {
      var fields := DetachRecord(record).fields;
      var evidence := fields["evidence"].fields;
      assert evidence["sha256" := DETACHED] == evidence;
      assert fields["evidence" := fields["evidence"]] == fields;
    }
  }

  lemma DetachTwice(m: Json)
    ensures Detach(Detach(m)) == Detach(m)
  {
    if HasRecords(m) {
      var ds := DetachRecords(RecordsOf(m));
      forall k | 0 <= k < |ds|
        ensures DetachRecord(ds[k]) == ds[k]
      {
        DetachRecordTwice(RecordsOf(m)[k]);
      }
      assert RecordsOf(Detach(m)) == ds;
      assert DetachRecords(ds) == ds;
      hide DetachRecord;
      assert m.fields["conformance_records" := Arr(ds)]["conformance_records" := Arr(ds)] == m.fields["conformance_records" := Arr(ds)];
    }
  }

  lemma EntryIs(codec: Codec, path: string, file: File)
    requires FileEntry(codec, path, file).Some?
    ensures IsEntry(codec, EntryJson(FileEntry(codec, path, file).value), path, file)
  {
    LauncherExactly(path);
    DriverExactly(path);
    ReadsIs(codec, file.bytes);
    if IsProviderManifest(path) {
      DetachOverwrites(ProviderManifest(codec, file.bytes).value);
    }
    hide IsLauncher, IsOpenada, IsProviderManifest, IsDriverManifest, ProviderManifest, Reads, Overwritten, Detach, HeightWithin;
  }

  ghost function NamedPaths(repo: map<string, File>, catalog: Catalog): set<string> {
    set path | path in repo && Named(path, catalog) && !repo[path].kind.Directory?
  }

  lemma PathsAreNamed(repo: map<string, File>, catalog: Catalog)
    ensures SubjectPaths(repo, catalog) == NamedPaths(repo, catalog)
  {
    hide InSubject, Named;
    forall path
      ensures InSubject(path, catalog) <==> Named(path, catalog)
    {
      NamesAreThese(path, catalog);
    }
  }

  /** The subject is the canonical digest of one entry for each named file, in sorted order, and one for a catalog elsewhere. */
  lemma SubjectIsDigest(codec: Codec, repo: map<string, File>, catalog: Catalog) returns (entries: seq<Json>)
    requires SubjectOf(codec, repo, catalog).Some?
    ensures SubjectOf(codec, repo, catalog) == Some(codec.canonical(Arr(entries)))
    ensures var paths := codec.sorted(NamedPaths(repo, catalog));
            && |entries| == |paths| + (if catalog.Outside? then 1 else 0)
            && (forall k :: 0 <= k < |paths| ==> paths[k] in repo && IsEntry(codec, entries[k], paths[k], repo[paths[k]]))
            && (catalog.Outside? ==>
                  entries[|paths|] == Obj(map["path" := Str(catalog.path), "sha256" := Str(codec.sha256(catalog.bytes)),
                                              "digest_policy" := Str("exact-bytes")]))
  {
    hide FileEntry, IsEntry, EntryJson, HeightWithin, Named, InSubject;
    PathsAreNamed(repo, catalog);
    var paths := codec.sorted(SubjectPaths(repo, catalog));
    var listed := EntriesOf(codec, repo, paths).value;
    entries := listed + OutsideEntry(codec, catalog);
    EntriesLength(codec, repo, paths);
    forall k | 0 <= k < |paths|
      ensures paths[k] in repo && IsEntry(codec, entries[k], paths[k], repo[paths[k]])
    {
      EntriesKnown(codec, repo, paths, k);
      EntryIs(codec, paths[k], repo[paths[k]]);
    }
    OutsideIs(codec, catalog);
    hide EntriesOf, SubjectPaths;
  }

  lemma OutsideIs(codec: Codec, catalog: Catalog)
    ensures OutsideEntry(codec, catalog) ==
            if catalog.Inside? then []
            else [Obj(map["path" := Str(catalog.path), "sha256" := Str(codec.sha256(catalog.bytes)), "digest_policy" := Str("exact-bytes")])]
  {
  }
}
