# Verification of the semantic release gate and its oracles

OpenADA ships semantic claims ("this operation works on this design") that must be backed by evidence
chains. A chain is a manifest (a DAG of steps that consume and produce evidence roles) and a run (the
artifacts that a clean checkout produced). The release gate reads an index of chains, decides how much
each coverage row is backed, and answers `pass`, `gaps` or `invalid`. Independent oracles recompute every
number in the evidence from the raw simulator output. This project models both and proves what they
promise.

Run `dafny verify dfyconfig.toml` in this directory. The proofs use no lemma without a proof and no
external library.

## How the model is organised

The release gate, in the order in which it works:

- `Chain`, `Json`, `Issues`, `Repository`: the typed records with the minima of their schemas, JSON values, the
  issues the gate reports, and the world it looks at. Hashing, UTF-8 decoding, JSON parsing, schema validation,
  path resolution and the checks that run code are parameters of `Repository.Env`; every theorem holds for all
  of them. The checks that run code may look at any file of the repository, and may raise; so may the resolution
  of a path.
- `Segments`, `Paths`: texts cut at slashes, and the spellings of a path that pathlib identifies.
- `StepDag`: ancestry of the step DAG in one pass.
- `Ladder`: the nested evidence levels.
- `Inventory`: the artifact inventory of a run.
- `PositiveCoverage`: the binding of covered rows to executed steps.
- `JsonPointer`: the pointer evaluator behind the agent-visible evidence.
- `DepthScan`, `DepthWalk`, `CanonicalGuard`, `RepeatedKeys`: the two depth guards, what each measures, how
  they meet at the canonical digest, and what a repeated key does to them.
- `Loader`, `Coverage`: one index record; the whole index, the evidence of each row and the claim registry.
- `Admission`: the rules of admission and of raising, written out once more field by field and file by file, and the
  proof that the loader's are these.
- `Report`, `NoBorrowing`, `RowMeaning`, `Gate`: rows updated in place; what a row's level, record list, missing list,
  claim status and gap mean in terms of the admitted records; the verdict.
- `Subject`, `SubjectFiles`: the digest of everything a run depends on, and which files those are, by name.
- `Publish`, `Fixpoint`: the index publisher, and exactly when a change of the repository, such as publishing the
  digest of a run, leaves that run admitted.
- `Witness`: a small repository with one admitted record, and three publications of it, of which one ends resolved.

The oracles:

- `RawPayload`, `XyceAscii`: the binary and the ASCII form of a raw file.
- `Crossings`, `Sampling`, `Settling`, `Statistics`: the ordinary measurements.
- `Unwrap`: phase unwrapping.
- `SweepGrid`: the axes that a sweep request declares.

Each method is proved equal to, or equivalent with, a function or a predicate that does not mention its
loops; the properties below are then proved of that function for all inputs, and state limits, file names, field
names and conditions themselves rather than by the name of the function. Floating-point numbers are
exact reals in the measurements and eight opaque bytes in the raw-file readers.

## What was found

- The pointer evaluator is not RFC 6901 on every pointer. An array token of digits outside ASCII passes
  `isdigit` and is then read as a number, or makes `int` raise, as does a numeral of more digits than the
  interpreter reads. `PointerAgreesWithRfc` shows that these are the only disagreements; `ForeignNumeralsExist`
  has two such tokens.
- The gate can end without a report. Nothing catches what `int` raises in a pointer, what `resolve` raises for an
  index reference with a null byte or for a loop of links, nor the IsADirectoryError of hashing an artifact whose
  path names a directory (`NullByteRaises`, `DirectoryEvidenceRaises`); a provider manifest that cannot be hashed
  ends it too. `Gate.BuildReport` and `Loader.LoadRecord` say exactly when.
- The check for a digest cycle compares spellings of contract paths. A contract spelled
  `providers/./driver-manifest.json` escapes it (`AliasedContractEscapes` is an admitted record with one), and so
  do step references and artifacts. `CycleCheckComparesSpellings` gives the exact condition. The check for reused
  artifact paths compares spellings too: any sound run stays sound when a file is listed again under another
  spelling (`OtherSpellingIsNotReuse`; `EvidenceListedTwice` is a run). Two checks are still never backed by one file.
- A release verifier may read the provider manifest itself. The shipped one for the inverter chain does: it
  compares the file's bytes with a digest in its own run metadata
  (conformance/ihp-inverter-agent-chain/verify.py:2899-2903 and :730), so a new claim makes that chain fail in
  release mode although no contract, step or artifact names the file. `VerifierReadsProviderManifest` is a record of
  this kind.
- So publishing a claim does not always end resolved: `ThreePublications` has one publication that does, one with a
  contract of another spelling and one with such a verifier that do not. `RecordDependsOnly` and `WriteKeepsRecord`
  give the exact condition for every record and every change of the repository: the subject files up to claimed
  digests, the files that the record refers to and hashes, and the verdict of its verifiers on the new state.
- The list of missing evidence pools the best records of a row; the gap does not. `MissingListPoolsRecords`
  is a row with a gap and nothing missing, and `MissingListMisleads` says exactly when that happens.
- The text scan counts brackets and accepts a scalar at any limit; the object walk counts a scalar as a level. A
  provider manifest with a number in 63 nested arrays passes the scan and has no canonical digest
  (`DeepScalarHasNoDigest`); a text that passes the scan has none exactly when its height is 65 (`ScanBeforeDigest`).
- Provider manifests are parsed by plain `json.loads`, which keeps the last value of a repeated key, in the place of
  the first (`PrunedIsDictionary`). The scan sees what is replaced and the walk does not (`RepeatedKeyDriftsApart`,
  `WalkMissesReplaced`).
- A sample that touches a threshold can break the alternation of rises and falls (`TouchingBreaksAlternation`);
  `CrossingsAlternate` gives the exact condition.
- A DC grid may end beyond its declared stop (`OvershootExample`): exactly when the span is rounded up to a close
  integer (`DcAxisOvershoots`).

## Model

| member | source | states |
|---|---|---|
| `StepDag.StepAncestorIds` | tools/verify_semantic_coverage.py:1457-1473 | the one-pass dictionaries hold, for each step, the union over its consumed roles of the first producer and that producer's own lineage |
| `StepDag.AncestorClosure` | tools/verify_semantic_coverage.py:1457-1473 | on a step list that passes the role checks, an id is an ancestor exactly when a path of producer-to-consumer edges leads from its step: the pass computes the transitive closure |
| `StepDag.AncestorOrder` | tools/verify_semantic_coverage.py:2234-2301 | ancestry is irreflexive, points only to earlier steps, and is transitively closed |
| `Ladder.LevelForEvidence` | tools/verify_semantic_coverage.py:2019-2024 | the scan over the levels returns the level that is at least l exactly when all evidence required for l is present |
| `Ladder.LevelReached` | tools/verify_semantic_coverage.py:108-125 | because the requirements are nested, level l is reached exactly when its required evidence is a subset |
| `Ladder.LevelMonotone` | tools/verify_semantic_coverage.py:2019-2024 | more evidence never lowers a level |
| `Ladder.ReplayEvidenceIsRowSpecific` | tools/verify_semantic_coverage.py:1405-1429 | a row is agent-ready exactly when all nine checks are true and both a negative and a tamper replay cover that very row |
| `Ladder.RecordEvidenceExactly` | tools/verify_semantic_coverage.py:1405-1429 | a piece of evidence counts for a row exactly when its check is true and, if it is a replay check, some replay of that kind covers the row |
| `Ladder.LevelsMean` | tools/verify_semantic_coverage.py:108-125 | what each of the four levels demands, check by check |
| `Ladder.LowerLevelsNeedNoReplay` | tools/verify_semantic_coverage.py:1425-1428 | below agent-ready the true checks decide, whatever rows the replays cover |
| `Ladder.OneReplayKindIsNotEnough` | tools/verify_semantic_coverage.py:1405-1429 | nine true checks and one kind of replay for the row make it workflow-validated |
| `Inventory.ReusedPositions` | tools/verify_semantic_coverage.py:1557-1755 | grouping positions by key finds all positions that share a key, and reports nothing exactly when keys are distinct |
| `Inventory.OriginProblem` | tools/verify_semantic_coverage.py:1557-1755 | no problem exactly when the artifact comes from a step of the kind its role demands that produces the named output (or is a declared replay) |
| `Paths.SegmentIsDropped` | tools/verify_semantic_coverage.py:1618-1619 | two spellings that differ by one segment are one path exactly when that segment is empty or a dot |
| `Inventory.RunArtifactIssues` | tools/verify_semantic_coverage.py:1557-1755 | raises exactly when some artifact path cannot be resolved or names what cannot be opened; otherwise no issue exactly when spellings and trust digests are not reused, every path is canonical, every file has its size and digest and origin, every true check is backed, and true replay checks are complete |
| `Inventory.ReplayBijection` | tools/verify_semantic_coverage.py:1557-1755 | a true replay check is a bijection between declared replay ids and artifacts of its role |
| `Inventory.ChecksDoNotShareFiles` | tools/verify_semantic_coverage.py:1557-1755 | two checks are never backed by one file, nor by two files with the same bytes |
| `Inventory.SharedFileHasTwoSpellings` | tools/verify_semantic_coverage.py:1586-1615 | in a sound inventory two artifacts share a file only under two spellings, and never both as evidence for a check |
| `Inventory.OtherSpellingIsNotReuse` | tools/verify_semantic_coverage.py:1586-1615 | any sound run stays sound when one of its files is listed once more under another spelling and without a trust role |
| `PositiveCoverage.PositiveCoverageIssues` | tools/verify_semantic_coverage.py:1476-1554 | no issue exactly when declared rows are the exercised rows and each known row has a covering step of its execution class and a covering step among the ancestors of the result step |
| `PositiveCoverage.BoundRowHasEvidencePath` | tools/verify_semantic_coverage.py:1438-1554 | such a row has a real path of role edges from a covering step to the result step and, for an artifact kernel, from a native command to a covering derived step |
| `JsonPointer.JsonPointerExists` | tools/verify_semantic_coverage.py:1758-1775 | the token loop computes the recursive evaluation of the split and decoded pointer, ValueError included |
| `JsonPointer.RenderedTokens` | tools/verify_semantic_coverage.py:1758-1762 | split and the two replaces undo the escaping and joining of section 3 of RFC 6901, for every nonempty token list |
| `JsonPointer.PointerAgreesWithRfc` | tools/verify_semantic_coverage.py:1758-1775 | the evaluator agrees with section 4 of RFC 6901 on every document exactly when no token is a non-ASCII numeral or a numeral too long for `int` |
| `JsonPointer.MisreadSomewhere` | tools/verify_semantic_coverage.py:1766-1769 | for every pointer with such a token there is a document on which the evaluator is wrong |
| `JsonPointer.ShortPointersHaveNoOverlongToken` | tools/verify_semantic_coverage.py:1766-1769 | on pointers no longer than the longest numeral, as the schema's 1024 characters are, only non-ASCII numerals are misread |
| `JsonPointer.ForeignNumeralsExist` | tools/verify_semantic_coverage.py:1767-1769 | on a host that knows one more decimal and one more digit, one token finds an item it should not and one raises |
| `DepthScan.MaxJsonDepthWithin` | tools/semantic_receipts.py:55-83 | the character loop answers whether no bracket opened outside a string takes the depth beyond the limit |
| `DepthScan.QuotedBalanced` | tools/semantic_receipts.py:66-76 | a string literal of RFC 8259 never counts, whatever brackets, quotes and escapes it holds |
| `DepthScan.ScanMeasuresBracketDepth` | tools/semantic_receipts.py:55-83 | on every RFC 8259 text, with any white space and escapes, and every limit: accepted exactly when the bracket depth is at most the limit or there is no bracket |
| `DepthWalk.PythonJsonDepthWithin` | tools/semantic_receipts.py:86-112 | the explicit stack terminates on every finite graph, `active` is always the set of pending leave markers so that removal never fails, and the answer is that of the recursive visit |
| `DepthWalk.VisitFindsLongWalks` | tools/semantic_receipts.py:86-112 | on graphs with sharing and cycles: accepted exactly when no walk longer than the limit leaves the value through distinct containers |
| `DepthWalk.WalkMeasuresHeight` | tools/semantic_receipts.py:86-112 | on the value of a JSON text, shared parts allowed: accepted exactly when the height, scalar leaves counted, is at most the limit; with repeated keys the text is first stripped of what is replaced (`RepeatedKeys.Pruned`) |
| `DepthWalk.GuardsDifferByOneLevel` | tools/semantic_receipts.py:55-112 | without repeated keys, walk acceptance at L gives scan acceptance at L, and scan acceptance at L gives walk acceptance at L + 1 exactly for limits that are not negative |
| `CanonicalGuard.WalkGuardsDigest` | tools/semantic_receipts.py:115-132 | the walk over the objects decides exactly whether the value has a canonical digest |
| `CanonicalGuard.ScanBeforeDigest` | tools/semantic_receipts.py:135-164 | a value with a digest always passes the text scan; a text that passes the scan has no digest exactly when its height is one more than the limit |
| `CanonicalGuard.DeepScalarHasNoDigest` | tools/semantic_receipts.py:135-164 | a provider manifest whose one field holds a number in 63 nested arrays is parsed and has no digest |
| `RepeatedKeys.PrunedIsDictionary` | tools/semantic_receipts.py:149-150 | what is kept of an object has each key once, in the order in which the keys came first, with its last value |
| `RepeatedKeys.InterleavedKey` | tools/semantic_receipts.py:149-150 | `{"a":1,"b":2,"a":[]}` loads as `{"a":[],"b":2}`, in this order |
| `RepeatedKeys.ScanBoundsWalk` | tools/semantic_receipts.py:149-150 | for every text, repeated keys included, scan acceptance at L gives walk acceptance of the parsed value at L + 1 |
| `RepeatedKeys.WalkMissesReplaced` | tools/semantic_receipts.py:149-150 | the walk accepts and the scan refuses at L exactly when what is kept is low and what is written is deep |
| `RepeatedKeys.RepeatedKeyDriftsApart` | tools/semantic_receipts.py:149-150 | a text with a repeated key that the scan refuses at 3 and whose value the walk accepts at 2 |
| `RepeatedKeys.ScanBoundsDigest` | tools/semantic_receipts.py:135-164 | a text one level below the limit has a digest, repeated keys included |
| `Repository.LoadJson` | tools/verify_semantic_coverage.py:260-293 | the object in a file exactly when the file is regular, bounded, decodable, shallow enough, parses and is an object |
| `Loader.RecordShapeIssues` | tools/verify_semantic_coverage.py:2112-2164 | no issue exactly when the record has its keys, a bounded id, distinct known conformance ids, and two well-formed references |
| `Loader.LoadFiles` | tools/verify_semantic_coverage.py:2165-2219 | raises exactly when loading gets to the artifacts and one raises; otherwise no issue exactly when files, schemas, claim-cycle check, binding, freshness, attestation and inventory all hold |
| `Loader.AttestationIssues` | tools/verify_semantic_coverage.py:1888-1926 | no issue exactly when the attestation is for this run and this subject and, in release mode, a clean release at the committed revision |
| `Loader.AgentPointerIssues` | tools/verify_semantic_coverage.py:1778-1808 | raises exactly when a required pointer raises on the one agent-visible document; otherwise no issue exactly when there is one agent-visible artifact and its document has every required pointer |
| `Loader.StepIssues` | tools/verify_semantic_coverage.py:2249-2316 | raises exactly when looking at a step's files or at an oracle's source does; otherwise the pass over the role sets reports nothing exactly when references are valid, roles are produced before use and once, and an oracle consumes a native output |
| `Loader.StepInventoryIssues` | tools/verify_semantic_coverage.py:2227-2248 | no issue exactly when step ids are unique, the result step is a known independent decision, and source, native and oracle steps exist |
| `Loader.StructureIssues` | tools/verify_semantic_coverage.py:2221-2330 | raises exactly when a contract or a step does; otherwise no issue exactly when contracts, steps, positive coverage and replay coverage are sound |
| `Loader.ChainIssues` | tools/verify_semantic_coverage.py:2219-2345 | raises exactly when the provenance check, the agent evidence, a contract, a step or, if it is asked, the release verifier does; on a record without earlier issues, nothing reported exactly when the chain is sound |
| `Loader.LoadRecord` | tools/verify_semantic_coverage.py:2104-2341 | a record raises, or reports an issue and contributes nothing, or reports none and contributes itself, on every early exit; it raises exactly when loading gets as far as a reference, an artifact, a pointer, a contract, a step or a check that does |
| `Admission.AdmittedExactly` | tools/verify_semantic_coverage.py:2104-2341 | a record is admitted, and as this contribution, exactly when it is well formed, its two files hold this manifest and this run, the run is bound to the manifest, the subject and (in a release) a clean release commit, no contract is spelled like the manifest of its own claim, every artifact is on file and of a fitting step and no path or trust digest repeats, true checks are backed, replays complete, the one agent document has every pointer, steps, roles and rows are in order and evidenced, and the verifiers accept |
| `Admission.RaisesExactly` | tools/verify_semantic_coverage.py:2104-2341 | loading raises exactly when one of the two paths cannot be resolved, or loading gets to the artifacts and one cannot be resolved or is a directory, or gets past a sound inventory to a verifier, pointer, contract or step that raises |
| `Admission.DocumentExactly` | tools/verify_semantic_coverage.py:260-293 | a document is the object of a regular file of 1 byte to 16 MiB that decodes, nests at most 64 deep and parses |
| `Admission.ClassExactly` | tools/verify_semantic_coverage.py:1432-1454 | which rows need a native command and which a derived one: by declared class, then provider kind, then the six native operations, then classification |
| `Coverage.LoadAll` | tools/verify_semantic_coverage.py:2100-2348 | raises exactly when some record does; otherwise the accumulated row evidence and registry are those of the admitted records, in order, and there is no issue exactly when all are admitted and ids and claims do not repeat |
| `Coverage.LoadCoverageRecords` | tools/verify_semantic_coverage.py:2056-2348 | the same for the index file, nothing being contributed by an index that cannot be read |
| `Coverage.IndexSoundExactly` | tools/verify_semantic_coverage.py:2056-2348 | an index is sound exactly when it has the three fields, the schema and a list of at most 512 records, each admitted, without a repeated record id or registered conformance id |
| `Coverage.IndexRecordsExactly` | tools/verify_semantic_coverage.py:2056-2103 | the records are looked at whatever the schema field says, and in order; without such a list nothing is contributed |
| `Coverage.RefusedRecordContributesNothing` | tools/verify_semantic_coverage.py:2332-2341 | removing a refused record from the index changes no row's evidence and no registration |
| `Coverage.AdmittedRecordContributesAll` | tools/verify_semantic_coverage.py:2332-2341 | an admitted record adds one entry to each row it covers, none to others, and registers all its claims |
| `Coverage.EvidenceHasRecord` | tools/verify_semantic_coverage.py:2334-2335 | every entry of a row comes from one admitted record that covers the row |
| `Coverage.RegistrationHasRecord` | tools/verify_semantic_coverage.py:2336-2341 | every registered digest is that of the run of an admitted record that lists the claim |
| `Report.Row.constructor` | tools/verify_semantic_coverage.py:961-1016 | a new row is unverified, without records, gaps or resolution |
| `Report.Row.Apply` | tools/verify_semantic_coverage.py:2355-2375 | the row takes the best level among its candidates, the records at that level, the evidence they lack together, and a gap when the level is too low |
| `Report.Row.Resolve` | tools/verify_semantic_coverage.py:2391-2436 | the claim's status, the two extra missing items and the gap, the level and records being left alone |
| `Report.ApplyCoverage` | tools/verify_semantic_coverage.py:2351-2375 | every row of the list is updated with its own evidence and no other row changes |
| `Report.ResolveProviderConformanceClaims` | tools/verify_semantic_coverage.py:2378-2436 | every row of the list is resolved against its own registry entry |
| `RowMeaning.RowLevel` | tools/verify_semantic_coverage.py:2351-2365 | a row reaches a level exactly when one admitted record that covers it supports that level |
| `RowMeaning.RowListsItsRecords` | tools/verify_semantic_coverage.py:2360-2365 | a record id is listed as often as an admitted record of that id covers the row at exactly the row's level |
| `RowMeaning.RowMissesExactly` | tools/verify_semantic_coverage.py:2366-2375 | before claims a row misses exactly the required evidence that no covering record at its level has, in the order of the ladder, and has a gap exactly when its level is below the required one |
| `RowMeaning.ClaimStatus` | tools/verify_semantic_coverage.py:2391-2405 | placeholder for the all-zero digest, otherwise unresolved without a registering record, a mismatch when the last one that registers the id has another run digest, resolved when it has this one |
| `RowMeaning.ClaimAdds` | tools/verify_semantic_coverage.py:2427-2436 | a claim adds the placeholder item exactly for the all-zero digest and the registered-digest item exactly when the last registering record does not have the digest, after the rest of the list; either opens the gap; rows without a required level keep list and gap |
| `RowMeaning.RowGapExactly` | tools/verify_semantic_coverage.py:2351-2436 | no gap exactly when one covering record supports the required level and the claim, if any, names the last registered digest and is not the all-zero one |
| `NoBorrowing.GapFreeMeansOneRecordSuffices` | tools/verify_semantic_coverage.py:2351-2375 | before claims, a required row is gap-free exactly when one single record supplies all required evidence; then nothing is missing |
| `NoBorrowing.MissingListPoolsRecords` | tools/verify_semantic_coverage.py:2362-2375 | two best records can together leave nothing missing while the gap stays |
| `NoBorrowing.MissingListMisleads` | tools/verify_semantic_coverage.py:2362-2375 | nothing is missing in spite of a gap exactly when no single record suffices but the records of the best rank have all required evidence together |
| `NoBorrowing.ListedRecordsAreBest` | tools/verify_semantic_coverage.py:2359-2361 | the records listed for a row are exactly those at its level |
| `NoBorrowing.MoreRecordsNeverHurt` | tools/verify_semantic_coverage.py:2351-2375 | inserting records anywhere in the index never lowers a level and never opens a gap |
| `Gate.BuildReport` | tools/verify_semantic_coverage.py:2439-2534 | an unreadable catalog makes the report invalid and empty; otherwise there is no report exactly when deriving the rows raises, the current subject cannot be computed or the index raises, and the verdict, the gaps, the rows and the absence of issues are given in terms of the repository, its own subject and the rows |
| `Gate.PassExactly` | tools/verify_semantic_coverage.py:2476-2494 | the verdict is pass exactly when no issue was found before, row ids are distinct, the index is sound, a release has an active row, and each required row has one supporting record and, for a claim row, a claim that names the last registered digest |
| `Gate.ContextMeans` | tools/verify_semantic_coverage.py:2085-2099 | the loader is given every row under its id, the ids of all claim rows, and for each id the provider manifest of the last claim row that names one |
| `Gate.GapsAreRows` | tools/verify_semantic_coverage.py:2490 | the gaps are the ids of the rows with a gap, in row order |
| `Gate.AdmittedIsSound` | tools/verify_semantic_coverage.py:2104-2341 | an admitted record is one complete chain: files on disk with their digests, fresh run, sound inventory, agent evidence, ordered DAG with oracle and native steps, positive coverage |
| `Gate.PassingReportIsSound` | tools/verify_semantic_coverage.py:2439-2534 | in a passing report every row with a required level is carried by one record alone, with that complete chain, the required evidence for that row, and a path from a covering step to the result step |
| `Gate.PassingClaimsAreResolved` | tools/verify_semantic_coverage.py:2378-2436 | in a passing report every active provider claim names, with no placeholder, the run digest of an admitted sound chain that registers it |
| `Gate.AgentReadyRowHasNineFiles` | tools/verify_semantic_coverage.py:2439-2534 | an agent-ready row of a passing report rests on nine different files with nine different contents |
| `Gate.ClaimsNeverPromote` | tools/verify_semantic_coverage.py:2378-2390 | resolving claims changes neither level nor records and never closes a gap |
| `Subject.DetachClaims` | tools/semantic_receipts.py:155-163 | the in-place loop overwrites exactly the existing claimed digests |
| `Subject.DetachBlindToClaims` | tools/semantic_receipts.py:135-164 | two manifests detach to the same value exactly when they differ only in claimed digests that both hold |
| `Subject.ProviderManifestSemanticSha256` | tools/semantic_receipts.py:135-164 | a digest exactly when the bytes decode, nest within bounds, parse to an object and stay within the canonical depth |
| `Subject.SemanticSubject` | tools/semantic_receipts.py:205-243 | the subject is the canonical digest of one entry per subject file, with launcher modes and an outside catalog |
| `Subject.SubjectBindsExactly` | tools/semantic_receipts.py:167-243 | without hash collisions, two repositories have the same subject exactly when they have the same subject files up to claimed digests |
| `Subject.SubjectExists` | tools/semantic_receipts.py:205-243 | there is a subject exactly when every provider manifest can be hashed |
| `SubjectFiles.SubjectHoldsNamedFiles` | tools/semantic_receipts.py:167-202 | two repositories have one subject exactly when each file of the eight name patterns, and the catalog, is there in both or in neither and looks alike: mode for launchers, JSON up to claimed digests for driver manifests, bytes for the rest |
| `SubjectFiles.NewBytesMoveSubject` | tools/semantic_receipts.py:173-195 | new bytes, or a new file, under any of these names moves the subject |
| `SubjectFiles.LauncherModeMovesSubject` | tools/semantic_receipts.py:230-231 | so does a new mode of a launcher |
| `SubjectFiles.DriverMovesSubject` | tools/semantic_receipts.py:213-229 | a driver manifest moves it exactly when more than claimed digests changes |
| `SubjectFiles.OtherNamesNeverMoveSubject` | tools/semantic_receipts.py:167-202 | nothing under any other name moves it, and no mode but that of a launcher |
| `SubjectFiles.SubjectIsDigest` | tools/semantic_receipts.py:205-243 | the subject is the canonical digest of one entry per named file in sorted order, with the fields and policies of the code, and of one for a catalog elsewhere |
| `Publish.CheckPublication` | tools/semantic_publish_index.py:132-173 | accepted exactly when both files load, the run names the chain, binds its bytes and the subject, passes and attests a clean release (a number one counts as true), and the chain id is new |
| `Publish.PublishableExactly` | tools/semantic_publish_index.py:132-173 | a publication is accepted alone exactly when its manifest names a chain and its run has that chain, the digest of the manifest, the subject, status pass and a clean release attestation |
| `Publish.BuildIndex` | tools/semantic_publish_index.py:127-192 | an index is built exactly when all publications are publishable with distinct chain ids and claims, and lists them in order |
| `Publish.PublishedRecordIsFresh` | tools/semantic_publish_index.py:127-192 | a published record names valid files, binds and is fresh for the loader, and meets the attestation up to the committed revision |
| `Publish.BuiltIndexIsSound` | tools/semantic_publish_index.py:127-192 | the loader finds nothing wrong with a built index of at most 512 records exactly when each record passes the checks that only the loader makes |
| `Fixpoint.SameRowsSameRecord` | tools/verify_semantic_coverage.py:2081-2096 | a record is judged alike under two derivations of the rows with the same ids, execution classes, claim ids and provider manifests, whatever digests they claim |
| `Fixpoint.StaleRecord` | tools/verify_semantic_coverage.py:2188-2190 | under another subject an admitted record is refused, whatever the repository and the rows have become |
| `Fixpoint.RecordDependsOnly` | tools/verify_semantic_coverage.py:2104-2341 | against any other state of the repository, with subject and rows computed anew, an admitted record contributes the same or nothing: the same exactly when the subject files are the same up to claimed digests, the files it refers to and hashes stay and its verifiers accept the new state |
| `Fixpoint.WriteKeepsRecord` | tools/verify_semantic_coverage.py:2185-2190 | new bytes in one file keep a record admitted exactly when the subject sees nothing of them, the record neither refers to that file nor hashes it under any spelling, and its verifiers accept the result |
| `Fixpoint.SubjectWriteStalesRecord` | tools/verify_semantic_coverage.py:2185-2190 | new bytes in a subject file that is no provider manifest remove every admitted record |
| `Fixpoint.UnreadWriteKeepsRecord` | tools/verify_semantic_coverage.py:1929-2016 | for a file that the verifiers do not read the subject and the digests alone decide |
| `Fixpoint.CycleCheckComparesSpellings` | tools/verify_semantic_coverage.py:2027-2053 | an admitted record hashes the provider manifest of its own claim exactly through a contract of another spelling, a step reference or an artifact |
| `Witness.RecordIsAdmitted` | tools/verify_semantic_coverage.py:2104-2341 | a concrete record is admitted: its manifest has every part that the schema demands, each file its own content, the contract a file of its own or the provider manifest under another spelling, and the release verifier is any that accepts |
| `Witness.EvidenceListedTwice` | tools/verify_semantic_coverage.py:1586-1615 | a concrete run that lists one file as `evidence/result.json` and as `evidence/./result.json` passes the whole inventory |
| `Witness.NullByteRaises` | tools/verify_semantic_coverage.py:1384-1390 | an index record whose run path is a null byte raises |
| `Witness.DirectoryEvidenceRaises` | tools/verify_semantic_coverage.py:1608-1636 | so does the concrete record when its evidence path names a directory |
| `Witness.AliasedContractEscapes` | tools/verify_semantic_coverage.py:2027-2053 | with the contract of another spelling the record is admitted, hashes its own provider manifest, and is removed by any new bytes there even where the subject stays |
| `Witness.VerifierReadsProviderManifest` | conformance/ihp-inverter-agent-chain/verify.py:2899-2903 | with a release verifier that pins the provider manifest the record hashes the file nowhere and is removed by any new bytes there |
| `Fixpoint.ClaimWriteKeepsSubject` | tools/semantic_receipts.py:135-164 | writing a claimed digest into a provider manifest does not move the subject |
| `Fixpoint.OutsideWriteKeepsSubject` | tools/semantic_receipts.py:167-202 | nor does any write outside the subject paths |
| `Fixpoint.PublicationFixpoint` | tools/semantic_publish_index.py:127-192 | subject, run, claim digest, built index, written in this order: the subject has not moved, and the report row of the claim, resolved through the registry loaded from the index, is resolved exactly when the digest is not all zeros and the writes touched nothing else that the record depends on; otherwise it is a placeholder or unresolved |
| `Witness.PublicationEnds` | tools/semantic_publish_index.py:127-192 | the small repository meets every requirement of that theorem, and its claim row ends resolved exactly when the contract is a file of its own and the release verifier accepts the published state |
| `Witness.ThreePublications` | tools/semantic_publish_index.py:127-192 | three publications: one ends resolved; one with a contract of another spelling and one with a verifier that pins the provider manifest end unresolved |
| `RawPayload.WalkColumns` | conformance/ihp-analog-measurements/verify.py:114-138 | refused exactly for repeated names, a wrong length or a non-finite scalar; otherwise the named columns are the transpose of the matrix |
| `RawPayload.SliceRows` | conformance/circuit-simulate-v0alpha2/verify.py:347-365 | refused exactly for a wrong length; otherwise the matrix row by row |
| `RawPayload.StridedColumns` | conformance/ihp-inverter-agent-chain/verify.py:258-287 | as the walk, for real data |
| `RawPayload.DecodersAgree` | conformance/ihp-inverter-agent-chain/verify.py:284-287 | the three decoders give one matrix, for every size |
| `RawPayload.DecodeEncode` | conformance/circuit-simulate-v0alpha2/verify.py:347-365 | encoding then decoding any matrix, real or complex, is the identity |
| `RawPayload.EncodeDecode` | conformance/circuit-simulate-v0alpha2/verify.py:347-365 | decoding then encoding any payload of the right length is the identity |
| `RawPayload.CellBytes` | conformance/circuit-simulate-v0alpha2/verify.py:347-365 | cell j of point i is the eight bytes, or the real and the imaginary eight, at its place in the payload |
| `RawPayload.FiniteIsExponent` | conformance/ihp-analog-measurements/verify.py:122-126 | a scalar is refused exactly when the exponent field of the double is all ones |
| `XyceAscii.ParseXyceAscii` | conformance/circuit-simulate-v0alpha2/verify.py:399-426 | the cursor stays within the lines and the answer, each refusal included, is that of the record-by-record reading |
| `XyceAscii.ParseRecord` | conformance/circuit-simulate-v0alpha2/verify.py:407-422 | one record is read as specified, and acceptance consumes exactly one line per variable |
| `XyceAscii.AcceptsListings` | conformance/circuit-simulate-v0alpha2/verify.py:399-426 | accepted with a matrix exactly when the lines are blank lines and the declared records in index order, with those values, and only blank lines after |
| `XyceAscii.FieldsExactly` | conformance/circuit-simulate-v0alpha2/verify.py:407-413 | an index line splits exactly as a text without white space, white space and the rest, between white space |
| `XyceAscii.StrippedIs` | conformance/circuit-simulate-v0alpha2/verify.py:368-375 | a token loses white space and then parentheses at both ends, and nothing else |
| `XyceAscii.PairExactly` | conformance/circuit-simulate-v0alpha2/verify.py:368-375 | a complex token is exactly two texts without a comma around one comma |
| `XyceAscii.BlankExactly` | conformance/circuit-simulate-v0alpha2/verify.py:403-404 | a blank line holds nothing but the ten white-space characters |
| `XyceAscii.TextReads` | conformance/circuit-simulate-v0alpha2/verify.py:368-375 | a written value, in parentheses or not, reads back as itself |
| `XyceAscii.ReadPrint` | conformance/circuit-simulate-v0alpha2/verify.py:368-426 | printing any matrix with any blank lines and white space and reading it gives the matrix back |
| `Crossings.TimesIncrease` | conformance/ihp-inverter-agent-chain/verify.py:291-292 | comparing neighbours decides whether the whole axis is strictly increasing |
| `Crossings.CrossingPoints` | conformance/ihp-inverter-agent-chain/verify.py:1783-1794 | the points are those of the crossing segments, in order |
| `Crossings.PointOnSegment` | conformance/ihp-inverter-agent-chain/verify.py:1788-1793 | a crossing lies in its half-open segment and the interpolant there is the threshold |
| `Crossings.CrossingsIncrease` | conformance/ihp-inverter-agent-chain/verify.py:1783-1794 | on an increasing axis the crossings are strictly increasing |
| `Crossings.RisingCrossingIsFound` | conformance/ihp-inverter-agent-chain/verify.py:1783-1794 | a sample below followed later by one at or above forces a reported rise between them |
| `Crossings.FallingCrossingIsFound` | conformance/ihp-inverter-agent-chain/verify.py:1783-1794 | and conversely for falls |
| `Crossings.EitherIsBoth` | conformance/ihp-inverter-agent-chain/verify.py:1790-1793 | the crossings in either direction are exactly the rising and the falling ones |
| `Crossings.EitherCrossingIsFound` | conformance/ihp-inverter-agent-chain/verify.py:1790-1793 | a sample strictly on one side followed later by one at or across forces a reported crossing between them |
| `Crossings.ReportedCrossingIsReal` | conformance/ihp-inverter-agent-chain/verify.py:1783-1794 | a reported crossing lies on a segment that goes through the threshold in a requested direction |
| `Crossings.CrossingIsOnChord` | conformance/ihp-inverter-agent-chain/verify.py:1788-1793 | and where the chord of that segment meets the threshold |
| `Crossings.CrossingsAlternate` | conformance/ihp-inverter-agent-chain/verify.py:1789-1792 | rises and falls alternate exactly when the signal never reaches the threshold, turns back on the side it came from, and later is at or across it again |
| `Crossings.UntouchedAlternates` | conformance/ihp-inverter-agent-chain/verify.py:1789-1792 | in particular when no sample equals the threshold |
| `Crossings.TouchingBreaksAlternation` | conformance/ihp-inverter-agent-chain/verify.py:1789-1792 | four samples on which they do not |
| `Crossings.FirstEnd` | conformance/ihp-inverter-agent-chain/verify.py:1883-1884 | the first end crossing from the start on and before the next start, or none exactly when there is none |
| `Crossings.TransitionTime` | conformance/ihp-inverter-agent-chain/verify.py:1871-1885 | the reported time belongs to the requested start crossing and the first matching end |
| `Crossings.TransitionIsPositive` | conformance/ihp-inverter-agent-chain/verify.py:1871-1885 | with ordered thresholds a reported rise or fall time is positive and no other start or end lies inside it |
| `Crossings.TransitionMeans` | conformance/ihp-inverter-agent-chain/verify.py:1871-1885 | a rise time runs from the requested step up through the lower threshold to a step up through the upper one; a fall time the other way |
| `Sampling.SampleAt` | conformance/ihp-inverter-agent-chain/verify.py:1804-1817 | out of domain, exact at a sample, interpolated or missing: decided by the first sample at or beyond the coordinate |
| `Sampling.LinearSampleIsBetween` | conformance/ihp-inverter-agent-chain/verify.py:1812-1815 | linear sampling answers on the whole domain, between the neighbouring samples |
| `Sampling.SampleIsOnChord` | conformance/ihp-inverter-agent-chain/verify.py:1812-1815 | and on the chord of its segment |
| `Sampling.SampleAtCrossing` | conformance/ihp-inverter-agent-chain/verify.py:1783-1817 | sampling the signal at a reported crossing gives the threshold |
| `Settling.ScanBack` | conformance/ihp-inverter-agent-chain/verify.py:1893-1900 | the backward scan leaves the least position from which the condition holds, or none exactly when there is none |
| `Settling.SettlingIndex` | conformance/ihp-inverter-agent-chain/verify.py:1886-1903 | domain error, no settling, or the least settled index |
| `Settling.SettledOnIncreasingAxis` | conformance/ihp-inverter-agent-chain/verify.py:1892-1900 | settled means at or after the reference, every later sample within tolerance, and enough span left |
| `Statistics.ExtremeIsAttained` | conformance/ihp-inverter-agent-chain/verify.py:1833-1839 | minimum and maximum bound every sample of the window and are attained, first at the reported location |
| `Statistics.MeasuresAreOrdered` | conformance/ihp-inverter-agent-chain/verify.py:1833-1843 | the mean lies between the extremes and its square is at most the squared rms |
| `Statistics.RmsIsMeanAndDeviation` | conformance/ihp-inverter-agent-chain/verify.py:1841-1842 | times the sample count, the squared rms is the squared mean plus the sum of squared deviations from the mean |
| `Statistics.RmsIsBetweenSquares` | conformance/ihp-inverter-agent-chain/verify.py:1841-1842 | the squared rms lies between any bounds on the squares of the window |
| `Statistics.ConstantIsMeasured` | conformance/ihp-inverter-agent-chain/verify.py:1833-1842 | a signal constant at c inside the window has mean c and squared rms c times c |
| `Statistics.OneMoreSample` | conformance/ihp-inverter-agent-chain/verify.py:1818-1842 | one more sample adds itself to the total behind the mean, and its square to that behind the rms, exactly when it lies in the closed window |
| `Statistics.DenominatorPositive` | conformance/ihp-inverter-agent-chain/verify.py:1852-1854 | two samples of an increasing axis make the denominator positive |
| `Statistics.SlopeIsAlwaysFinite` | conformance/ihp-inverter-agent-chain/verify.py:1844-1860 | on an increasing axis the slope is missing only for want of two samples and never non-finite |
| `Statistics.SlopeIsLeastSquares` | conformance/ihp-inverter-agent-chain/verify.py:1846-1860 | the slope with the intercept through the means is the unique minimiser of the squared residuals over all lines |
| `Statistics.SlopeOfExactLine` | conformance/ihp-inverter-agent-chain/verify.py:1846-1860 | the slope of any exact line is recovered |
| `Statistics.LineIsMeasured` | conformance/ihp-inverter-agent-chain/verify.py:1818-1860 | so is that of a signal that is a line inside the window, whatever it is outside |
| `Unwrap.PrincipalInRange` | conformance/ihp-analog-measurements/verify.py:322-324 | the principal value lies in [-180, 180) and is congruent to the phase |
| `Unwrap.PrincipalIsUnique` | conformance/ihp-analog-measurements/verify.py:322-324 | and is the only such number |
| `Unwrap.Nearest` | conformance/ihp-analog-measurements/verify.py:343-348 | both loops terminate, within half a turn of the last value and congruent to the input |
| `Unwrap.UnwrapPhases` | conformance/ihp-analog-measurements/verify.py:341-349 | the result starts at the first phase, steps by [-180, 180) and is congruent to the input throughout |
| `Unwrap.UnwrapIsUnique` | conformance/ihp-analog-measurements/verify.py:341-349 | and is the only such sequence |
| `Unwrap.UnwrapUndoesWrap` | conformance/ihp-analog-measurements/verify.py:322-349 | unwrapping the principal values gives the phases back, up to one multiple of 360, exactly when their steps lie in [-180, 180) |
| `SweepGrid.RoundIsNearest` | conformance/circuit-simulate-v0alpha2/verify.py:548 | the rounding is to the nearest integer, ties to even |
| `SweepGrid.IntervalsExactly` | conformance/circuit-simulate-v0alpha2/verify.py:543-551 | the interval count is the floor, except for spans just short of an integer |
| `SweepGrid.DcAxisBounds` | conformance/circuit-simulate-v0alpha2/verify.py:554-566 | accepted exactly for increasing bounds; the axis starts at start, climbs, stops short of the next point, and exceeds stop by at most step times the smaller of one half and 1e-11 times the larger of one and the interval count |
| `SweepGrid.DcAxisComplete` | conformance/circuit-simulate-v0alpha2/verify.py:565-566 | every grid point up to stop is on the axis and all but the last are at most stop |
| `SweepGrid.DcAxisOvershoots` | conformance/circuit-simulate-v0alpha2/verify.py:543-566 | the last point exceeds stop exactly when the span rounds up to an integer by at most 1e-11 of that integer |
| `SweepGrid.OvershootExample` | conformance/circuit-simulate-v0alpha2/verify.py:543-566 | one step from 0 towards 0.999999999999 gives 0 and 1 |
| `SweepGrid.AlignedStopIsHit` | conformance/circuit-simulate-v0alpha2/verify.py:554-566 | a stop a whole number of steps away is the last point |
| `SweepGrid.LinearAcAxisBounds` | conformance/circuit-simulate-v0alpha2/verify.py:569-594 | the linear AC grid has the requested points, climbs from start and, past one point, ends exactly at stop |
| `SweepGrid.LinearGridIsDcGrid` | conformance/circuit-simulate-v0alpha2/verify.py:554-594 | it is the DC grid of its own step |

## Left out

- Containers, Docker, Git and other subprocesses: the release verifier, the committed subject of a revision, design provenance and the inspection of oracle sources are parameters of `Repository.Env`. A verifier is a function of the repository that accepts, refuses or raises; that it may change files or time out is not modelled.
- JSON Schema validation: a valid manifest or run is a value of the typed record. Required parts, least sizes, uniqueness, the leading slash of pointers and the role-dependent origin fields are part of the type; patterns, lengths and largest sizes are not. The names in `Witness` meet the patterns; its digests and Git names are texts of any length, since no function into 64 digits is free of collisions.
- `json.loads`, `json.dumps`, UTF-8 decoding and SHA-256: arbitrary functions; absence of collisions is assumed only in the theorems that name it, and `Witness` takes any canonical form that has none. Texts are sequences of Unicode scalar values, so one with a lone surrogate has no counterpart.
- Path resolution and symbolic links: an arbitrary function from spellings to resolved paths, to none or to an exception, which no write changes; `Witness` uses the one of a tree without links. `Repository.File` says whether a path is a regular file, one with further hard links, or nothing that can be opened.
- `Gate.BuildReport`: a file that may not be read for want of permission, or that changes while the gate runs, is not modelled.
- The surface, profile, provider and preflight inventories and the derivation of rows from the catalog: one function gives the rows and the issues found on the way, unless it raises.
- Issue texts and the sorting and deduplication of the issue list: an issue is a code and a name, and order is kept as found.
- `Report.Row.Apply`: the record ids of a row are a multiset, since the code sorts them.
- `Subject.DetachClaims`: the manifest is a value that the loop replaces, so aliasing between records is not modelled; parsed JSON has none.
- `DepthWalk.PythonJsonDepthWithin`: any finite graph of objects; object identity is a name, and what is not a mapping, list or tuple is a scalar.
- `RawPayload.WalkColumns`: header parsing and the bounds on dimensions are not modelled; a scalar is its eight bytes, least significant first.
- `XyceAscii.ParseXyceAscii`: header parsing, ASCII decoding and line splitting are not modelled; the numeric conversion is a parameter.
- `Crossings.TransitionTime`: occurrences start at 1, as the request profile demands (profiles/result.measure-v1alpha1.json:183).
- `Statistics.MeasuresAreOrdered`: rms is reported through its square, so that no root is needed.
- Rounding of IEEE doubles, `fsum` and infinities in the measurements and grids: exact reals.
- Logarithms, square roots, the DFT, and the decade and octave grids: they need transcendental reals.
- Deck flattening and transforms, container command lines, invocation lists and pin comparisons: long equality lists.
- The copies of the depth scan and of the parsers in other files, and the v0alpha1 verifier: the same algorithms again.
