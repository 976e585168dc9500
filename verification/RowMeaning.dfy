/** What the report says of a row, in terms of the admitted records themselves. */
module RowMeaning {
  import opened Prelude
  import opened Chain
  import opened Ladder
  import opened PositiveCoverage
  import opened Loader
  import opened Coverage
  import opened Report
  import opened NoBorrowing

  ghost predicate CoversRow(cs: Contributions, k: int, rowId: string) {
    0 <= k < |cs| && cs[k].Some? && rowId in cs[k].value.manifest.covers
  }

  /** The evidence of record k for the row. */
  ghost function EvidenceAt(cs: Contributions, k: int, rowId: string): set<Evidence>
    requires CoversRow(cs, k, rowId)
  {
    RecordEvidence(cs[k].value.manifest, cs[k].value.run, rowId)
  }

  ghost predicate Registers(cs: Contributions, k: int, id: string) {
    0 <= k < |cs| && cs[k].Some? && id in cs[k].value.conformanceIds
  }

  /** The last record that registers the id has this run digest. */
  ghost predicate LastRegistered(cs: Contributions, id: string, digest: string) {
    exists k :: Registers(cs, k, id) && (forall j :: k < j ==> !Registers(cs, j, id)) && cs[k].value.runSha256 == digest
  }

  predicate AllZeros(digest: string) {
    |digest| == 64 && forall c :: c in digest ==> c == '0'
  }

  // Entries and records.

  lemma {:induction false} RecordHasEntry(cs: Contributions, k: nat, rowId: string)
    requires CoversRow(cs, k, rowId)
    ensures EvidenceFrom(cs[k].value, rowId) in RowEvidences(cs, rowId)
    decreases |cs|
  {
    hide EvidenceFrom;
    var n := |cs| - 1;
    if k < n {
      RecordHasEntry(cs[..n], k, rowId);
    }
  }

  lemma EntryOf(cs: Contributions, k: int, rowId: string)
    requires CoversRow(cs, k, rowId)
    ensures EvidenceFrom(cs[k].value, rowId) ==
            RowEvidence(cs[k].value.recordId, LevelOf(EvidenceAt(cs, k, rowId)), EvidenceAt(cs, k, rowId))
  {
    hide RecordEvidence, LevelOf;
  }

  /** An entry is the evidence of a covering record, and each covering record has one. */
  lemma EntriesAreRecords(cs: Contributions, rowId: string)
    ensures forall e :: e in RowEvidences(cs, rowId) ==>
              exists k :: CoversRow(cs, k, rowId) && e == RowEvidence(cs[k].value.recordId, LevelOf(EvidenceAt(cs, k, rowId)), EvidenceAt(cs, k, rowId))
    ensures forall k :: CoversRow(cs, k, rowId) ==>
              RowEvidence(cs[k].value.recordId, LevelOf(EvidenceAt(cs, k, rowId)), EvidenceAt(cs, k, rowId)) in RowEvidences(cs, rowId)
  {
    forall e | e in RowEvidences(cs, rowId)
      ensures exists k :: CoversRow(cs, k, rowId) && e == RowEvidence(cs[k].value.recordId, LevelOf(EvidenceAt(cs, k, rowId)), EvidenceAt(cs, k, rowId))
    {
      var k := EvidenceHasRecord(cs, rowId, e);
      assert CoversRow(cs, k, rowId);
      EntryOf(cs, k, rowId);
    }
    forall k | CoversRow(cs, k, rowId)
      ensures RowEvidence(cs[k].value.recordId, LevelOf(EvidenceAt(cs, k, rowId)), EvidenceAt(cs, k, rowId)) in RowEvidences(cs, rowId)
    {
      RecordHasEntry(cs, k, rowId);
      EntryOf(cs, k, rowId);
    }
  }

  // The level.

  lemma AppliedAnyLevel(entries: seq<RowEvidence>, required: Option<Level>)
    ensures Rank(Applied(FRESH, required, entries).level) == if entries == [] then 0 else BestRank(entries)
  {
    assert forall k :: 0 <= k < |LEVELS| ==> Rank(LEVELS[k]) == k;
  }

  lemma LevelOfOutcome(cs: Contributions, spec: RowSpec)
    ensures Outcome(cs, spec).level == Applied(FRESH, spec.required, RowEvidences(cs, spec.rowId)).level
    ensures Outcome(cs, spec).recordIds == Applied(FRESH, spec.required, RowEvidences(cs, spec.rowId)).recordIds
  {
    hide Applied, RowEvidences, Registered;
  }

  /** A row reaches a level exactly when one record that covers it does. */
  lemma RowLevel(cs: Contributions, spec: RowSpec, level: Level)
    ensures Rank(Outcome(cs, spec).level) >= Rank(level) <==>
            level == Unverified || exists k :: CoversRow(cs, k, spec.rowId) && Supports(EvidenceAt(cs, k, spec.rowId), level)
  {
    hide Outcome, Applied, RowEvidences, LevelOf, EvidenceAt, Supports, CoversRow;
    var entries := RowEvidences(cs, spec.rowId);
    LevelOfOutcome(cs, spec);
    AppliedAnyLevel(entries, spec.required);
    EntriesAreRecords(cs, spec.rowId);
    if entries != [] {
      var best := BestRankIsMaximum(entries);
      LevelReached(entries[best].evidence, level);
      assert entries[best] in entries;
    }
    forall k | CoversRow(cs, k, spec.rowId)
      ensures Supports(EvidenceAt(cs, k, spec.rowId), level) ==> entries != [] && BestRank(entries) >= Rank(level)
    {
      LevelReached(EvidenceAt(cs, k, spec.rowId), level);
    }
    assert Rank(level) == 0 <==> level == Unverified;
  }

  // The listed records.

  /** How many records with this id cover the row at exactly this rank. */
  ghost function Listed(cs: Contributions, rowId: string, rank: nat, id: string): nat {
    if cs == [] then 0
    else
      var n := |cs| - 1;
      Listed(cs[..n], rowId, rank, id) +
      if CoversRow(cs, n, rowId) && cs[n].value.recordId == id && Rank(LevelOf(EvidenceAt(cs, n, rowId))) == rank then 1 else 0
  }

  lemma IdsNext(entries: seq<RowEvidence>, more: seq<RowEvidence>, rank: nat)
    requires |more| <= 1
    ensures Ids(Best(entries + more, rank)) ==
            Ids(Best(entries, rank)) + if more != [] && Rank(more[0].level) == rank then multiset{more[0].recordId} else multiset{}
  {
    var best := Best(entries, rank);
    if more == [] {
      assert entries + more == entries;
    } else {
      assert (entries + more)[..|entries|] == entries && (entries + more)[|entries|] == more[0];
      if Rank(more[0].level) == rank {
        assert (best + [more[0]])[..|best|] == best;
      } else {
        assert best + [] == best;
      }
    }
  }

  lemma {:induction false} IdsAreListed(cs: Contributions, rowId: string, rank: nat, id: string)
    ensures Ids(Best(RowEvidences(cs, rowId), rank))[id] == Listed(cs, rowId, rank, id)
  {
    hide Best, Ids, RecordEvidence, LevelOf;
    if cs != [] {
      var n := |cs| - 1;
      IdsAreListed(cs[..n], rowId, rank, id);
      IdsNext(RowEvidences(cs[..n], rowId), RowShare(cs[n], rowId), rank);
    } else {
      NoIds(rank);
    }
  }

  lemma NoIds(rank: nat)
    ensures Ids(Best([], rank)) == multiset{}
  {
  }

  /** The ids listed for a row are those of the covering records at the row's level, each as often as it occurs. */
  lemma RowListsItsRecords(cs: Contributions, spec: RowSpec, id: string)
    ensures Outcome(cs, spec).recordIds[id] == Listed(cs, spec.rowId, Rank(Outcome(cs, spec).level), id)
  {
    var entries := RowEvidences(cs, spec.rowId);
    LevelOfOutcome(cs, spec);
    AppliedAnyLevel(entries, spec.required);
    IdsAreListed(cs, spec.rowId, Rank(Outcome(cs, spec).level), id);
    hide Outcome, Best, BestRank, Ids, RowEvidences, Listed, Missing, Union;
    if entries == [] {
      NoIds(Rank(Outcome(cs, spec).level));
    }
  }

  // The missing evidence.

  predicate InEvidenceOrder(items: seq<MissingItem>) {
    && (forall i :: 0 <= i < |items| ==> items[i].Lacks?)
    && forall i, j :: 0 <= i < j < |items| ==> Place(items[i].evidence) < Place(items[j].evidence)
  }

  ghost predicate Ascending(required: seq<Evidence>) {
    forall i, j :: 0 <= i < j < |required| ==> Place(required[i]) < Place(required[j])
  }

  lemma RequiredAscends(level: Level)
    ensures Ascending(Required(level))
  {
    assert Place(EVIDENCE_ORDER[0]) == 0 && Place(EVIDENCE_ORDER[1]) == 1 && Place(EVIDENCE_ORDER[2]) == 2;
    assert Place(EVIDENCE_ORDER[3]) == 3 && Place(EVIDENCE_ORDER[4]) == 4 && Place(EVIDENCE_ORDER[5]) == 5;
    assert Place(EVIDENCE_ORDER[6]) == 6 && Place(EVIDENCE_ORDER[7]) == 7 && Place(EVIDENCE_ORDER[8]) == 8;
  }

  lemma {:induction false} MissingMembers(required: seq<Evidence>, evidence: set<Evidence>)
    ensures forall item :: item in Missing(required, evidence) <==> item.Lacks? && item.evidence in required && item.evidence !in evidence
  {
    if required != [] {
      var n := |required| - 1;
      MissingMembers(required[..n], evidence);
      assert required == required[..n] + [required[n]];
    }
  }

  lemma {:induction false} MissingInOrder(required: seq<Evidence>, evidence: set<Evidence>)
    requires Ascending(required)
    ensures InEvidenceOrder(Missing(required, evidence))
  {
    if required != [] {
      var n := |required| - 1;
      MissingInOrder(required[..n], evidence);
      MissingMembers(required[..n], evidence);
      OneMoreInOrder(Missing(required[..n], evidence), required, n);
    }
  }

  lemma OneMoreInOrder(front: seq<MissingItem>, required: seq<Evidence>, n: nat)
    requires Ascending(required) && n == |required| - 1 && InEvidenceOrder(front)
    requires forall item :: item in front ==> item.Lacks? && item.evidence in required[..n]
    ensures InEvidenceOrder(front + []) && InEvidenceOrder(front + [Lacks(required[n])])
  {
    hide Place;
    assert front + [] == front;
    forall i | 0 <= i < |front|
      ensures Place(front[i].evidence) < Place(required[n])
    {
      assert front[i] in front;
      var m :| 0 <= m < n && required[..n][m] == front[i].evidence;
    }
  }

  /** The row before its claim is resolved. */
  ghost function Unclaimed(cs: Contributions, spec: RowSpec): RowState {
    Outcome(cs, spec.(claim := None))
  }

  lemma UnclaimedIs(cs: Contributions, spec: RowSpec)
    ensures Unclaimed(cs, spec) == Applied(FRESH, spec.required, RowEvidences(cs, spec.rowId))
    ensures Unclaimed(cs, spec).level == Outcome(cs, spec).level
  {
    hide Applied, RowEvidences, Registered;
  }

  /** What some covering record at the row's own level has. */
  ghost predicate Pooled(cs: Contributions, spec: RowSpec, e: Evidence) {
    exists k :: CoversRow(cs, k, spec.rowId) && LevelOf(EvidenceAt(cs, k, spec.rowId)) == Outcome(cs, spec).level
                && e in EvidenceAt(cs, k, spec.rowId)
  }

  lemma PooledIsUnion(cs: Contributions, spec: RowSpec, e: Evidence)
    ensures var entries := RowEvidences(cs, spec.rowId);
            Pooled(cs, spec, e) <==> entries != [] && e in Union(Best(entries, BestRank(entries)))
  {
    hide Outcome, RowEvidences, LevelOf, EvidenceAt, Best, BestRank, Union, Applied;
    var entries := RowEvidences(cs, spec.rowId);
    EntriesAreRecords(cs, spec.rowId);
    LevelOfOutcome(cs, spec);
    AppliedAnyLevel(entries, spec.required);
    SameRankSameLevel();
    if entries != [] {
      BestMembers(entries, BestRank(entries));
      UnionMembers(Best(entries, BestRank(entries)));
    }
    if Pooled(cs, spec, e) {
      var k :| CoversRow(cs, k, spec.rowId) && LevelOf(EvidenceAt(cs, k, spec.rowId)) == Outcome(cs, spec).level && e in EvidenceAt(cs, k, spec.rowId);
      var entry :| entry in entries && entry.level == LevelOf(EvidenceAt(cs, k, spec.rowId)) && entry.evidence == EvidenceAt(cs, k, spec.rowId);
      UnionHasMember(Best(entries, BestRank(entries)), entry);
    }
  }

  lemma SameRankSameLevel()
    ensures forall a, b :: Rank(a) == Rank(b) ==> a == b
  {
  }

  /** Before claims the missing list is the required evidence that no covering record at the row's level has, in the order of the ladder. */
  lemma RowMissesExactly(cs: Contributions, spec: RowSpec, e: Evidence)
    ensures spec.required.None? ==> Unclaimed(cs, spec).missing == [] && !Unclaimed(cs, spec).gap
    ensures spec.required.Some? ==>
              && InEvidenceOrder(Unclaimed(cs, spec).missing)
              && (Lacks(e) in Unclaimed(cs, spec).missing <==> e in Required(spec.required.value) && !Pooled(cs, spec, e))
              && (Unclaimed(cs, spec).gap <==> Rank(Outcome(cs, spec).level) < Rank(spec.required.value))
  {
    var entries := RowEvidences(cs, spec.rowId);
    UnclaimedIs(cs, spec);
    PooledIsUnion(cs, spec, e);
    if spec.required.Some? {
      var best := if entries == [] then [] else Best(entries, BestRank(entries));
      RequiredAscends(spec.required.value);
      MissingMembers(Required(spec.required.value), Union(best));
      MissingInOrder(Required(spec.required.value), Union(best));
    }
    hide Outcome, RowEvidences, Best, BestRank, Union, Pooled, Missing, Ids;
  }

  // Claims.

  lemma {:induction false} RegistryHoldsLast(cs: Contributions, id: string)
    ensures Registered(cs, id).None? <==> forall k :: !Registers(cs, k, id)
    ensures forall digest :: LastRegistered(cs, id, digest) <==> Registered(cs, id).Some? && Registered(cs, id).value.sha256 == digest
  {
    if cs != [] {
      var n := |cs| - 1;
      var front := cs[..n];
      RegistryHoldsLast(front, id);
      RegisteredNext(cs, front, id);
      assert forall k :: Registers(front, k, id) ==> Registers(cs, k, id);
      forall digest
        ensures LastRegistered(cs, id, digest) <==> Registered(cs, id).Some? && Registered(cs, id).value.sha256 == digest
      {
        LastNext(cs, front, id, digest);
      }
      hide Registered, LastRegistered;
    } else {
      assert forall k :: !Registers(cs, k, id);
    }
  }

  /** One more record: it registers the id itself, or the registry is as before. */
  lemma RegisteredNext(cs: Contributions, front: Contributions, id: string)
    requires cs != [] && front == cs[..|cs| - 1]
    ensures forall k :: k < |front| ==> (Registers(cs, k, id) <==> Registers(front, k, id))
    ensures forall k :: Registers(cs, k, id) ==> k <= |front|
    ensures forall k :: Registers(front, k, id) ==> k < |front|
    ensures Registers(cs, |front|, id) ==> Registered(cs, id).Some? && Registered(cs, id).value.sha256 == cs[|front|].value.runSha256
    ensures !Registers(cs, |front|, id) ==> Registered(cs, id) == Registered(front, id)
  {
    assert Registers(cs, |front|, id) <==> ClaimShare(cs[|front|], id).Some?;
  }

  lemma LastNext(cs: Contributions, front: Contributions, id: string, digest: string)
    requires cs != [] && front == cs[..|cs| - 1]
    ensures LastRegistered(cs, id, digest) <==>
            if Registers(cs, |front|, id) then cs[|front|].value.runSha256 == digest else LastRegistered(front, id, digest)
  {
    RegisteredNext(cs, front, id);
    hide Registered, Registers;
    if Registers(cs, |front|, id) {
      assert forall j :: |front| < j ==> !Registers(cs, j, id);
    } else {
      LastAgree(cs, front, id, digest);
    }
  }

  lemma LastAgree(a: Contributions, b: Contributions, id: string, digest: string)
    requires forall k :: Registers(a, k, id) <==> Registers(b, k, id)
    requires forall k :: Registers(a, k, id) && Registers(b, k, id) ==> a[k] == b[k]
    ensures LastRegistered(a, id, digest) <==> LastRegistered(b, id, digest)
  {
    hide Registers;
  }

  /** The status of a claim, from the last record that registers its id. */
  lemma ClaimStatus(cs: Contributions, spec: RowSpec)
    ensures spec.claim.None? ==> Outcome(cs, spec).resolution == None
    ensures spec.claim.Some? ==>
              var id, digest, status := spec.claim.value.conformanceId, spec.claim.value.digest, Outcome(cs, spec).resolution;
              && (status == Some(PlaceholderDigest) <==> AllZeros(digest))
              && (status == Some(Unresolved) <==> !AllZeros(digest) && forall k :: !Registers(cs, k, id))
              && (status == Some(DigestMismatch) <==> !AllZeros(digest) && exists other :: other != digest && LastRegistered(cs, id, other))
              && (status == Some(Resolved) <==> !AllZeros(digest) && LastRegistered(cs, id, digest))
  {
    StatusOfOutcome(cs, spec);
    if spec.claim.Some? {
      var id := spec.claim.value.conformanceId;
      RegistryHoldsLast(cs, id);
      assert IsPlaceholder(spec.claim.value.digest) == AllZeros(spec.claim.value.digest);
      hide Outcome, IsPlaceholder, AllZeros, Registered, Registers, LastRegistered;
      if Registered(cs, id).Some? {
        assert LastRegistered(cs, id, Registered(cs, id).value.sha256);
      }
    }
  }

  lemma StatusOfOutcome(cs: Contributions, spec: RowSpec)
    ensures Outcome(cs, spec).resolution ==
            if spec.claim.None? then None else Some(Status(spec.claim.value, Registered(cs, spec.claim.value.conformanceId)))
  {
    hide RowEvidences, Registered, Status;
  }

  /** What a claim adds to a required row: the two items and the gap, and nothing else changes; on other rows the status alone. */
  lemma ClaimAdds(cs: Contributions, spec: RowSpec)
    requires spec.claim.Some?
    ensures var before, after := Unclaimed(cs, spec), Outcome(cs, spec);
            var zeros := AllZeros(spec.claim.value.digest);
            var registered := LastRegistered(cs, spec.claim.value.conformanceId, spec.claim.value.digest);
            && after.level == before.level && after.recordIds == before.recordIds
            && after.missing == before.missing + (if spec.required.Some? && zeros then [NonPlaceholderDigest] else [])
                                + (if spec.required.Some? && !registered then [RegisteredDigest] else [])
            && (after.gap <==> before.gap || (spec.required.Some? && (zeros || !registered)))
  {
    var id := spec.claim.value.conformanceId;
    UnclaimedIs(cs, spec);
    RegistryHoldsLast(cs, id);
    OnlyLacks(cs, spec);
    hide Applied, RowEvidences, Registered, LastRegistered;
    ClaimItems(Unclaimed(cs, spec), spec, Registered(cs, id));
  }

  lemma OnlyLacks(cs: Contributions, spec: RowSpec)
    ensures NonPlaceholderDigest !in Unclaimed(cs, spec).missing && RegisteredDigest !in Unclaimed(cs, spec).missing
    ensures Unclaimed(cs, spec).resolution == None
  {
    UnclaimedIs(cs, spec);
    RowMissesExactly(cs, spec, ContractTest);
    hide Unclaimed, RowEvidences, Missing, Best, BestRank, Union, Ids, Outcome, Pooled;
  }

  lemma ClaimItems(before: RowState, spec: RowSpec, registered: Option<Registration>)
    requires spec.claim.Some? && NonPlaceholderDigest !in before.missing && RegisteredDigest !in before.missing
    ensures var after := ResolvedView(before, spec, registered);
            var zeros, holds := AllZeros(spec.claim.value.digest), registered.Some? && registered.value.sha256 == spec.claim.value.digest;
            && after.level == before.level && after.recordIds == before.recordIds
            && after.missing == before.missing + (if spec.required.Some? && zeros then [NonPlaceholderDigest] else [])
                                + (if spec.required.Some? && !holds then [RegisteredDigest] else [])
            && (after.gap <==> before.gap || (spec.required.Some? && (zeros || !holds)))
  {
    assert IsPlaceholder(spec.claim.value.digest) == AllZeros(spec.claim.value.digest);
    hide IsPlaceholder, AllZeros;
  }

  // A required row without a gap.

  /** One covering record supports the level and, for a claim row, the claim names the last registered digest. */
  ghost predicate RowMet(cs: Contributions, spec: RowSpec) {
    spec.required.Some? ==>
      && (spec.required.value == Unverified ||
          exists k :: CoversRow(cs, k, spec.rowId) && Supports(EvidenceAt(cs, k, spec.rowId), spec.required.value))
      && (spec.claim.Some? ==>
            !AllZeros(spec.claim.value.digest) && LastRegistered(cs, spec.claim.value.conformanceId, spec.claim.value.digest))
  }

  lemma RowGapExactly(cs: Contributions, spec: RowSpec)
    ensures !Outcome(cs, spec).gap <==> RowMet(cs, spec)
  {
    RowMissesExactly(cs, spec, ContractTest);
    if spec.required.Some? {
      RowLevel(cs, spec, spec.required.value);
    }
    if spec.claim.Some? {
      ClaimAdds(cs, spec);
    } else {
      assert spec.(claim := None) == spec;
    }
    hide Outcome, CoversRow, EvidenceAt, Supports, AllZeros, LastRegistered;
  }
}
