/** A row's level rests on one record: evidence is never borrowed across records. */
module NoBorrowing {
  import opened Prelude
  import opened Chain
  import opened Ladder
  import opened Coverage
  import opened Report

  /** What the loader guarantees of every entry. */
  ghost predicate Levelled(cs: seq<RowEvidence>) {
    forall k :: 0 <= k < |cs| ==> cs[k].level == LevelOf(cs[k].evidence)
  }

  lemma {:induction false} LoadedEntriesAreLevelled(cs: Contributions, rowId: string)
    ensures Levelled(RowEvidences(cs, rowId))
  {
    if cs != [] {
      LoadedEntriesAreLevelled(cs[..|cs| - 1], rowId);
    }
  }

  lemma {:induction false} BestRankIsMaximum(cs: seq<RowEvidence>) returns (k: nat)
    requires cs != []
    ensures k < |cs| && Rank(cs[k].level) == BestRank(cs)
    ensures forall i :: 0 <= i < |cs| ==> Rank(cs[i].level) <= BestRank(cs)
  {
    var n := |cs| - 1;
    k := n;
    if n > 0 {
      var before := BestRankIsMaximum(cs[..n]);
      assert forall i :: 0 <= i < n ==> cs[..n][i] == cs[i];
      if Rank(cs[n].level) < BestRank(cs[..n]) {
        k := before;
      }
    }
  }

  lemma {:induction false} BestMembers(cs: seq<RowEvidence>, rank: nat)
    ensures forall e :: e in Best(cs, rank) <==> e in cs && Rank(e.level) == rank
    ensures |Best(cs, rank)| <= |cs|
  {
    if cs != [] {
      var n := |cs| - 1;
      BestMembers(cs[..n], rank);
      assert cs == cs[..n] + [cs[n]];
    }
  }

  lemma {:induction false} UnionMembers(cs: seq<RowEvidence>)
    ensures forall e :: e in Union(cs) <==> exists k :: 0 <= k < |cs| && e in cs[k].evidence
  {
    if cs != [] {
      var n := |cs| - 1;
      UnionMembers(cs[..n]);
      assert forall k :: 0 <= k < n ==> cs[..n][k] == cs[k];
      assert forall e :: (exists k :: 0 <= k < |cs| && e in cs[k].evidence) <==>
                         (exists k :: 0 <= k < n && e in cs[..n][k].evidence) || e in cs[n].evidence;
    }
  }

  lemma {:induction false} NothingMissing(required: seq<Evidence>, evidence: set<Evidence>)
    ensures Missing(required, evidence) == [] <==> forall e :: e in required ==> e in evidence
  {
    if required != [] {
      var n := |required| - 1;
      NothingMissing(required[..n], evidence);
      assert required == required[..n] + [required[n]];
    }
  }

  ghost predicate SuppliedByOne(cs: seq<RowEvidence>, level: Level) {
    exists k :: 0 <= k < |cs| && Supports(cs[k].evidence, level)
  }

  lemma AppliedLevel(cs: seq<RowEvidence>, required: Level)
    ensures Rank(Applied(FRESH, Some(required), cs).level) == if cs == [] then 0 else BestRank(cs)
  {
    assert forall k :: 0 <= k < |LEVELS| ==> Rank(LEVELS[k]) == k;
  }

  /** The missing list pools the evidence of all the best records. */
  lemma MissingMeans(cs: seq<RowEvidence>, required: Level)
    requires cs != []
    ensures Applied(FRESH, Some(required), cs).missing == [] <==> Supports(Union(Best(cs, BestRank(cs))), required)
  {
    NothingMissing(Required(required), Union(Best(cs, BestRank(cs))));
  }

  lemma OneBestSupports(cs: seq<RowEvidence>, required: Level)
    requires cs != [] && Levelled(cs)
    ensures BestRank(cs) >= Rank(required) <==> SuppliedByOne(cs, required)
    ensures BestRank(cs) >= Rank(required) ==> Supports(Union(Best(cs, BestRank(cs))), required)
  {
    var best := BestRankIsMaximum(cs);
    LevelReached(cs[best].evidence, required);
    forall i | 0 <= i < |cs| && Supports(cs[i].evidence, required)
      ensures Rank(required) <= BestRank(cs)
    {
      LevelReached(cs[i].evidence, required);
    }
    BestMembers(cs, BestRank(cs));
    UnionHasMember(Best(cs, BestRank(cs)), cs[best]);
  }

  lemma UnionHasMember(cs: seq<RowEvidence>, e: RowEvidence)
    requires e in cs
    ensures e.evidence <= Union(cs)
  {
    UnionMembers(cs);
  }

  /** A required row is gap-free exactly when one single record supports the level; then nothing is missing. */
  lemma GapFreeMeansOneRecordSuffices(cs: seq<RowEvidence>, required: Level)
    requires Levelled(cs)
    ensures !Applied(FRESH, Some(required), cs).gap <==> required.Unverified? || SuppliedByOne(cs, required)
    ensures !Applied(FRESH, Some(required), cs).gap ==> Applied(FRESH, Some(required), cs).missing == []
  {
    AppliedLevel(cs, required);
    if cs == [] {
      NothingMissing(Required(required), {});
    } else {
      OneBestSupports(cs, required);
      MissingMeans(cs, required);
    }
  }

  ghost predicate BestHas(cs: seq<RowEvidence>, k: int, e: Evidence)
    requires cs != []
  {
    0 <= k < |cs| && Rank(cs[k].level) == BestRank(cs) && e in cs[k].evidence
  }

  ghost predicate BestPool(cs: seq<RowEvidence>, e: Evidence)
    requires cs != []
  {
    exists k :: BestHas(cs, k, e)
  }

  lemma PoolIsUnion(cs: seq<RowEvidence>, e: Evidence)
    requires cs != []
    ensures e in Union(Best(cs, BestRank(cs))) <==> BestPool(cs, e)
  {
    var best := Best(cs, BestRank(cs));
    BestMembers(cs, BestRank(cs));
    UnionMembers(best);
    hide Best, Union, BestRank, Rank;
    if BestPool(cs, e) {
      var k :| BestHas(cs, k, e);
      assert cs[k] in best;
      var j :| 0 <= j < |best| && best[j] == cs[k];
    }
    if e in Union(best) {
      var j :| 0 <= j < |best| && e in best[j].evidence;
      assert best[j] in best;
      var k :| 0 <= k < |cs| && cs[k] == best[j];
      assert BestHas(cs, k, e);
    }
  }

  /** The missing list is empty in spite of a gap exactly when no single record suffices but the best ones do together. */
  lemma MissingListMisleads(cs: seq<RowEvidence>, required: Level)
    requires Levelled(cs)
    ensures Applied(FRESH, Some(required), cs).missing == [] && Applied(FRESH, Some(required), cs).gap <==>
            cs != [] && !SuppliedByOne(cs, required) && forall e :: e in Required(required) ==> BestPool(cs, e)
  {
    GapFreeMeansOneRecordSuffices(cs, required);
    if cs == [] {
      NothingMissing(Required(required), {});
    } else {
      MissingMeans(cs, required);
      OneSuppliesNothing(cs, required);
      forall e
        ensures e in Union(Best(cs, BestRank(cs))) <==> BestPool(cs, e)
      {
        PoolIsUnion(cs, e);
      }
      hide Applied, Best, Union, BestRank, BestPool, SuppliedByOne, LevelOf;
    }
  }

  lemma OneSuppliesNothing(cs: seq<RowEvidence>, required: Level)
    requires cs != []
    ensures required.Unverified? ==> SuppliedByOne(cs, required)
  {
    assert required.Unverified? ==> Supports(cs[0].evidence, required);
  }

  /** Contract-tested, and short of one piece of evidence for the next level. */
  lemma OneShort(evidence: set<Evidence>, k: nat)
    requires ContractTest in evidence && k < |Required(NativeReplayed)| && Required(NativeReplayed)[k] !in evidence
    ensures LevelOf(evidence) == ContractTested && !Supports(evidence, NativeReplayed)
  {
    RequiredNested(NativeReplayed, WorkflowValidated);
    RequiredNested(NativeReplayed, AgentReady);
  }

  /** With two it need not: the missing list pools their evidence, the gap does not. */
  lemma MissingListPoolsRecords(a: string, b: string)
    ensures var cs := [RowEvidence(a, ContractTested, {ContractTest, NativeRun}),
                       RowEvidence(b, ContractTested, {ContractTest, IndependentArtifactCheck})];
            Levelled(cs)
            && Applied(FRESH, Some(NativeReplayed), cs).missing == []
            && Applied(FRESH, Some(NativeReplayed), cs).gap
  {
    var cs := [RowEvidence(a, ContractTested, {ContractTest, NativeRun}),
               RowEvidence(b, ContractTested, {ContractTest, IndependentArtifactCheck})];
    assert Required(NativeReplayed)[1] == NativeRun && Required(NativeReplayed)[2] == IndependentArtifactCheck;
    OneShort(cs[0].evidence, 2);
    OneShort(cs[1].evidence, 1);
    GapFreeMeansOneRecordSuffices(cs, NativeReplayed);
    hide LevelOf, BestRank;
    BothBest(cs);
    MissingMeans(cs, NativeReplayed);
  }

  lemma BothBest(cs: seq<RowEvidence>)
    requires |cs| == 2 && cs[0].level == cs[1].level
    ensures Union(Best(cs, BestRank(cs))) >= cs[0].evidence + cs[1].evidence
  {
    var k := BestRankIsMaximum(cs);
    BestMembers(cs, BestRank(cs));
    UnionHasMember(Best(cs, BestRank(cs)), cs[0]);
    UnionHasMember(Best(cs, BestRank(cs)), cs[1]);
  }

  ghost predicate HasRank(cs: seq<RowEvidence>, k: int, rank: nat, id: string) {
    0 <= k < |cs| && cs[k].recordId == id && Rank(cs[k].level) == rank
  }

  ghost predicate Ranked(cs: seq<RowEvidence>, rank: nat, id: string) {
    exists k :: HasRank(cs, k, rank, id)
  }

  /** The records listed for a row are exactly those at its level. */
  lemma {:induction false} ListedRecordsAreBest(cs: seq<RowEvidence>, rank: nat, id: string)
    ensures id in Ids(Best(cs, rank)) <==> Ranked(cs, rank, id)
  {
    if cs != [] {
      ListedRecordsAreBest(cs[..|cs| - 1], rank, id);
      BestNext(cs, rank);
      RankNext(cs, rank, id);
      hide *;
    }
  }

  lemma RankNext(cs: seq<RowEvidence>, rank: nat, id: string)
    requires cs != []
    ensures Ranked(cs, rank, id) <==>
            Ranked(cs[..|cs| - 1], rank, id) || (cs[|cs| - 1].recordId == id && Rank(cs[|cs| - 1].level) == rank)
  {
    hide Rank;
    var n := |cs| - 1;
    if Ranked(cs, rank, id) {
      var k :| HasRank(cs, k, rank, id);
      assert k < n ==> HasRank(cs[..n], k, rank, id);
    }
    if Ranked(cs[..n], rank, id) {
      var k :| HasRank(cs[..n], k, rank, id);
      assert HasRank(cs, k, rank, id);
    }
    if cs[n].recordId == id && Rank(cs[n].level) == rank {
      assert HasRank(cs, n, rank, id);
    }
  }

  lemma BestNext(cs: seq<RowEvidence>, rank: nat)
    requires cs != []
    ensures Ids(Best(cs, rank)) == Ids(Best(cs[..|cs| - 1], rank)) +
                                   if Rank(cs[|cs| - 1].level) == rank then multiset{cs[|cs| - 1].recordId} else multiset{}
  {
    hide Rank;
    var last, before := cs[|cs| - 1], Best(cs[..|cs| - 1], rank);
    if Rank(last.level) == rank {
      var all := before + [last];
      assert all[..|all| - 1] == before && all[|all| - 1] == last;
    } else {
      assert before + [] == before;
    }
  }

  /** Admitting more records never lowers a row's level and never opens a gap. */
  lemma MoreRecordsNeverHurt(a: Contributions, m: Contributions, b: Contributions, rowId: string, required: Level)
    ensures Rank(Applied(FRESH, Some(required), RowEvidences(a + b, rowId)).level) <=
            Rank(Applied(FRESH, Some(required), RowEvidences(a + m + b, rowId)).level)
    ensures Applied(FRESH, Some(required), RowEvidences(a + m + b, rowId)).gap ==>
              Applied(FRESH, Some(required), RowEvidences(a + b, rowId)).gap
  {
    EvidencesConcat(a, b, rowId);
    EvidencesBetween(a, m, b, rowId);
    MoreEntriesNeverHurt(RowEvidences(a + b, rowId), RowEvidences(a + m + b, rowId));
    AppliedLevel(RowEvidences(a + b, rowId), required);
    AppliedLevel(RowEvidences(a + m + b, rowId), required);
  }

  lemma MoreEntriesNeverHurt(few: seq<RowEvidence>, many: seq<RowEvidence>)
    requires forall e :: e in few ==> e in many
    ensures few != [] ==> many != [] && BestRank(few) <= BestRank(many)
  {
    if few != [] {
      var k := BestRankIsMaximum(few);
      assert few[k] in many;
      var j := BestRankIsMaximum(many);
    }
  }
}
