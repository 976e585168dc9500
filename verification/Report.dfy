/** Coverage rows updated in place, the report's verdict, and what a passing report means. */
module Report {
  import opened Prelude
  import opened Chain
  import opened Ladder
  import opened PositiveCoverage
  import opened Coverage

  datatype MissingItem = Lacks(evidence: Evidence) | NonPlaceholderDigest | RegisteredDigest

  datatype Resolution = PlaceholderDigest | Unresolved | DigestMismatch | Resolved

  datatype RowState = RowState(
    level: Level,
    recordIds: multiset<string>,
    missing: seq<MissingItem>,
    gap: bool,
    resolution: Option<Resolution>)

  const FRESH: RowState := RowState(Unverified, multiset{}, [], false, None)

  // Coverage of one row.

  function BestRank(cs: seq<RowEvidence>): nat
    requires cs != []
  {
    var last := Rank(cs[|cs| - 1].level);
    if |cs| == 1 then last
    else
      var before := BestRank(cs[..|cs| - 1]);
      if before < last then last else before
  }

  function Best(cs: seq<RowEvidence>, rank: nat): seq<RowEvidence> {
    if cs == [] then []
    else Best(cs[..|cs| - 1], rank) + if Rank(cs[|cs| - 1].level) == rank then [cs[|cs| - 1]] else []
  }

  function Ids(cs: seq<RowEvidence>): multiset<string> {
    if cs == [] then multiset{} else Ids(cs[..|cs| - 1]) + multiset{cs[|cs| - 1].recordId}
  }

  function Union(cs: seq<RowEvidence>): set<Evidence> {
    if cs == [] then {} else Union(cs[..|cs| - 1]) + cs[|cs| - 1].evidence
  }

  function Missing(required: seq<Evidence>, evidence: set<Evidence>): seq<MissingItem> {
    if required == [] then []
    else Missing(required[..|required| - 1], evidence) +
         if required[|required| - 1] in evidence then [] else [Lacks(required[|required| - 1])]
  }

  /** The row after _apply_coverage. */
  function Applied(view: RowState, required: Option<Level>, cs: seq<RowEvidence>): RowState {
    var best := if cs == [] then [] else Best(cs, BestRank(cs));
    var level := if cs == [] then view.level else LEVELS[LevelIndex(cs)];
    var recordIds := if cs == [] then view.recordIds else Ids(best);
    match required
    case None => RowState(level, recordIds, [], false, view.resolution)
    case Some(r) => RowState(level, recordIds, Missing(Required(r), Union(best)), Rank(level) < Rank(r), view.resolution)
  }

  function LevelIndex(cs: seq<RowEvidence>): (k: nat)
    requires cs != []
    ensures k == BestRank(cs) && k < |LEVELS|
  {
    RankBounded(cs);
    BestRank(cs)
  }

  lemma RankBounded(cs: seq<RowEvidence>)
    requires cs != []
    ensures BestRank(cs) < |LEVELS|
  {
  }

  function Status(claim: ProviderClaim, registered: Option<Registration>): Resolution {
    if IsPlaceholder(claim.digest) then PlaceholderDigest
    else if registered.None? then Unresolved
    else if claim.digest != registered.value.sha256 then DigestMismatch
    else Resolved
  }

  /** "0" * 64 */
  predicate IsPlaceholder(digest: string) {
    |digest| == 64 && forall c :: c in digest ==> c == '0'
  }

  function With(missing: seq<MissingItem>, bad: bool, item: MissingItem): seq<MissingItem> {
    if bad && item !in missing then missing + [item] else missing
  }

  /** The row after _resolve_provider_conformance_claims. */
  function ResolvedView(view: RowState, spec: RowSpec, registered: Option<Registration>): RowState {
    if spec.claim.None? then view
    else
      var claim := spec.claim.value;
      var status := Status(claim, registered);
      if status.Resolved? || spec.required.None? then view.(resolution := Some(status))
      else
        var listed := With(view.missing, IsPlaceholder(claim.digest), NonPlaceholderDigest);
        view.(resolution := Some(status),
              missing := With(listed, registered.None? || claim.digest != registered.value.sha256, RegisteredDigest),
              gap := true)
  }

  function Outcome(cs: Contributions, spec: RowSpec): RowState {
    var applied := Applied(FRESH, spec.required, RowEvidences(cs, spec.rowId));
    ResolvedView(applied, spec, if spec.claim.Some? then Registered(cs, spec.claim.value.conformanceId) else None)
  }

  class Row {
    const spec: RowSpec
    var level: Level
    var recordIds: multiset<string>
    var missing: seq<MissingItem>
    var gap: bool
    var resolution: Option<Resolution>

    function View(): RowState
      reads this
    {
      RowState(level, recordIds, missing, gap, resolution)
    }

    constructor (spec: RowSpec)
      ensures this.spec == spec && View() == FRESH
    {
      this.spec := spec;
      level, recordIds, missing, gap, resolution := Unverified, multiset{}, [], false, None;
    }

    method Apply(cs: seq<RowEvidence>)
      modifies this
      ensures View() == Applied(old(View()), spec.required, cs)
    {
      var evidence := {};
      if cs != [] {
        var bestRank := LevelIndex(cs);
        var best := Best(cs, bestRank);
        level := LEVELS[bestRank];
        recordIds := Ids(best);
        for k := 0 to |best|
          invariant evidence == Union(best[..k])
          invariant level == LEVELS[bestRank] && recordIds == Ids(best)
          invariant unchanged(`missing) && unchanged(`gap) && unchanged(`resolution)
        {
          assert best[..k + 1][..k] == best[..k];
          evidence := evidence + best[k].evidence;
        }
        assert best[..|best|] == best;
      }
      if spec.required.None? {
        missing, gap := [], false;
      } else {
        missing := Missing(Required(spec.required.value), evidence);
        gap := Rank(level) < Rank(spec.required.value);
      }
    }

    method Resolve(registry: map<string, Registration>)
      modifies this
      ensures View() == ResolvedView(old(View()), spec,
                                     if spec.claim.Some? then Lookup(registry, spec.claim.value.conformanceId) else None)
    {
      if spec.claim.None? {
        return;
      }
      var claim := spec.claim.value;
      var registered := Lookup(registry, claim.conformanceId);
      var placeholder := IsPlaceholder(claim.digest);
      var status :=
        if placeholder then PlaceholderDigest
        else if registered.None? then Unresolved
        else if claim.digest != registered.value.sha256 then DigestMismatch
        else Resolved;
      resolution := Some(status);
      if status != Resolved && spec.required.Some? {
        if placeholder && NonPlaceholderDigest !in missing {
          missing := missing + [NonPlaceholderDigest];
        }
        if (registered.None? || claim.digest != registered.value.sha256) && RegisteredDigest !in missing {
          missing := missing + [RegisteredDigest];
        }
        gap := true;
      }
    }
  }

  method ApplyCoverage(rows: seq<Row>, evidence: map<string, seq<RowEvidence>>)
    requires Distinct(rows)
    modifies rows
    ensures forall k :: 0 <= k < |rows| ==>
              rows[k].View() == Applied(old(rows[k].View()), rows[k].spec.required, Found(evidence, rows[k].spec.rowId))
  {
    for n := 0 to |rows|
      invariant forall k :: 0 <= k < n ==>
                  rows[k].View() == Applied(old(rows[k].View()), rows[k].spec.required, Found(evidence, rows[k].spec.rowId))
      invariant forall k :: n <= k < |rows| ==> rows[k].View() == old(rows[k].View())
    {
      assert forall k :: 0 <= k < |rows| && k != n ==> rows[k] != rows[n];
      hide *;
      rows[n].Apply(Found(evidence, rows[n].spec.rowId));
    }
  }

  method ResolveProviderConformanceClaims(rows: seq<Row>, registry: map<string, Registration>)
    requires Distinct(rows)
    modifies rows
    ensures forall k :: 0 <= k < |rows| ==>
              rows[k].View() == ResolvedView(old(rows[k].View()), rows[k].spec, ClaimEntry(registry, rows[k].spec))
  {
    for n := 0 to |rows|
      invariant forall k :: 0 <= k < n ==>
                  rows[k].View() == ResolvedView(old(rows[k].View()), rows[k].spec, ClaimEntry(registry, rows[k].spec))
      invariant forall k :: n <= k < |rows| ==> rows[k].View() == old(rows[k].View())
    {
      assert forall k :: 0 <= k < |rows| && k != n ==> rows[k] != rows[n];
      hide *;
      rows[n].Resolve(registry);
    }
  }

  function ClaimEntry(registry: map<string, Registration>, spec: RowSpec): Option<Registration> {
    if spec.claim.Some? then Lookup(registry, spec.claim.value.conformanceId) else None
  }
}
