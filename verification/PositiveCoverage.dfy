/** Rows of the coverage matrix, and the binding of every claimed row to a positive DAG step. */
module PositiveCoverage {
  import opened Prelude
  import opened Chain
  import opened Issues
  import opened StepDag
  import opened Ladder

  datatype ExecutionClass = NativeEda | ArtifactKernel | AdministrativeRouting | Unrecognized(name: string)
  datatype ProviderKind = EdaDriver | EvidenceKernel | OtherProvider
  datatype Classification = SemanticExecution | TransportExecution | OtherClassification

  /** The fixed part of a coverage row. */
  datatype RowSpec = RowSpec(
    rowId: string,
    claim: Option<ProviderClaim>,
    declaredClass: Option<ExecutionClass>,
    providerKind: Option<ProviderKind>,
    operation: Option<string>,
    classification: Classification,
    required: Option<Level>)

  /** A provider-conformance-claim row names one conformance record and the digest it claims for it. */
  datatype ProviderClaim = ProviderClaim(conformanceId: string, digest: string, manifestPath: Option<string>)

  const NATIVE_EDA_OPERATIONS: set<string> :=
    {"openada.operation/circuit.simulate/v1alpha1",
     "openada.operation/circuit.simulate/v1alpha2",
     "openada.operation/logic.synthesize/v1alpha1",
     "openada.operation/rtl.lint/v1alpha1",
     "openada.operation/rtl.test/v1alpha1",
     "openada.operation/timing.analyze/v1alpha1"}

  function RowExecutionClass(row: RowSpec): ExecutionClass {
    if row.declaredClass.Some? then row.declaredClass.value
    else if row.providerKind == Some(EdaDriver) then NativeEda
    else if row.providerKind == Some(EvidenceKernel) then ArtifactKernel
    else if row.operation.Some? && row.operation.value in NATIVE_EDA_OPERATIONS then NativeEda
    else if row.operation.Some? then ArtifactKernel
    else if row.classification.TransportExecution? then NativeEda
    else if row.classification.SemanticExecution? then NativeEda
    else AdministrativeRouting
  }

  // What positive coverage is.

  predicate Covers(step: Step, rowId: string) {
    step.kind.SemanticCommand? && rowId in step.covers
  }

  predicate HasNativeAncestor(steps: seq<Step>, id: string) {
    exists n :: n in steps && IsNativeCommand(n) && n.id in AncestorsOf(steps, id)
  }

  predicate CoveredByClass(steps: seq<Step>, row: RowSpec, rowId: string) {
    match RowExecutionClass(row)
    case NativeEda => exists s :: s in steps && Covers(s, rowId) && s.native
    case ArtifactKernel => exists s :: s in steps && Covers(s, rowId) && !s.native && HasNativeAncestor(steps, s.id)
    case AdministrativeRouting => true
    case Unrecognized(_) => false
  }

  predicate ConsumedByAgent(manifest: Manifest, rowId: string) {
    && (exists s :: s in manifest.steps && s.id == manifest.resultStep)
    && (exists s :: s in manifest.steps && Covers(s, rowId) && s.id in AncestorsOf(manifest.steps, manifest.resultStep))
  }

  ghost predicate RowBound(manifest: Manifest, rows: map<string, RowSpec>, rowId: string) {
    rowId in rows ==> CoveredByClass(manifest.steps, rows[rowId], rowId) && ConsumedByAgent(manifest, rowId)
  }

  ghost predicate Exercised(manifest: Manifest, rowId: string) {
    exists s :: s in manifest.steps && Covers(s, rowId)
  }

  ghost predicate PositivelyCovered(manifest: Manifest, rows: map<string, RowSpec>) {
    && (forall rowId :: rowId in manifest.covers <==> Exercised(manifest, rowId))
    && (forall rowId :: rowId in manifest.covers ==> RowBound(manifest, rows, rowId))
  }

  // The checker.

  method RowIssues(manifest: Manifest, row: RowSpec, rowId: string, semantic: set<Step>, ancestors: map<string, set<string>>)
    returns (issues: seq<Issue>)
    requires semantic == set s | s in manifest.steps && s.kind.SemanticCommand?
    requires ancestors == Ancestry(manifest.steps)
    ensures issues == [] <==> CoveredByClass(manifest.steps, row, rowId) && ConsumedByAgent(manifest, rowId)
  {
    issues := [];
    var covering := set s | s in semantic && rowId in s.covers;
    assert forall s :: s in covering <==> s in manifest.steps && Covers(s, rowId);
    var nativeIds := set s | s in semantic && s.native :: s.id;
    var known := (id: string) => if id in ancestors then ancestors[id] else {};
    assert forall id :: known(id) == AncestorsOf(manifest.steps, id);
    var executionClass := RowExecutionClass(row);
    if executionClass == NativeEda && !(exists s :: s in covering && s.native) {
      issues := issues + [Issue(NoCoveringNative, rowId)];
    } else if executionClass == ArtifactKernel && !(exists s :: s in covering && !s.native && known(s.id) * nativeIds != {}) {
      issues := issues + [Issue(NoCoveringDerived, rowId)];
    } else if executionClass.Unrecognized? {
      issues := issues + [Issue(UnknownExecutionClass, rowId)];
    }
    assert forall id :: known(id) * nativeIds != {} <==> HasNativeAncestor(manifest.steps, id) by {
      NativeAncestry(manifest.steps, nativeIds);
    }
    var agentAncestors := known(manifest.resultStep);
    if !(exists s :: s in manifest.steps && s.id == manifest.resultStep) || !(exists s :: s in covering && s.id in agentAncestors) {
      issues := issues + [Issue(NotConsumedByAgent, rowId)];
    }
  }

  lemma NativeAncestry(steps: seq<Step>, nativeIds: set<string>)
    requires nativeIds == set s | s in steps && IsNativeCommand(s) :: s.id
    ensures forall id :: AncestorsOf(steps, id) * nativeIds != {} <==> HasNativeAncestor(steps, id)
  {
    forall id
      ensures AncestorsOf(steps, id) * nativeIds != {} <==> HasNativeAncestor(steps, id)
    {
      if AncestorsOf(steps, id) * nativeIds != {} {
        var n :| n in AncestorsOf(steps, id) * nativeIds;
        assert n in AncestorsOf(steps, id);
      }
      if HasNativeAncestor(steps, id) {
        var n :| n in steps && IsNativeCommand(n) && n.id in AncestorsOf(steps, id);
        assert n.id in AncestorsOf(steps, id) * nativeIds;
      }
    }
  }

  /** One pass over the rows that are both declared and exercised. */
  method BindingIssues(manifest: Manifest, rows: map<string, RowSpec>, rowIds: set<string>, semantic: set<Step>, ancestors: map<string, set<string>>)
    returns (issues: seq<Issue>)
    requires semantic == set s | s in manifest.steps && s.kind.SemanticCommand?
    requires ancestors == Ancestry(manifest.steps)
    ensures issues == [] <==> AllBound(manifest, rows, rowIds)
  {
    issues := [];
    var rest := rowIds;
    while rest != {}
      invariant rest <= rowIds
      invariant issues == [] <==> AllBound(manifest, rows, rowIds - rest)
    {
      hide *;
      var rowId :| rowId in rest;
      var found: seq<Issue> := [];
      if rowId in rows {
        found := RowIssues(manifest, rows[rowId], rowId, semantic, ancestors);
      }
      RowBoundMeans(manifest, rows, rowId);
      BoundNext(manifest, rows, rowIds - rest, rowId);
      assert rowIds - (rest - {rowId}) == (rowIds - rest) + {rowId};
      issues := issues + found;
      rest := rest - {rowId};
    }
    assert rowIds - rest == rowIds;
  }

  method PositiveCoverageIssues(manifest: Manifest, rows: map<string, RowSpec>) returns (issues: seq<Issue>)
    ensures issues == [] <==> PositivelyCovered(manifest, rows)
  {
    var semantic := set s | s in manifest.steps && s.kind.SemanticCommand?;
    var ancestors := StepAncestorIds(manifest.steps);
    var declared := Elements(manifest.covers);
    var exercised := set s, rowId | s in semantic && rowId in s.covers :: rowId;
    assert forall rowId :: rowId in exercised <==> Exercised(manifest, rowId);
    issues := Each(NotExercised, declared - exercised);
    var undeclared := Each(NotDeclared, exercised - declared);
    issues := issues + undeclared;
    ghost var matching := declared == exercised;
    assert issues == [] <==> matching by {
      assert declared - exercised == {} && exercised - declared == {} ==> declared == exercised;
    }
    var found := BindingIssues(manifest, rows, declared * exercised, semantic, ancestors);
    issues := issues + found;
    assert matching ==> declared * exercised == declared;
    hide RowBound, Exercised;
  }

  ghost predicate AllBound(manifest: Manifest, rows: map<string, RowSpec>, rowIds: set<string>) {
    forall rowId :: rowId in rowIds ==> RowBound(manifest, rows, rowId)
  }

  lemma BoundNext(manifest: Manifest, rows: map<string, RowSpec>, done: set<string>, rowId: string)
    ensures AllBound(manifest, rows, done + {rowId}) <==> AllBound(manifest, rows, done) && RowBound(manifest, rows, rowId)
  {
    hide RowBound;
  }

  lemma RowBoundMeans(manifest: Manifest, rows: map<string, RowSpec>, rowId: string)
    ensures RowBound(manifest, rows, rowId) <==>
            (rowId in rows ==> CoveredByClass(manifest.steps, rows[rowId], rowId) && ConsumedByAgent(manifest, rowId))
  {
  }

  // What it means on a well-ordered DAG.

  ghost predicate StepReaches(steps: seq<Step>, from: Step, to: string) {
    exists i, j :: 0 <= i < |steps| && 0 <= j < |steps| && steps[i] == from && steps[j].id == to && Reaches(steps, i, j)
  }

  lemma AncestorReaches(steps: seq<Step>, from: Step, to: string)
    requires WellOrdered(steps) && from in steps && from.id in AncestorsOf(steps, to)
    requires exists s :: s in steps && s.id == to
    ensures StepReaches(steps, from, to)
  {
    var s :| s in steps && s.id == to;
    var j :| 0 <= j < |steps| && steps[j] == s;
    AncestorClosure(steps, j, from.id);
    var i :| 0 <= i < |steps| && steps[i].id == from.id && Reaches(steps, i, j);
    var h :| 0 <= h < |steps| && steps[h] == from;
    assert h == i;
  }

  /** The evidence path of one covered row, stated on the role relation of the DAG itself. */
  ghost predicate HasEvidencePath(manifest: Manifest, row: RowSpec, rowId: string) {
    var steps := manifest.steps;
    && (exists s :: s in steps && Covers(s, rowId) && StepReaches(steps, s, manifest.resultStep))
    && match RowExecutionClass(row)
       case NativeEda => exists s :: s in steps && Covers(s, rowId) && s.native
       case ArtifactKernel => exists s, n :: s in steps && n in steps && Covers(s, rowId) && !s.native && IsNativeCommand(n) && StepReaches(steps, n, s.id)
       case AdministrativeRouting => true
       case Unrecognized(_) => false
  }

  lemma BoundRowHasEvidencePath(manifest: Manifest, rows: map<string, RowSpec>, rowId: string)
    requires WellOrdered(manifest.steps) && PositivelyCovered(manifest, rows)
    requires rowId in manifest.covers && rowId in rows
    ensures HasEvidencePath(manifest, rows[rowId], rowId)
  {
    hide WellOrdered, AncestorsOf, Covers;
    var steps := manifest.steps;
    assert RowBound(manifest, rows, rowId);
    var s :| s in steps && Covers(s, rowId) && s.id in AncestorsOf(steps, manifest.resultStep);
    AncestorReaches(steps, s, manifest.resultStep);
    if RowExecutionClass(rows[rowId]).ArtifactKernel? {
      var d :| d in steps && Covers(d, rowId) && !d.native && HasNativeAncestor(steps, d.id);
      var n :| n in steps && IsNativeCommand(n) && n.id in AncestorsOf(steps, d.id);
      AncestorReaches(steps, n, d.id);
    }
  }
}
