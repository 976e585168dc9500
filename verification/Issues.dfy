/** What the gate reports. Only the code and the offending name of each message are kept. */
module Issues {
  datatype Code =
    // the index and its records
    | IndexUnreadable | IndexKeys | IndexSchema | IndexRecordsShape
    | RecordKeys | RecordId | ConformanceIdsShape | ConformanceIdRepeated | ConformanceIdUnknown
    | RecordExtensions | RefsMissing | RefKeys | RefExtensions | FileRefInvalid
    | ManifestUnreadable | RunUnreadable | ClaimCycle
    | ChainIdMismatch | ManifestNotBound | RunStale
    | AttestationUnbound | AttestationStale | Provisional | UncleanSource | RevisionMismatch
    | DesignProvenance | AgentArtifact | AgentPointer
    | StepIdRepeated | ResultStepUnknown | ResultStepKind | NoSource | NoNativeCommand | NoOracle
    | ConsumedBeforeProduced | RoleRedefined | OracleSource | OracleBlind
    | ReplayCoversUndeclared | ReleaseVerifier | RowUnknown | RecordIdRepeated | ClaimRepeated
    // positive coverage
    | NotExercised | NotDeclared | NoCoveringNative | NoCoveringDerived | UnknownExecutionClass | NotConsumedByAgent
    // the artifact inventory
    | ReplayIdRepeated | PathReused | DigestReused | ArtifactFile | ArtifactOrigin
    | CheckUnbacked | ReplayMiscounted | DesignClassMismatch
    // the report
    | CatalogUnreadable | Inventory | RowRepeated | NoObligations

  datatype Issue = Issue(code: Code, subject: string)

  /** One issue for each of the subjects. */
  method Each(code: Code, subjects: set<string>) returns (issues: seq<Issue>)
    ensures issues == [] <==> subjects == {}
  {
    issues := [];
    var rest := subjects;
    while rest != {}
      invariant rest <= subjects
      invariant issues == [] <==> rest == subjects
    {
      var subject :| subject in rest;
      issues := issues + [Issue(code, subject)];
      rest := rest - {subject};
    }
  }

  function When(bad: bool, code: Code, subject: string): (issues: seq<Issue>)
    ensures issues == [] <==> !bad
  {
    if bad then [Issue(code, subject)] else []
  }
}
