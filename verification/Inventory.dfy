/** The artifact inventory of one run: files, digests, origins and replay counts. */
module Inventory {
  import opened Prelude
  import opened Chain
  import opened Issues
  import opened Repository
  import Ladder
  import Paths

  /** The dictionary of steps by id: a later step shadows an earlier one. */
  function StepById(steps: seq<Step>, id: string): (r: Option<Step>)
    ensures r.Some? ==> r.value in steps && r.value.id == id
    ensures r.None? <==> forall s :: s in steps ==> s.id != id
  {
    if steps == [] then None
    else
      var n := |steps| - 1;
      if steps[n].id == id then Some(steps[n]) else StepById(steps[..n], id)
  }

  // What a sound inventory is.

  /** An artifact's path must resolve to itself, up to the empty and dot segments that pathlib drops. */
  predicate ContentValid(env: Env, a: Artifact) {
    var path := env.resolve(a.path);
    && path == To(Paths.Plain(a.path))
    && path.path in env.repo
    && env.repo[path.path].kind.Regular?
    && |env.repo[path.path].bytes| == a.bytes
    && env.sha256(env.repo[path.path].bytes) == a.sha256
  }

  /** The path cannot be resolved, or what it names cannot be opened for hashing: nothing catches the exception. */
  predicate ArtifactRaises(env: Env, a: Artifact) {
    var path := env.resolve(a.path);
    path.Unresolvable? || (path.To? && path.path in env.repo && env.repo[path.path].kind.Directory?)
  }

  predicate SomeArtifactRaises(env: Env, run: Run) {
    exists a :: a in run.artifacts && ArtifactRaises(env, a)
  }

  /** The file of an artifact whose content is valid. */
  function FilePath(a: Artifact): string {
    Paths.Plain(a.path)
  }

  predicate StepFits(role: Role, step: Step, manifest: Manifest) {
    && (role == Trust(PinnedRealDesign) ==> step.kind.SourceMaterialize?)
    && (role == Trust(NativeRun) ==> IsNativeCommand(step))
    && (role == Trust(IndependentArtifactCheck) ==> step.kind.IndependentOracle?)
    && (role == Trust(NormalizedEvidence) ==> IsDerivedCommand(step))
    && (role == Trust(DownstreamDecision) ==> IsDerivedCommand(step))
    && (role == Trust(AgentVisibleEvidence) ==> step.id == manifest.resultStep && step.kind.IndependentDecision?)
  }

  predicate OriginValid(manifest: Manifest, a: Artifact) {
    if IsReplayRole(a.role) then
      a.replayId.value in DeclaredReplays(manifest, a.role)
    else
      var step := StepById(manifest.steps, a.sourceStep.value);
      step.Some? && a.sourceOutput.value in step.value.produces && StepFits(a.role, step.value, manifest)
  }

  function DeclaredReplays(manifest: Manifest, role: Role): seq<string> {
    ReplayIds(if role == Trust(NegativeReplay) then manifest.negativeReplays else manifest.tamperReplays)
  }

  function ReplayCount(artifacts: seq<Artifact>, role: Role, id: string): nat {
    if artifacts == [] then 0
    else
      var n := |artifacts| - 1;
      ReplayCount(artifacts[..n], role, id) +
      if artifacts[n].role == role && artifacts[n].replayId == Some(id) then 1 else 0
  }

  ghost predicate PathsDistinct(artifacts: seq<Artifact>) {
    forall i, j :: 0 <= i < j < |artifacts| ==> artifacts[i].path != artifacts[j].path
  }

  ghost predicate TrustDigestsDistinct(artifacts: seq<Artifact>) {
    forall i, j :: 0 <= i < j < |artifacts| && artifacts[i].role.Trust? && artifacts[j].role.Trust? ==>
      artifacts[i].sha256 != artifacts[j].sha256
  }

  ghost predicate HasRole(artifacts: seq<Artifact>, k: int, role: Role) {
    0 <= k < |artifacts| && artifacts[k].role == role
  }

  ghost predicate Backed(artifacts: seq<Artifact>, check: Evidence) {
    exists k :: HasRole(artifacts, k, Trust(check))
  }

  ghost predicate ReplaysComplete(run: Run, manifest: Manifest, check: Evidence) {
    forall id :: id in DeclaredReplays(manifest, Trust(check)) ==> ReplayCount(run.artifacts, Trust(check), id) == 1
  }

  ghost predicate NothingReused(run: Run, manifest: Manifest) {
    && Distinct(ReplayIds(manifest.negativeReplays))
    && Distinct(ReplayIds(manifest.tamperReplays))
    && PathsDistinct(run.artifacts)
    && TrustDigestsDistinct(run.artifacts)
  }

  ghost predicate FilesSound(env: Env, run: Run, manifest: Manifest) {
    && NothingReused(run, manifest)
    && (forall k :: 0 <= k < |run.artifacts| ==>
          ContentValid(env, run.artifacts[k]) && OriginValid(manifest, run.artifacts[k]))
  }

  ghost predicate InventorySound(env: Env, run: Run, manifest: Manifest) {
    && FilesSound(env, run, manifest)
    && (forall check :: check in run.checks ==> Backed(run.artifacts, check))
    && (NegativeReplay in run.checks ==> ReplaysComplete(run, manifest, NegativeReplay))
    && (TamperReplay in run.checks ==> ReplaysComplete(run, manifest, TamperReplay))
    && (PinnedRealDesign in run.checks <==> !manifest.designClass.Synthetic?)
  }

  // The checker.

  function RawPaths(artifacts: seq<Artifact>): (keys: seq<Option<string>>)
    ensures |keys| == |artifacts| && forall i :: 0 <= i < |keys| ==> keys[i] == Some(artifacts[i].path)
  {
    seq(|artifacts|, i requires 0 <= i < |artifacts| => Some(artifacts[i].path))
  }

  function TrustDigests(artifacts: seq<Artifact>): (keys: seq<Option<string>>)
    ensures |keys| == |artifacts|
    ensures forall i :: 0 <= i < |keys| ==>
              keys[i] == if artifacts[i].role.Trust? then Some(artifacts[i].sha256) else None
  {
    seq(|artifacts|, i requires 0 <= i < |artifacts| =>
      if artifacts[i].role.Trust? then Some(artifacts[i].sha256) else None)
  }

  ghost predicate Shares(keys: seq<Option<string>>, i: int, j: int) {
    0 <= i < |keys| && 0 <= j < |keys| && i != j && keys[i].Some? && keys[i] == keys[j]
  }

  /** Groups positions by key, as the two position dictionaries do. */
  method PositionsByKey(keys: seq<Option<string>>) returns (positions: map<string, seq<nat>>)
    ensures forall key :: key in positions ==>
              positions[key] != [] && Distinct(positions[key]) && forall n :: n in positions[key] ==> n < |keys|
    ensures forall n :: 0 <= n < |keys| && keys[n].Some? ==>
              keys[n].value in positions && n in positions[keys[n].value]
    ensures forall key, n: nat :: key in positions && n in positions[key] ==> keys[n] == Some(key)
  {
    positions := map[];
    for position := 0 to |keys|
      invariant forall key :: key in positions ==>
                  positions[key] != [] && Distinct(positions[key]) && forall n :: n in positions[key] ==> n < position
      invariant forall n :: 0 <= n < position && keys[n].Some? ==>
                  keys[n].value in positions && n in positions[keys[n].value]
      invariant forall key, n: nat :: key in positions && n in positions[key] ==> keys[n] == Some(key)
    {
      if keys[position].Some? {
        var key := keys[position].value;
        var group := if key in positions then positions[key] else [];
        assert position !in group;
        positions := positions[key := group + [position]];
      }
    }
  }

  /** The keys held by two positions or more, and all the positions that hold one of them. */
  method ReusedPositions(keys: seq<Option<string>>) returns (reused: set<string>, invalid: set<nat>)
    ensures reused == {} <==> forall i, j :: !Shares(keys, i, j)
    ensures forall i :: i in invalid <==> exists j :: Shares(keys, i, j)
  {
    var positions := PositionsByKey(keys);
    reused, invalid := {}, {};
    var rest := positions.Keys;
    while rest != {}
      invariant rest <= positions.Keys
      invariant forall key :: key in reused <==> key in positions && key !in rest && |positions[key]| > 1
      invariant forall n :: n in invalid <==> exists key :: key in reused && n in positions[key]
    {
      var key :| key in rest;
      if |positions[key]| > 1 {
        reused := reused + {key};
        invalid := invalid + Elements(positions[key]);
      }
      rest := rest - {key};
    }
    forall i, j | Shares(keys, i, j)
      ensures i in invalid
    {
      var group := positions[keys[i].value];
      assert i in group && j in group;
      assert |group| > 1;
    }
    forall key, i | key in reused && i in positions[key]
      ensures exists j :: Shares(keys, i, j)
    {
      var group := positions[key];
      var j := if group[0] == i then group[1] else group[0];
      assert j in group;
      assert Shares(keys, i, j);
    }
    if reused != {} {
      var key :| key in reused;
      assert positions[key][0] in positions[key];
    }
  }

  /** The first problem with where an artifact says it comes from. */
  function OriginProblem(manifest: Manifest, a: Artifact): (problem: Option<Code>)
    ensures problem.None? <==> OriginValid(manifest, a)
  {
    if IsReplayRole(a.role) then
      if a.replayId.value !in DeclaredReplays(manifest, a.role) then Some(ArtifactOrigin) else None
    else
      var step := StepById(manifest.steps, a.sourceStep.value);
      if step.None? then Some(ArtifactOrigin)
      else if a.sourceOutput.value !in step.value.produces then Some(ArtifactOrigin)
      else if a.role == Trust(PinnedRealDesign) && !step.value.kind.SourceMaterialize? then Some(ArtifactOrigin)
      else if a.role == Trust(NativeRun) && !IsNativeCommand(step.value) then Some(ArtifactOrigin)
      else if a.role == Trust(IndependentArtifactCheck) && !step.value.kind.IndependentOracle? then Some(ArtifactOrigin)
      else if a.role == Trust(NormalizedEvidence) && !IsDerivedCommand(step.value) then Some(ArtifactOrigin)
      else if a.role == Trust(DownstreamDecision) && !IsDerivedCommand(step.value) then Some(ArtifactOrigin)
      else if a.role == Trust(AgentVisibleEvidence) then
        if a.sourceStep.value != manifest.resultStep then Some(ArtifactOrigin)
        else if !step.value.kind.IndependentDecision? then Some(ArtifactOrigin)
        else None
      else None
  }

  function Counted(counts: map<(Role, string), nat>, role: Role, id: string): nat {
    if (role, id) in counts then counts[(role, id)] else 0
  }

  method ReuseIssues(run: Run, manifest: Manifest) returns (issues: seq<Issue>, invalid: set<nat>)
    ensures issues == [] <==> NothingReused(run, manifest)
    ensures issues == [] ==> invalid == {}
  {
    issues := Each(ReplayIdRepeated, Duplicates(ReplayIds(manifest.negativeReplays)));
    var tamper := Each(ReplayIdRepeated, Duplicates(ReplayIds(manifest.tamperReplays)));
    NoDuplicatesIffDistinct(ReplayIds(manifest.negativeReplays));
    NoDuplicatesIffDistinct(ReplayIds(manifest.tamperReplays));
    var paths, samePath := ReusedPositions(RawPaths(run.artifacts));
    var pathIssues := Each(PathReused, paths);
    PathsShared(run.artifacts);
    var digests, sameDigest := ReusedPositions(TrustDigests(run.artifacts));
    var digestIssues := Each(DigestReused, digests);
    DigestsShared(run.artifacts);
    issues, invalid := issues + tamper + pathIssues + digestIssues, samePath + sameDigest;
  }

  lemma PathsShared(artifacts: seq<Artifact>)
    ensures (forall i, j :: !Shares(RawPaths(artifacts), i, j)) <==> PathsDistinct(artifacts)
  {
    var keys := RawPaths(artifacts);
    if !PathsDistinct(artifacts) {
      var i, j :| 0 <= i < j < |artifacts| && artifacts[i].path == artifacts[j].path;
      assert Shares(keys, i, j);
    }
    if i, j :| Shares(keys, i, j) {
      assert artifacts[i].path == artifacts[j].path;
    }
  }

  lemma DigestsShared(artifacts: seq<Artifact>)
    ensures (forall i, j :: !Shares(TrustDigests(artifacts), i, j)) <==> TrustDigestsDistinct(artifacts)
  {
    var keys := TrustDigests(artifacts);
    if !TrustDigestsDistinct(artifacts) {
      var i, j :| 0 <= i < j < |artifacts| && artifacts[i].role.Trust? && artifacts[j].role.Trust? &&
        artifacts[i].sha256 == artifacts[j].sha256;
      assert Shares(keys, i, j);
    }
    if i, j :| Shares(keys, i, j) {
      assert artifacts[i].role.Trust? && artifacts[j].role.Trust? && artifacts[i].sha256 == artifacts[j].sha256;
    }
  }

  method ArtifactIssues(env: Env, manifest: Manifest, a: Artifact) returns (issues: seq<Issue>, raised: bool)
    ensures raised <==> ArtifactRaises(env, a)
    ensures !raised ==> (issues == [] <==> ContentValid(env, a) && OriginValid(manifest, a))
  {
    issues, raised := [], false;
    var path := env.resolve(a.path);
    if path.Unresolvable? {
      return [], true;
    }
    if path.Nowhere? {
      return [Issue(ArtifactFile, a.path)], false;
    }
    if path.path != Paths.Plain(a.path) {
      issues := issues + [Issue(ArtifactFile, a.path)];
    }
    if path.path !in env.repo {
      return issues + [Issue(ArtifactFile, a.path)], false;
    }
    var file := env.repo[path.path];
    if !file.kind.Regular? {
      issues := issues + [Issue(ArtifactFile, a.path)];
    }
    if |file.bytes| != a.bytes {
      issues := issues + [Issue(ArtifactFile, a.path)];
    }
    if file.kind.Directory? {
      return issues, true;
    }
    if env.sha256(file.bytes) != a.sha256 {
      issues := issues + [Issue(ArtifactFile, a.path)];
    }
    var problem := OriginProblem(manifest, a);
    if problem.Some? {
      issues := issues + [Issue(problem.value, a.path)];
    }
  }

  function Count(counts: map<(Role, string), nat>, a: Artifact): map<(Role, string), nat> {
    if IsReplayRole(a.role)
    then counts[(a.role, a.replayId.value) := Counted(counts, a.role, a.replayId.value) + 1]
    else counts
  }

  /** The roles of the first n artifacts, and how often each replay has been seen among them. */
  ghost predicate SeenRoles(roles: set<Role>, artifacts: seq<Artifact>, n: nat) {
    forall role :: role in roles <==> exists k :: HasRole(artifacts, k, role) && k < n
  }

  ghost predicate SeenReplays(counts: map<(Role, string), nat>, artifacts: seq<Artifact>) {
    forall role, id :: IsReplayRole(role) ==> Counted(counts, role, id) == ReplayCount(artifacts, role, id)
  }

  lemma RolesNext(roles: set<Role>, artifacts: seq<Artifact>, n: nat)
    requires n < |artifacts| && SeenRoles(roles, artifacts, n)
    ensures SeenRoles(roles + {artifacts[n].role}, artifacts, n + 1)
  {
    forall role
      ensures role in roles + {artifacts[n].role} <==> exists k :: HasRole(artifacts, k, role) && k < n + 1
    {
      if role in roles {
        var k :| HasRole(artifacts, k, role) && k < n;
        assert k < n + 1;
      } else if role == artifacts[n].role {
        assert HasRole(artifacts, n, role);
      }
    }
  }

  lemma CountNext(counts: map<(Role, string), nat>, artifacts: seq<Artifact>, n: nat)
    requires n < |artifacts| && SeenReplays(counts, artifacts[..n])
    ensures SeenReplays(Count(counts, artifacts[n]), artifacts[..n + 1])
  {
    assert artifacts[..n + 1][..n] == artifacts[..n];
    forall role, id | IsReplayRole(role)
      ensures Counted(Count(counts, artifacts[n]), role, id) == ReplayCount(artifacts[..n + 1], role, id)
    {
      assert Counted(counts, role, id) == ReplayCount(artifacts[..n], role, id);
    }
  }

  ghost predicate NoneRaisesBefore(env: Env, artifacts: seq<Artifact>, n: nat)
    requires n <= |artifacts|
  {
    forall k :: 0 <= k < n ==> !ArtifactRaises(env, artifacts[k])
  }

  ghost predicate ArtifactsValid(env: Env, manifest: Manifest, artifacts: seq<Artifact>, n: nat)
    requires n <= |artifacts|
  {
    forall k :: 0 <= k < n ==> ContentValid(env, artifacts[k]) && OriginValid(manifest, artifacts[k])
  }

  lemma ValidNext(env: Env, manifest: Manifest, artifacts: seq<Artifact>, n: nat)
    requires n < |artifacts|
    ensures ArtifactsValid(env, manifest, artifacts, n + 1) <==>
            ArtifactsValid(env, manifest, artifacts, n) && ContentValid(env, artifacts[n]) && OriginValid(manifest, artifacts[n])
  {
    hide ContentValid, OriginValid;
  }

  lemma RaisesNext(env: Env, run: Run, n: nat)
    requires n < |run.artifacts| && NoneRaisesBefore(env, run.artifacts, n)
    ensures ArtifactRaises(env, run.artifacts[n]) ==> SomeArtifactRaises(env, run)
    ensures !ArtifactRaises(env, run.artifacts[n]) ==> NoneRaisesBefore(env, run.artifacts, n + 1)
  {
    hide ArtifactRaises;
  }

  lemma NoneRaises(env: Env, run: Run)
    requires NoneRaisesBefore(env, run.artifacts, |run.artifacts|)
    ensures !SomeArtifactRaises(env, run)
  {
    hide ArtifactRaises;
  }

  lemma NothingSeen(env: Env, run: Run, manifest: Manifest)
    ensures NoneRaisesBefore(env, run.artifacts, 0)
    ensures SeenRoles({}, run.artifacts, 0) && SeenReplays(map[], run.artifacts[..0])
    ensures ArtifactsValid(env, manifest, run.artifacts, 0)
    ensures FilesSound(env, run, manifest) <==>
            NothingReused(run, manifest) && ArtifactsValid(env, manifest, run.artifacts, |run.artifacts|)
  {
    hide NothingReused, ContentValid, OriginValid;
  }

  method VerifyFiles(env: Env, run: Run, manifest: Manifest)
    returns (issues: seq<Issue>, roles: set<Role>, counts: map<(Role, string), nat>, raised: bool)
    ensures raised <==> SomeArtifactRaises(env, run)
    ensures !raised ==> (issues == [] <==> FilesSound(env, run, manifest))
    ensures !raised && issues == [] ==> SeenRoles(roles, run.artifacts, |run.artifacts|) && SeenReplays(counts, run.artifacts)
  {
    hide *;
    var artifacts := run.artifacts;
    var invalid;
    issues, invalid := ReuseIssues(run, manifest);
    roles, counts, raised := {}, map[], false;
    NothingSeen(env, run, manifest);
    for position := 0 to |artifacts|
      invariant !raised && NoneRaisesBefore(env, artifacts, position)
      invariant issues == [] ==> invalid == {}
      invariant issues == [] <==> NothingReused(run, manifest) && ArtifactsValid(env, manifest, artifacts, position)
      invariant issues == [] ==> SeenRoles(roles, artifacts, position)
      invariant issues == [] ==> SeenReplays(counts, artifacts[..position])
    {
      var a := artifacts[position];
      var problems, stopped := ArtifactIssues(env, manifest, a);
      RaisesNext(env, run, position);
      if stopped {
        return issues, roles, counts, true;
      }
      ValidNext(env, manifest, artifacts, position);
      if issues == [] {
        RolesNext(roles, artifacts, position);
        CountNext(counts, artifacts, position);
      }
      issues := issues + problems;
      if problems == [] && position !in invalid {
        roles, counts := roles + {a.role}, Count(counts, a);
      }
    }
    NoneRaises(env, run);
    assert artifacts[..|artifacts|] == artifacts;
  }

  method ReplayIssues(run: Run, manifest: Manifest, check: Evidence, counts: map<(Role, string), nat>)
    returns (issues: seq<Issue>)
    ensures issues == [] <==>
            (check in run.checks ==>
               forall id :: id in DeclaredReplays(manifest, Trust(check)) ==> Counted(counts, Trust(check), id) == 1)
  {
    issues := [];
    if check in run.checks {
      var ids := DeclaredReplays(manifest, Trust(check));
      for k := 0 to |ids|
        invariant issues == [] <==> forall i :: 0 <= i < k ==> Counted(counts, Trust(check), ids[i]) == 1
      {
        if Counted(counts, Trust(check), ids[k]) != 1 {
          issues := issues + [Issue(ReplayMiscounted, ids[k])];
        }
      }
    }
  }

  method RunArtifactIssues(env: Env, run: Run, manifest: Manifest) returns (issues: seq<Issue>, raised: bool)
    ensures raised <==> SomeArtifactRaises(env, run)
    ensures !raised ==> (issues == [] <==> InventorySound(env, run, manifest))
  {
    hide FilesSound, ReplayCount, SomeArtifactRaises;
    var roles, counts;
    issues, roles, counts, raised := VerifyFiles(env, run, manifest);
    if raised {
      return;
    }
    ghost var files := issues == [];
    var order := Ladder.EVIDENCE_ORDER;
    for k := 0 to |order|
      invariant issues == [] <==>
                  files && forall i :: 0 <= i < k ==> (order[i] in run.checks ==> Trust(order[i]) in roles)
    {
      if order[k] in run.checks && Trust(order[k]) !in roles {
        issues := issues + [Issue(CheckUnbacked, manifest.id)];
      }
    }
    ghost var backed := issues == [];
    assert backed <==> files && forall check :: check in run.checks ==> Trust(check) in roles by {
      if backed {
        forall check | check in run.checks
          ensures Trust(check) in roles
        {
          assert order[Ladder.Place(check)] == check;
        }
      }
    }
    var negative := ReplayIssues(run, manifest, NegativeReplay, counts);
    var tamper := ReplayIssues(run, manifest, TamperReplay, counts);
    issues := issues + negative + tamper;
    if (PinnedRealDesign in run.checks) != !manifest.designClass.Synthetic? {
      issues := issues + [Issue(DesignClassMismatch, manifest.id)];
    }
  }

  // What a sound inventory gives.

  lemma {:induction false} CountedOnce(artifacts: seq<Artifact>, role: Role, id: string) returns (k: nat)
    requires ReplayCount(artifacts, role, id) == 1
    ensures k < |artifacts| && artifacts[k].role == role && artifacts[k].replayId == Some(id)
    ensures forall i :: 0 <= i < |artifacts| && artifacts[i].role == role && artifacts[i].replayId == Some(id) ==> i == k
  {
    var n := |artifacts| - 1;
    if artifacts[n].role == role && artifacts[n].replayId == Some(id) {
      k := n;
      NeverCounted(artifacts[..n], role, id);
      assert forall i :: 0 <= i < n ==> artifacts[..n][i] == artifacts[i];
    } else {
      k := CountedOnce(artifacts[..n], role, id);
      assert forall i :: 0 <= i < n ==> artifacts[..n][i] == artifacts[i];
    }
  }

  lemma {:induction false} NeverCounted(artifacts: seq<Artifact>, role: Role, id: string)
    requires ReplayCount(artifacts, role, id) == 0
    ensures forall i :: 0 <= i < |artifacts| ==> !(artifacts[i].role == role && artifacts[i].replayId == Some(id))
  {
    if artifacts != [] {
      var n := |artifacts| - 1;
      NeverCounted(artifacts[..n], role, id);
      assert forall i :: 0 <= i < n ==> artifacts[..n][i] == artifacts[i];
    }
  }

  /** A true replay check is a bijection between declared replay ids and artifacts of its role. */
  lemma ReplayBijection(env: Env, run: Run, manifest: Manifest, check: Evidence)
    requires InventorySound(env, run, manifest)
    requires check in run.checks && (check.NegativeReplay? || check.TamperReplay?)
    ensures forall k :: HasRole(run.artifacts, k, Trust(check)) ==>
              run.artifacts[k].replayId.Some? && run.artifacts[k].replayId.value in DeclaredReplays(manifest, Trust(check))
    ensures forall j, k :: HasRole(run.artifacts, j, Trust(check)) && HasRole(run.artifacts, k, Trust(check)) && j != k ==>
              run.artifacts[j].replayId != run.artifacts[k].replayId
    ensures forall id :: id in DeclaredReplays(manifest, Trust(check)) ==>
              exists k :: HasRole(run.artifacts, k, Trust(check)) && run.artifacts[k].replayId == Some(id)
    ensures Distinct(DeclaredReplays(manifest, Trust(check)))
  {
    forall id | id in DeclaredReplays(manifest, Trust(check))
      ensures exists k :: HasRole(run.artifacts, k, Trust(check)) && run.artifacts[k].replayId == Some(id)
    {
      var k := CountedOnce(run.artifacts, Trust(check), id);
      assert HasRole(run.artifacts, k, Trust(check));
    }
    forall j, k | HasRole(run.artifacts, j, Trust(check)) && HasRole(run.artifacts, k, Trust(check)) && j != k
      ensures run.artifacts[j].replayId != run.artifacts[k].replayId
    {
      assert OriginValid(manifest, run.artifacts[j]);
      var _ := CountedOnce(run.artifacts, Trust(check), run.artifacts[j].replayId.value);
    }
    forall k | HasRole(run.artifacts, k, Trust(check))
      ensures run.artifacts[k].replayId.value in DeclaredReplays(manifest, Trust(check))
    {
      assert OriginValid(manifest, run.artifacts[k]);
    }
  }

  /** Two true checks are never backed by one file, nor by two files with the same bytes. */
  lemma ChecksDoNotShareFiles(env: Env, run: Run, manifest: Manifest, e: Evidence, f: Evidence, i: nat, j: nat)
    requires InventorySound(env, run, manifest)
    requires e != f && HasRole(run.artifacts, i, Trust(e)) && HasRole(run.artifacts, j, Trust(f))
    ensures FilePath(run.artifacts[i]) != FilePath(run.artifacts[j])
    ensures FilePath(run.artifacts[i]) in env.repo && FilePath(run.artifacts[j]) in env.repo
    ensures env.repo[FilePath(run.artifacts[i])].bytes != env.repo[FilePath(run.artifacts[j])].bytes
  {
    ContentOf(env, run, manifest, i);
    ContentOf(env, run, manifest, j);
    DigestsOf(env, run, manifest, i, j);
    hide InventorySound, Paths.Plain;
  }

  lemma ContentOf(env: Env, run: Run, manifest: Manifest, i: nat)
    requires InventorySound(env, run, manifest) && i < |run.artifacts|
    ensures ContentValid(env, run.artifacts[i])
  {
    hide ContentValid, OriginValid, Backed, ReplaysComplete, NothingReused;
  }

  lemma DigestsOf(env: Env, run: Run, manifest: Manifest, i: nat, j: nat)
    requires InventorySound(env, run, manifest) && i < |run.artifacts| && j < |run.artifacts| && i != j
    requires run.artifacts[i].role.Trust? && run.artifacts[j].role.Trust?
    ensures run.artifacts[i].sha256 != run.artifacts[j].sha256
  {
    hide ContentValid, OriginValid, Backed, ReplaysComplete, PathsDistinct, Distinct;
    assert TrustDigestsDistinct(run.artifacts);
  }

  /** Two artifacts may name one file by two spellings, but not both as evidence for a check. */
  lemma SharedFileHasTwoSpellings(env: Env, run: Run, manifest: Manifest, i: nat, j: nat)
    requires InventorySound(env, run, manifest)
    requires i < |run.artifacts| && j < |run.artifacts| && i != j && FilePath(run.artifacts[i]) == FilePath(run.artifacts[j])
    ensures run.artifacts[i].path != run.artifacts[j].path
    ensures !run.artifacts[i].role.Trust? || !run.artifacts[j].role.Trust?
  {
    ContentOf(env, run, manifest, i);
    ContentOf(env, run, manifest, j);
    if run.artifacts[i].role.Trust? && run.artifacts[j].role.Trust? {
      DigestsOf(env, run, manifest, i, j);
    }
    PathsOf(env, run, manifest, i, j);
    hide InventorySound, Paths.Plain;
  }

  /** The artifact once more, under another spelling and without a trust role. */
  function Again(a: Artifact, spelling: string, name: string): Artifact
    requires !IsReplayRole(a.role)
  {
    a.(path := spelling, role := Other(name))
  }

  /** The reuse check compares spellings: any sound run stays sound when one of its files is listed again as `a/./b`. */
  lemma OtherSpellingIsNotReuse(env: Env, run: Run, manifest: Manifest, k: nat, spelling: string, name: string)
    requires InventorySound(env, run, manifest) && k < |run.artifacts| && !IsReplayRole(run.artifacts[k].role)
    requires env.resolve(spelling) == env.resolve(run.artifacts[k].path)
    requires Paths.Plain(spelling) == Paths.Plain(run.artifacts[k].path)
    requires forall a :: a in run.artifacts ==> a.path != spelling
    ensures var again := Again(run.artifacts[k], spelling, name);
            && InventorySound(env, run.(artifacts := run.artifacts + [again]), manifest)
            && FilePath(again) == FilePath(run.artifacts[k])
  {
    var again := Again(run.artifacts[k], spelling, name);
    var more := run.(artifacts := run.artifacts + [again]);
    hide *;
    InventoryIs(env, run, manifest);
    InventoryIs(env, more, manifest);
    AgainIsValid(env, run, manifest, k, spelling, name);
    FilesOfMore(env, run, manifest, again);
    BackedByMore(run.artifacts, again);
    ReplaysOfMore(run, manifest, again, NegativeReplay);
    ReplaysOfMore(run, manifest, again, TamperReplay);
  }

  lemma InventoryIs(env: Env, run: Run, manifest: Manifest)
    ensures InventorySound(env, run, manifest) <==>
            && FilesSound(env, run, manifest)
            && (forall check :: check in run.checks ==> Backed(run.artifacts, check))
            && (NegativeReplay in run.checks ==> ReplaysComplete(run, manifest, NegativeReplay))
            && (TamperReplay in run.checks ==> ReplaysComplete(run, manifest, TamperReplay))
            && (PinnedRealDesign in run.checks <==> !manifest.designClass.Synthetic?)
  {
    hide FilesSound, Backed, ReplaysComplete;
  }

  lemma FilesOfMore(env: Env, run: Run, manifest: Manifest, again: Artifact)
    requires FilesSound(env, run, manifest) && ContentValid(env, again) && OriginValid(manifest, again)
    requires again.role.Other? && forall a :: a in run.artifacts ==> a.path != again.path
    ensures FilesSound(env, run.(artifacts := run.artifacts + [again]), manifest)
  {
    hide NothingReused, ContentValid, OriginValid;
    AgainIsNotReuse(run, manifest, again);
    assert forall i :: 0 <= i < |run.artifacts| ==> (run.artifacts + [again])[i] == run.artifacts[i];
  }

  lemma AgainIsValid(env: Env, run: Run, manifest: Manifest, k: nat, spelling: string, name: string)
    requires InventorySound(env, run, manifest) && k < |run.artifacts| && !IsReplayRole(run.artifacts[k].role)
    requires env.resolve(spelling) == env.resolve(run.artifacts[k].path)
    requires Paths.Plain(spelling) == Paths.Plain(run.artifacts[k].path)
    ensures var again := Again(run.artifacts[k], spelling, name);
            && ContentValid(env, again) && OriginValid(manifest, again) && again.role == Other(name) && again.path == spelling
            && FilePath(again) == FilePath(run.artifacts[k])
  {
    hide Paths.Plain, NothingReused, Backed, ReplaysComplete;
    assert ContentValid(env, run.artifacts[k]) && OriginValid(manifest, run.artifacts[k]);
  }

  lemma AgainIsNotReuse(run: Run, manifest: Manifest, again: Artifact)
    requires NothingReused(run, manifest) && again.role.Other? && forall a :: a in run.artifacts ==> a.path != again.path
    ensures NothingReused(run.(artifacts := run.artifacts + [again]), manifest)
  {
    hide Distinct;
    assert forall i :: 0 <= i < |run.artifacts| ==> run.artifacts[i] in run.artifacts;
  }

  lemma BackedByMore(artifacts: seq<Artifact>, again: Artifact)
    ensures forall check :: Backed(artifacts, check) ==> Backed(artifacts + [again], check)
  {
    forall check | Backed(artifacts, check)
      ensures Backed(artifacts + [again], check)
    {
      var k :| HasRole(artifacts, k, Trust(check));
      assert HasRole(artifacts + [again], k, Trust(check));
    }
  }

  lemma ReplaysOfMore(run: Run, manifest: Manifest, again: Artifact, check: Evidence)
    requires again.role.Other?
    ensures ReplaysComplete(run, manifest, check) ==>
            ReplaysComplete(run.(artifacts := run.artifacts + [again]), manifest, check)
  {
    assert (run.artifacts + [again])[..|run.artifacts|] == run.artifacts;
  }

  /** A sound inventory raises nothing. */
  lemma SoundFilesDoNotRaise(env: Env, run: Run, manifest: Manifest)
    requires InventorySound(env, run, manifest)
    ensures !SomeArtifactRaises(env, run)
  {
    forall a | a in run.artifacts
      ensures !ArtifactRaises(env, a)
    {
      var k :| 0 <= k < |run.artifacts| && run.artifacts[k] == a;
      ContentOf(env, run, manifest, k);
    }
    hide InventorySound, ArtifactRaises;
  }

  lemma PathsOf(env: Env, run: Run, manifest: Manifest, i: nat, j: nat)
    requires InventorySound(env, run, manifest) && i < |run.artifacts| && j < |run.artifacts| && i != j
    ensures run.artifacts[i].path != run.artifacts[j].path
  {
    hide ContentValid, OriginValid, Backed, ReplaysComplete, TrustDigestsDistinct, Distinct;
    assert PathsDistinct(run.artifacts);
  }
}
