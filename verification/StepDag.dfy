/** One-pass ancestry of a role-mediated step DAG, and why it is the transitive closure. */
module StepDag {
  import opened Prelude
  import opened Chain

  /** Step i produces a role that step j consumes. */
  ghost predicate Feeds(steps: seq<Step>, i: int, j: int) {
    && 0 <= i < |steps| && 0 <= j < |steps|
    && exists role :: role in steps[i].produces && role in steps[j].consumes
  }

  ghost predicate IsChain(steps: seq<Step>, path: seq<int>) {
    forall k :: 0 <= k < |path| - 1 ==> Feeds(steps, path[k], path[k + 1])
  }

  /** The transitive closure of Feeds: a path with at least one edge. */
  ghost predicate Reaches(steps: seq<Step>, i: int, j: int) {
    exists path :: ReachesBy(steps, path, i, j)
  }

  ghost predicate ReachesBy(steps: seq<Step>, path: seq<int>, i: int, j: int) {
    |path| >= 2 && path[0] == i && path[|path| - 1] == j && IsChain(steps, path)
  }

  /** Every role is produced by an earlier step before it is consumed. */
  ghost predicate RolesOrdered(steps: seq<Step>) {
    forall j, role :: 0 <= j < |steps| && role in steps[j].consumes ==> ProducedBefore(steps, j, role)
  }

  ghost predicate ProducedBefore(steps: seq<Step>, j: int, role: string) {
    exists i :: 0 <= i < j && i < |steps| && role in steps[i].produces
  }

  /** No two steps produce the same role. */
  ghost predicate RolesDefinedOnce(steps: seq<Step>) {
    forall i, j, role :: 0 <= i < j < |steps| && role in steps[i].produces ==> role !in steps[j].produces
  }

  ghost predicate WellOrdered(steps: seq<Step>) {
    RolesOrdered(steps) && RolesDefinedOnce(steps) && UniqueIds(steps)
  }

  // What the two dictionaries of the pass hold.

  /** The id of the first of the steps that produces the role. */
  function Producer(steps: seq<Step>, role: string): Option<string> {
    if steps == [] then None
    else if role in steps[0].produces then Some(steps[0].id)
    else Producer(steps[1..], role)
  }

  function LineageOf(roles: seq<string>, earlier: seq<Step>, known: map<string, set<string>>): set<string> {
    if roles == [] then {}
    else
      var n := |roles| - 1;
      LineageOf(roles[..n], earlier, known) + Line(Producer(earlier, roles[n]), known)
  }

  function Line(producer: Option<string>, known: map<string, set<string>>): set<string> {
    match producer
    case None => {}
    case Some(id) => {id} + if id in known then known[id] else {}
  }

  function Ancestry(steps: seq<Step>): map<string, set<string>> {
    if steps == [] then map[]
    else
      var n := |steps| - 1;
      var known := Ancestry(steps[..n]);
      known[steps[n].id := LineageOf(steps[n].consumes, steps[..n], known)]
  }

  function AncestorsOf(steps: seq<Step>, id: string): set<string> {
    var known := Ancestry(steps);
    if id in known then known[id] else {}
  }

  lemma ProducerAppend(steps: seq<Step>, step: Step, role: string)
    ensures Producer(steps + [step], role) ==
            if Producer(steps, role).Some? then Producer(steps, role)
            else if role in step.produces then Some(step.id) else None
  {
    if steps == [] {
      assert (steps + [step])[1..] == [];
    } else {
      assert (steps + [step])[1..] == steps[1..] + [step];
      ProducerAppend(steps[1..], step, role);
    }
  }

  /** The map holds the first producer of every role produced so far. */
  ghost predicate Producers(producerByRole: map<string, string>, steps: seq<Step>) {
    forall role :: Producer(steps, role) == if role in producerByRole then Some(producerByRole[role]) else None
  }

  lemma ProducersNext(before: map<string, string>, after: map<string, string>, steps: seq<Step>, step: Step)
    requires Producers(before, steps)
    requires forall role :: role in after <==> role in before || role in step.produces
    requires forall role :: role in after ==> after[role] == if role in before then before[role] else step.id
    ensures Producers(after, steps + [step])
  {
    forall role
      ensures Producer(steps + [step], role) == if role in after then Some(after[role]) else None
    {
      ProducerAppend(steps, step, role);
    }
  }

  method StepAncestorIds(steps: seq<Step>) returns (ancestors: map<string, set<string>>)
    ensures ancestors == Ancestry(steps)
  {
    var producerByRole: map<string, string> := map[];
    ancestors := map[];
    for s := 0 to |steps|
      invariant ancestors == Ancestry(steps[..s])
      invariant Producers(producerByRole, steps[..s])
    {
      var step := steps[s];
      TakeNext(steps, s);
      var lineage: set<string> := {};
      for c := 0 to |step.consumes|
        invariant lineage == LineageOf(step.consumes[..c], steps[..s], ancestors)
      {
        assert step.consumes[..c + 1][..c] == step.consumes[..c];
        if step.consumes[c] in producerByRole {
          var producer := producerByRole[step.consumes[c]];
          lineage := lineage + {producer};
          lineage := lineage + if producer in ancestors then ancestors[producer] else {};
        }
      }
      assert step.consumes[..|step.consumes|] == step.consumes;
      ancestors := ancestors[step.id := lineage];
      ghost var before := producerByRole;
      for p := 0 to |step.produces|
        invariant forall role :: role in producerByRole <==> role in before || role in step.produces[..p]
        invariant forall role :: role in producerByRole ==>
                    producerByRole[role] == if role in before then before[role] else step.id
      {
        hide *;
        TakeNext(step.produces, p);
        if step.produces[p] !in producerByRole {
          producerByRole := producerByRole[step.produces[p] := step.id];
        }
      }
      assert step.produces[..|step.produces|] == step.produces;
      ProducersNext(before, producerByRole, steps[..s], step);
    }
    assert steps[..|steps|] == steps;
  }

  // The closure theorem.

  lemma FeedsForward(steps: seq<Step>, i: int, j: int)
    requires RolesOrdered(steps) && RolesDefinedOnce(steps) && Feeds(steps, i, j)
    ensures i < j
  {
    var role :| role in steps[i].produces && role in steps[j].consumes;
    assert ProducedBefore(steps, j, role);
    var k :| 0 <= k < j && k < |steps| && role in steps[k].produces;
    assert !(k < i) && !(i < k);
  }

  lemma {:induction false} ChainForward(steps: seq<Step>, path: seq<int>, i: int, j: int)
    requires RolesOrdered(steps) && RolesDefinedOnce(steps) && ReachesBy(steps, path, i, j)
    ensures 0 <= i < j < |steps|
    decreases |path|
  {
    var n := |path| - 1;
    assert Feeds(steps, path[n - 1], path[n]);
    FeedsForward(steps, path[n - 1], j);
    if n > 1 {
      ChainForward(steps, path[..n], i, path[n - 1]);
    }
  }

  lemma ReachesForward(steps: seq<Step>, i: int, j: int)
    requires RolesOrdered(steps) && RolesDefinedOnce(steps) && Reaches(steps, i, j)
    ensures 0 <= i < j < |steps|
  {
    var path :| ReachesBy(steps, path, i, j);
    ChainForward(steps, path, i, j);
  }

  lemma ReachesOne(steps: seq<Step>, i: int, j: int)
    requires Feeds(steps, i, j)
    ensures Reaches(steps, i, j)
  {
    assert ReachesBy(steps, [i, j], i, j);
  }

  lemma ReachesTransitive(steps: seq<Step>, i: int, j: int, k: int)
    requires Reaches(steps, i, j) && Reaches(steps, j, k)
    ensures Reaches(steps, i, k)
  {
    var p :| ReachesBy(steps, p, i, j);
    var q :| ReachesBy(steps, q, j, k);
    var path := p + q[1..];
    forall n | 0 <= n < |path| - 1
      ensures Feeds(steps, path[n], path[n + 1])
    {
      if n >= |p| - 1 {
        assert path[n] == q[n - |p| + 1] && path[n + 1] == q[n - |p| + 2];
      } else {
        assert path[n] == p[n] && path[n + 1] == p[n + 1];
      }
    }
    assert ReachesBy(steps, path, i, k);
  }

  lemma ReachesLastEdge(steps: seq<Step>, i: int, j: int) returns (k: int)
    requires Reaches(steps, i, j)
    ensures Feeds(steps, k, j) && (i == k || Reaches(steps, i, k))
  {
    var path :| ReachesBy(steps, path, i, j);
    var n := |path| - 1;
    k := path[n - 1];
    assert Feeds(steps, path[n - 1], path[n]);
    if n > 1 {
      assert ReachesBy(steps, path[..n], i, k);
    }
  }

  lemma {:induction false} ProducerIs(steps: seq<Step>, role: string, k: nat)
    requires k < |steps| && role in steps[k].produces
    requires RolesDefinedOnce(steps)
    ensures Producer(steps, role) == Some(steps[k].id)
  {
    if k > 0 {
      assert role !in steps[0].produces;
      ProducerIs(steps[1..], role, k - 1);
    }
  }

  lemma {:induction false} LineageMember(roles: seq<string>, earlier: seq<Step>, known: map<string, set<string>>, p: string)
    ensures p in LineageOf(roles, earlier, known) <==>
            exists r :: 0 <= r < |roles| && p in Line(Producer(earlier, roles[r]), known)
  {
    if roles != [] {
      var n := |roles| - 1;
      LineageMember(roles[..n], earlier, known, p);
      if p in LineageOf(roles[..n], earlier, known) {
        var r :| 0 <= r < n && p in Line(Producer(earlier, roles[..n][r]), known);
        assert roles[r] == roles[..n][r];
      }
      if exists r :: 0 <= r < |roles| && p in Line(Producer(earlier, roles[r]), known) {
        var r :| 0 <= r < |roles| && p in Line(Producer(earlier, roles[r]), known);
        if r < n {
          assert roles[..n][r] == roles[r];
        }
      }
    }
  }

  lemma {:induction false} AncestryKeeps(steps: seq<Step>, j: nat)
    requires j < |steps| && UniqueIds(steps)
    ensures steps[j].id in Ancestry(steps)
    ensures Ancestry(steps)[steps[j].id] == LineageOf(steps[j].consumes, steps[..j], Ancestry(steps[..j]))
    decreases |steps|
  {
    var n := |steps| - 1;
    if j < n {
      AncestryKeeps(steps[..n], j);
      assert steps[..n][..j] == steps[..j];
    }
  }

  /** Restricting to a prefix does not change which steps reach a step of the prefix. */
  lemma {:induction false} AncestryPrefix(steps: seq<Step>, m: nat, j: nat)
    requires j < m <= |steps| && UniqueIds(steps)
    ensures steps[j].id in Ancestry(steps[..m])
    ensures Ancestry(steps[..m])[steps[j].id] == AncestorsOf(steps, steps[j].id)
  {
    AncestryKeeps(steps, j);
    AncestryKeeps(steps[..m], j);
    assert steps[..m][..j] == steps[..j];
  }

  /** What a consumed role brings in: its producer and the producer's own ancestors. */
  lemma AncestorsThroughRoles(steps: seq<Step>, j: nat, p: string)
    requires WellOrdered(steps) && j < |steps|
    ensures p in AncestorsOf(steps, steps[j].id) <==> exists k :: IsAncestorThrough(steps, k, j, p)
  {
    hide Producer, LineageOf, Ancestry;
    var known := Ancestry(steps[..j]);
    AncestryKeeps(steps, j);
    LineageMember(steps[j].consumes, steps[..j], known, p);
    if p in AncestorsOf(steps, steps[j].id) {
      var r :| 0 <= r < |steps[j].consumes| && p in Line(Producer(steps[..j], steps[j].consumes[r]), known);
      var k := SourceOf(steps, j, steps[j].consumes[r]);
      AncestryPrefix(steps, j, k);
      assert IsAncestorThrough(steps, k, j, p);
    }
    if k :| IsAncestorThrough(steps, k, j, p) {
      FeedsForward(steps, k, j);
      var role :| role in steps[k].produces && role in steps[j].consumes;
      var r :| 0 <= r < |steps[j].consumes| && steps[j].consumes[r] == role;
      ProducerIs(steps[..j], role, k);
      AncestryPrefix(steps, j, k);
      assert p in Line(Producer(steps[..j], steps[j].consumes[r]), known);
    }
  }

  ghost predicate IsAncestorThrough(steps: seq<Step>, k: int, j: int, p: string) {
    Feeds(steps, k, j) && (p == steps[k].id || p in AncestorsOf(steps, steps[k].id))
  }

  /** A step with this id reaches step j. */
  ghost predicate ReachedFrom(steps: seq<Step>, p: string, j: int) {
    exists i :: 0 <= i < |steps| && steps[i].id == p && Reaches(steps, i, j)
  }

  ghost predicate IsReachedThrough(steps: seq<Step>, k: int, j: int, p: string) {
    Feeds(steps, k, j) && (p == steps[k].id || ReachedFrom(steps, p, k))
  }

  lemma ReachedThroughEdge(steps: seq<Step>, j: nat, p: string)
    requires j < |steps|
    ensures ReachedFrom(steps, p, j) <==> exists k :: IsReachedThrough(steps, k, j, p)
  {
    hide Reaches;
    if ReachedFrom(steps, p, j) {
      var i :| 0 <= i < |steps| && steps[i].id == p && Reaches(steps, i, j);
      var k := ReachesLastEdge(steps, i, j);
      assert IsReachedThrough(steps, k, j, p);
    }
    if k :| IsReachedThrough(steps, k, j, p) {
      ReachesOne(steps, k, j);
      if p != steps[k].id {
        var i :| 0 <= i < |steps| && steps[i].id == p && Reaches(steps, i, k);
        ReachesTransitive(steps, i, k, j);
      }
    }
  }

  /** The pass computes exactly the transitive closure of producer-to-consumer. */
  lemma {:induction false} AncestorClosure(steps: seq<Step>, j: nat, p: string)
    requires WellOrdered(steps) && j < |steps|
    ensures p in AncestorsOf(steps, steps[j].id) <==>
            exists i :: 0 <= i < |steps| && steps[i].id == p && Reaches(steps, i, j)
    decreases j
  {
    AncestorsThroughRoles(steps, j, p);
    ReachedThroughEdge(steps, j, p);
    hide Reaches, AncestorsOf, RolesOrdered, RolesDefinedOnce, UniqueIds;
    forall k
      ensures IsAncestorThrough(steps, k, j, p) <==> IsReachedThrough(steps, k, j, p)
    {
      if Feeds(steps, k, j) {
        FeedsForward(steps, k, j);
        AncestorClosure(steps, k, p);
      }
    }
  }

  /** The one earlier step that produces a consumed role. */
  lemma SourceOf(steps: seq<Step>, j: nat, role: string) returns (k: nat)
    requires WellOrdered(steps) && j < |steps| && role in steps[j].consumes
    ensures k < j && Feeds(steps, k, j) && Producer(steps[..j], role) == Some(steps[k].id)
  {
    assert ProducedBefore(steps, j, role);
    k :| 0 <= k < j && k < |steps| && role in steps[k].produces;
    ProducerIs(steps[..j], role, k);
  }

  /** Irreflexive, backward-pointing and transitively closed. */
  lemma AncestorOrder(steps: seq<Step>, j: nat, p: string)
    requires WellOrdered(steps) && j < |steps| && p in AncestorsOf(steps, steps[j].id)
    ensures p != steps[j].id
    ensures exists i :: 0 <= i < j && steps[i].id == p
    ensures AncestorsOf(steps, p) <= AncestorsOf(steps, steps[j].id)
  {
    AncestorClosure(steps, j, p);
    var i :| 0 <= i < |steps| && steps[i].id == p && Reaches(steps, i, j);
    ReachesForward(steps, i, j);
    forall q | q in AncestorsOf(steps, p)
      ensures q in AncestorsOf(steps, steps[j].id)
    {
      AncestorClosure(steps, i, q);
      var h :| 0 <= h < |steps| && steps[h].id == q && Reaches(steps, h, i);
      ReachesTransitive(steps, h, i, j);
      AncestorClosure(steps, j, q);
    }
  }
}
