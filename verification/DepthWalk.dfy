/** The explicit-stack depth guard over in-memory values, which may share nodes or contain cycles. */
module DepthWalk {
  import DepthScan

  /** Identity of an in-memory value. */
  type Id = nat

  /** A scalar, or a container (mapping, list or tuple) with its children in iteration order. */
  datatype Value = Scalar | Container(children: seq<Id>)

  type Heap = map<Id, Value>

  ghost predicate Closed(heap: Heap) {
    forall id, child :: id in heap && heap[id].Container? && child in heap[id].children ==> child in heap
  }

  /** Every visit from `id` at this depth stays within the limit; containers on the current path are not re-entered. */
  ghost predicate Visit(heap: Heap, id: Id, depth: int, path: set<Id>, limit: int)
    requires Closed(heap) && id in heap
    decreases limit - depth, 1
  {
    depth <= limit &&
    (heap[id].Scalar? || id in path || VisitAll(heap, heap[id].children, depth + 1, path + {id}, limit))
  }

  ghost predicate VisitAll(heap: Heap, ids: seq<Id>, depth: int, path: set<Id>, limit: int)
    requires Closed(heap) && forall child :: child in ids ==> child in heap
    decreases limit - depth + 1, 0, |ids|
  {
    forall k :: 0 <= k < |ids| ==> depth <= limit && Visit(heap, ids[k], depth, path, limit)
  }

  // The stack.

  datatype Entry = Entry(id: Id, depth: int, leaving: bool)

  ghost predicate InHeap(heap: Heap, pending: seq<Entry>) {
    forall e :: e in pending ==> e.id in heap
  }

  /** The containers whose leave marker is pending: the path to whatever is popped next. */
  ghost function Markers(pending: seq<Entry>): set<Id> {
    set e | e in pending && e.leaving :: e.id
  }

  ghost predicate MarkersOnce(pending: seq<Entry>) {
    forall i, j :: 0 <= i < j < |pending| && pending[i].leaving && pending[j].leaving ==> pending[i].id != pending[j].id
  }

  /** Each pending value is judged against the markers below it. */
  ghost predicate Pending(heap: Heap, pending: seq<Entry>, limit: int)
    requires Closed(heap) && InHeap(heap, pending)
  {
    if pending == [] then true
    else
      var n := |pending| - 1;
      var e := pending[n];
      Pending(heap, pending[..n], limit) &&
      (e.leaving || Visit(heap, e.id, e.depth, Markers(pending[..n]), limit))
  }

  /** The number of pops that one pending visit still costs. */
  ghost function Cost(heap: Heap, id: Id, depth: int, path: set<Id>, limit: int): nat
    requires Closed(heap) && id in heap
    decreases limit - depth, 1, 0
  {
    if depth > limit || heap[id].Scalar? || id in path then 1
    else 2 + CostAll(heap, heap[id].children, depth + 1, path + {id}, limit)
  }

  ghost function CostAll(heap: Heap, ids: seq<Id>, depth: int, path: set<Id>, limit: int): nat
    requires Closed(heap) && forall child :: child in ids ==> child in heap
    decreases limit - depth + 1, 0, |ids|
  {
    if ids == [] then 0
    else
      var n := |ids| - 1;
      CostAll(heap, ids[..n], depth, path, limit) +
      if depth > limit then 1 else Cost(heap, ids[n], depth, path, limit)
  }

  ghost function Work(heap: Heap, pending: seq<Entry>, limit: int): nat
    requires Closed(heap) && InHeap(heap, pending)
  {
    if pending == [] then 0
    else
      var n := |pending| - 1;
      var e := pending[n];
      Work(heap, pending[..n], limit) +
      if e.leaving then 1 else Cost(heap, e.id, e.depth, Markers(pending[..n]), limit)
  }

  function Visits(ids: seq<Id>, depth: int): (entries: seq<Entry>)
    ensures |entries| == |ids|
    ensures forall k :: 0 <= k < |ids| ==> entries[k] == Entry(ids[k], depth, false)
  {
    seq(|ids|, k requires 0 <= k < |ids| => Entry(ids[k], depth, false))
  }

  lemma {:induction false} PushChildren(heap: Heap, base: seq<Entry>, ids: seq<Id>, depth: int, limit: int)
    requires Closed(heap) && InHeap(heap, base) && forall child :: child in ids ==> child in heap
    ensures InHeap(heap, base + Visits(ids, depth))
    ensures Markers(base + Visits(ids, depth)) == Markers(base)
    ensures Pending(heap, base + Visits(ids, depth), limit) <==>
            Pending(heap, base, limit) && VisitAll(heap, ids, depth, Markers(base), limit)
    ensures Work(heap, base + Visits(ids, depth), limit) ==
            Work(heap, base, limit) + CostAll(heap, ids, depth, Markers(base), limit)
    decreases |ids|
  {
    if ids == [] {
      assert base + Visits(ids, depth) == base;
    } else {
      var n := |ids| - 1;
      PushChildren(heap, base, ids[..n], depth, limit);
      var before := base + Visits(ids[..n], depth);
      assert base + Visits(ids, depth) == before + [Entry(ids[n], depth, false)];
      assert (before + [Entry(ids[n], depth, false)])[..|before|] == before;
      assert VisitAll(heap, ids, depth, Markers(base), limit) <==>
             VisitAll(heap, ids[..n], depth, Markers(base), limit) && Visit(heap, ids[n], depth, Markers(base), limit);
    }
  }

  lemma Pop(heap: Heap, base: seq<Entry>, item: Entry, limit: int)
    requires Closed(heap) && InHeap(heap, base + [item]) && MarkersOnce(base + [item])
    ensures item.id in heap && InHeap(heap, base) && MarkersOnce(base)
    ensures Markers(base + [item]) == Markers(base) + if item.leaving then {item.id} else {}
    ensures item.leaving ==> item.id !in Markers(base)
    ensures Pending(heap, base + [item], limit) <==>
            Pending(heap, base, limit) && (item.leaving || Visit(heap, item.id, item.depth, Markers(base), limit))
    ensures Work(heap, base + [item], limit) ==
            Work(heap, base, limit) + if item.leaving then 1 else Cost(heap, item.id, item.depth, Markers(base), limit)
  {
    var pending := base + [item];
    assert pending[..|base|] == base && item in pending;
    assert forall e :: e in pending <==> e in base || e == item;
    assert forall k :: 0 <= k < |base| ==> pending[k] == base[k];
    forall i | 0 <= i < |base| && base[i].leaving && item.leaving
      ensures base[i].id != item.id
    {
      assert pending[i].leaving && pending[|base|].leaving;
    }
  }

  lemma PushMarker(heap: Heap, base: seq<Entry>, id: Id, depth: int, limit: int)
    requires Closed(heap) && InHeap(heap, base) && id in heap && MarkersOnce(base) && id !in Markers(base)
    ensures InHeap(heap, base + [Entry(id, depth, true)]) && MarkersOnce(base + [Entry(id, depth, true)])
    ensures Markers(base + [Entry(id, depth, true)]) == Markers(base) + {id}
    ensures Pending(heap, base + [Entry(id, depth, true)], limit) <==> Pending(heap, base, limit)
    ensures Work(heap, base + [Entry(id, depth, true)], limit) == Work(heap, base, limit) + 1
  {
    var pending := base + [Entry(id, depth, true)];
    assert pending[..|base|] == base;
    assert forall e :: e in pending <==> e in base || e == Entry(id, depth, true);
  }

  lemma VisitsAddNoMarkers(base: seq<Entry>, ids: seq<Id>, depth: int)
    requires MarkersOnce(base)
    ensures MarkersOnce(base + Visits(ids, depth))
  {
  }

  lemma EnterVisit(heap: Heap, id: Id, depth: int, path: set<Id>, limit: int)
    requires Closed(heap) && id in heap && heap[id].Container? && id !in path && depth <= limit
    ensures Visit(heap, id, depth, path, limit) <==> VisitAll(heap, heap[id].children, depth + 1, path + {id}, limit)
    ensures Cost(heap, id, depth, path, limit) == 2 + CostAll(heap, heap[id].children, depth + 1, path + {id}, limit)
  {
  }

  /** Entering a container: its leave marker goes below its children. */
  lemma Enter(heap: Heap, base: seq<Entry>, item: Entry, next: seq<Entry>, limit: int)
    requires Closed(heap) && InHeap(heap, base) && MarkersOnce(base)
    requires item.id in heap && heap[item.id].Container? && item.id !in Markers(base) && item.depth <= limit
    requires next == base + [Entry(item.id, item.depth, true)] + Visits(heap[item.id].children, item.depth + 1)
    ensures InHeap(heap, next) && MarkersOnce(next) && Markers(next) == Markers(base) + {item.id}
    ensures Pending(heap, next, limit) <==>
            Pending(heap, base, limit) && Visit(heap, item.id, item.depth, Markers(base), limit)
    ensures Work(heap, next, limit) < Work(heap, base, limit) + Cost(heap, item.id, item.depth, Markers(base), limit)
  {
    var marked, children := base + [Entry(item.id, item.depth, true)], heap[item.id].children;
    PushMarker(heap, base, item.id, item.depth, limit);
    PushChildren(heap, marked, children, item.depth + 1, limit);
    VisitsAddNoMarkers(marked, children, item.depth + 1);
    EnterVisit(heap, item.id, item.depth, Markers(base), limit);
  }

  /** Terminates on every finite heap, never removes an identity that is not active, and decides Visit. */
  method PythonJsonDepthWithin(heap: Heap, value: Id, limit: int) returns (within: bool)
    requires Closed(heap) && value in heap
    ensures within <==> Visit(heap, value, 1, {}, limit)
  {
    var pending := [Entry(value, 1, false)];
    var active: set<Id> := {};
    assert pending[..0] == [] && Markers([]) == {};
    while pending != []
      invariant InHeap(heap, pending)
      invariant active == Markers(pending) && MarkersOnce(pending)
      invariant Visit(heap, value, 1, {}, limit) <==> Pending(heap, pending, limit)
      decreases Work(heap, pending, limit)
    {
      var item := pending[|pending| - 1];
      assert pending == pending[..|pending| - 1] + [item];
      pending := pending[..|pending| - 1];
      Pop(heap, pending, item, limit);
      if item.leaving {
        assert item.id in active;
        active := active - {item.id};
        continue;
      }
      if item.depth > limit {
        return false;
      }
      if heap[item.id].Scalar? || item.id in active {
        continue;
      }
      ghost var below := pending;
      active := active + {item.id};
      pending := pending + [Entry(item.id, item.depth, true)];
      pending := pending + Visits(heap[item.id].children, item.depth + 1);
      Enter(heap, below, item, pending, limit);
    }
    within := true;
  }

  // What Visit means on any graph: no over-long walk that repeats nothing before its last step.

  ghost predicate IsWalk(heap: Heap, walk: seq<Id>) {
    && (forall k :: 0 <= k < |walk| ==> walk[k] in heap)
    && (forall k :: 0 <= k < |walk| - 1 ==> heap[walk[k]].Container? && walk[k + 1] in heap[walk[k]].children)
  }

  /** A walk from `id` of the given length whose members before the last are new containers. */
  ghost predicate Escapes(heap: Heap, id: Id, path: set<Id>, walk: seq<Id>, length: int) {
    && |walk| == length && length >= 1 && walk[0] == id
    && IsWalk(heap, walk)
    && (forall k :: 0 <= k < |walk| - 1 ==> walk[k] !in path)
    && (forall j, k :: 0 <= j < k < |walk| - 1 ==> walk[j] != walk[k])
  }

  lemma {:induction false} RefusedHasWalk(heap: Heap, id: Id, depth: int, path: set<Id>, limit: int) returns (walk: seq<Id>)
    requires Closed(heap) && id in heap && depth <= limit + 1
    requires !Visit(heap, id, depth, path, limit)
    ensures Escapes(heap, id, path, walk, limit - depth + 2)
    decreases limit - depth + 1
  {
    if depth > limit {
      walk := [id];
    } else {
      var children := heap[id].children;
      var k :| 0 <= k < |children| && !(depth + 1 <= limit && Visit(heap, children[k], depth + 1, path + {id}, limit));
      var tail := RefusedHasWalk(heap, children[k], depth + 1, path + {id}, limit);
      walk := [id] + tail;
    }
  }

  lemma {:induction false} WalkIsRefused(heap: Heap, id: Id, depth: int, path: set<Id>, limit: int, walk: seq<Id>)
    requires Closed(heap) && id in heap && depth <= limit + 1
    requires Escapes(heap, id, path, walk, limit - depth + 2)
    ensures !Visit(heap, id, depth, path, limit)
    decreases limit - depth + 1
  {
    if depth <= limit {
      var tail := walk[1..];
      forall k | 0 <= k < |tail|
        ensures tail[k] == walk[k + 1]
      {
      }
      var next := tail[0];
      assert walk[1] in heap[walk[0]].children;
      assert Escapes(heap, next, path + {id}, tail, limit - depth + 1);
      WalkIsRefused(heap, next, depth + 1, path + {id}, limit, tail);
      var children := heap[id].children;
      var k :| 0 <= k < |children| && children[k] == next;
      assert !Visit(heap, children[k], depth + 1, path + {id}, limit);
    }
  }

  ghost predicate HasWalk(heap: Heap, id: Id, length: int) {
    exists walk :: Escapes(heap, id, {}, walk, length)
  }

  /** On every finite graph, shared and cyclic ones included. */
  lemma VisitFindsLongWalks(heap: Heap, value: Id, limit: int)
    requires Closed(heap) && value in heap
    ensures Visit(heap, value, 1, {}, limit) <==> limit >= 1 && !HasWalk(heap, value, limit + 1)
  {
    if limit >= 1 {
      var length := limit + 1;
      if !Visit(heap, value, 1, {}, limit) {
        var walk := RefusedHasWalk(heap, value, 1, {}, limit);
      }
      if walk :| Escapes(heap, value, {}, walk, length) {
        WalkIsRefused(heap, value, 1, {}, limit, walk);
      }
    }
  }

  // Values loaded from JSON text.

  /** The heap holds the value; equal parts may be one object. */
  ghost predicate Represents(heap: Heap, id: Id, node: DepthScan.Node)
    decreases node
  {
    id in heap &&
    match node
    case Literal(_) => heap[id].Scalar?
    case Text(_) => heap[id].Scalar?
    case Array(_, items) =>
      && heap[id].Container? && |heap[id].children| == |items|
      && forall k :: 0 <= k < |items| ==> Represents(heap, heap[id].children[k], items[k].node)
    case Object(_, entries) =>
      && heap[id].Container? && |heap[id].children| == |entries|
      && forall k :: 0 <= k < |entries| ==> Represents(heap, heap[id].children[k], entries[k].value.node)
  }

  function Parts(node: DepthScan.Node): (parts: seq<DepthScan.Node>)
    ensures forall k :: 0 <= k < |parts| ==> parts[k] < node
  {
    match node
    case Literal(_) => []
    case Text(_) => []
    case Array(_, items) => seq(|items|, k requires 0 <= k < |items| => items[k].node)
    case Object(_, entries) => seq(|entries|, k requires 0 <= k < |entries| => entries[k].value.node)
  }

  /** Height counts a scalar leaf as a level of its own. */
  function Height(node: DepthScan.Node): (h: nat)
    ensures h >= 1
    decreases node, 1, 0
  {
    1 + Highest(node, Parts(node))
  }

  function Highest(node: DepthScan.Node, parts: seq<DepthScan.Node>): nat
    requires forall k :: 0 <= k < |parts| ==> parts[k] < node
    decreases node, 0, |parts|
  {
    if parts == [] then 0 else DepthScan.Max(Height(parts[0]), Highest(node, parts[1..]))
  }

  lemma {:induction false} HighestBounds(node: DepthScan.Node, parts: seq<DepthScan.Node>, bound: int)
    requires forall k :: 0 <= k < |parts| ==> parts[k] < node
    requires bound >= 0
    ensures Highest(node, parts) <= bound <==> forall k :: 0 <= k < |parts| ==> Height(parts[k]) <= bound
    decreases |parts|
  {
    if parts != [] {
      HighestBounds(node, parts[1..], bound);
      assert forall k :: 0 < k < |parts| ==> parts[k] == parts[1..][k - 1];
    }
  }

  lemma HeightAbove(node: DepthScan.Node, k: nat)
    requires k < |Parts(node)|
    ensures Height(Parts(node)[k]) < Height(node)
  {
    HighestBounds(node, Parts(node), Highest(node, Parts(node)));
  }

  lemma RepresentsParts(heap: Heap, id: Id, node: DepthScan.Node)
    requires Represents(heap, id, node)
    ensures heap[id].Container? <==> node.Array? || node.Object?
    ensures heap[id].Container? ==> |heap[id].children| == |Parts(node)|
    ensures heap[id].Container? ==>
              forall k :: 0 <= k < |Parts(node)| ==> Represents(heap, heap[id].children[k], Parts(node)[k])
  {
  }

  /** One object cannot stand for values of different heights. */
  lemma {:induction false} SameHeight(heap: Heap, id: Id, a: DepthScan.Node, b: DepthScan.Node)
    requires Represents(heap, id, a) && Represents(heap, id, b)
    ensures Height(a) == Height(b)
    decreases a
  {
    RepresentsParts(heap, id, a);
    RepresentsParts(heap, id, b);
    forall k | 0 <= k < |Parts(a)|
      ensures heap[id].Container? ==> Height(Parts(a)[k]) == Height(Parts(b)[k])
    {
      if heap[id].Container? {
        SameHeight(heap, heap[id].children[k], Parts(a)[k], Parts(b)[k]);
      }
    }
    HighestBounds(a, Parts(a), Highest(a, Parts(a)));
    HighestBounds(a, Parts(a), Highest(b, Parts(b)));
    HighestBounds(b, Parts(b), Highest(a, Parts(a)));
    HighestBounds(b, Parts(b), Highest(b, Parts(b)));
  }

  ghost predicate PathAbove(heap: Heap, path: set<Id>, height: int) {
    forall p :: p in path ==> StandsHigher(heap, p, height)
  }

  ghost predicate StandsHigher(heap: Heap, p: Id, height: int) {
    exists node :: Represents(heap, p, node) && Height(node) > height
  }

  lemma {:induction false} VisitMeasuresHeight(heap: Heap, id: Id, node: DepthScan.Node, depth: int, path: set<Id>, limit: int)
    requires Closed(heap) && Represents(heap, id, node) && PathAbove(heap, path, Height(node))
    ensures Visit(heap, id, depth, path, limit) <==> depth + Height(node) - 1 <= limit
    decreases limit - depth
  {
    RepresentsParts(heap, id, node);
    if id in path {
      var above :| Represents(heap, id, above) && Height(above) > Height(node);
      SameHeight(heap, id, node, above);
      assert false;
    } else if depth <= limit && heap[id].Container? {
      var parts, children := Parts(node), heap[id].children;
      forall k | 0 <= k < |parts| && depth + 1 <= limit
        ensures Visit(heap, children[k], depth + 1, path + {id}, limit) <==> depth + Height(parts[k]) <= limit
      {
        HeightAbove(node, k);
        assert StandsHigher(heap, id, Height(parts[k]));
        VisitMeasuresHeight(heap, children[k], parts[k], depth + 1, path + {id}, limit);
      }
      HighestBounds(node, parts, limit - depth);
    }
  }

  /** On the value of a JSON text the guard compares the height with the limit. */
  lemma WalkMeasuresHeight(heap: Heap, id: Id, node: DepthScan.Node, limit: int)
    requires Closed(heap) && Represents(heap, id, node)
    ensures Visit(heap, id, 1, {}, limit) <==> Height(node) <= limit
  {
    VisitMeasuresHeight(heap, id, node, 1, {}, limit);
  }

  // The two guards side by side.

  lemma {:induction false} HeightNearDepth(node: DepthScan.Node)
    ensures DepthScan.BracketDepth(node) <= Height(node) <= DepthScan.BracketDepth(node) + 1
    decreases node, 1
  {
    match node
    case Literal(_) =>
    case Text(_) =>
    case Array(_, items) => ItemsNear(node, items, Parts(node));
    case Object(_, entries) => EntriesNear(node, entries, Parts(node));
  }

  lemma {:induction false} ItemsNear(node: DepthScan.Node, items: seq<DepthScan.Element>, parts: seq<DepthScan.Node>)
    requires |parts| == |items| && forall k :: 0 <= k < |parts| ==> parts[k] == items[k].node && parts[k] < node
    ensures DepthScan.ItemsDepth(items) <= Highest(node, parts) <= DepthScan.ItemsDepth(items) + 1
    decreases node, 0, |items|
  {
    if items != [] {
      HeightNearDepth(parts[0]);
      ItemsNear(node, items[1..], parts[1..]);
    }
  }

  lemma {:induction false} EntriesNear(node: DepthScan.Node, entries: seq<DepthScan.Entry>, parts: seq<DepthScan.Node>)
    requires |parts| == |entries| && forall k :: 0 <= k < |parts| ==> parts[k] == entries[k].value.node && parts[k] < node
    ensures DepthScan.EntriesDepth(entries) <= Highest(node, parts) <= DepthScan.EntriesDepth(entries) + 1
    decreases node, 0, |entries|
  {
    if entries != [] {
      HeightNearDepth(parts[0]);
      EntriesNear(node, entries[1..], parts[1..]);
    }
  }

  /** What the walk accepts at a limit the scan accepts there too; what the scan accepts, the walk accepts one
      level further, exactly when the limit is not negative. */
  lemma GuardsDifferByOneLevel(e: DepthScan.Element, heap: Heap, id: Id, limit: int)
    requires DepthScan.ValidElement(e) && Closed(heap) && Represents(heap, id, e.node)
    ensures Visit(heap, id, 1, {}, limit) ==> DepthScan.Within(DepthScan.START, DepthScan.PrintElement(e), limit)
    ensures DepthScan.Within(DepthScan.START, DepthScan.PrintElement(e), limit) ==>
              (Visit(heap, id, 1, {}, limit + 1) <==> limit >= 0)
  {
    DepthScan.ScanMeasuresBracketDepth(e, limit);
    WalkMeasuresHeight(heap, id, e.node, limit);
    WalkMeasuresHeight(heap, id, e.node, limit + 1);
    HeightNearDepth(e.node);
  }
}
